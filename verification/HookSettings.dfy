/** merge_hooks of memsom/bridge/wire_claude.py: which handlers the settings' `hooks` object gets for
    which event. */
module HookSettings {
  import opened Base
  import opened HookMerge

  /** What a settings object holds under `hooks`, and under one event. */
  datatype Event = NotAList | Groups(groups: seq<Group>)
  datatype Settings = Absent | NotAnObject | Events(events: map<string, Event>)

  /** The command line for a subcommand: the executable is quoted unless it already is
      a quoted interpreter with a module. */
  function Cmd(exe: string, sub: string): string {
    if StartsWith(exe, "\"") && Contains(exe, " -m ") then exe + " " + sub else "\"" + exe + "\" " + sub
  }

  function Command(exe: string, sub: string, timeout: Option<int>): Handler {
    Hook(Some("command"), Some(Cmd(exe, sub)), timeout, map[])
  }

  function OneHandler(matcher: Option<string>, h: Handler): Group {
    Group(matcher, Some([h]), map[])
  }

  const PROMPT_HOOK_TIMEOUT_S := 5

  /** What is wanted under one event: a handler found by its probe, either overwritten
      and deduplicated (`exact`) or only added when missing and refreshed when stale. */
  datatype Want = Want(event: string, probe: string, matcher: Option<string>, entry: Handler, exact: bool)

  function StopWant(exe: string): Want {
    Want("Stop", "bridge-render", None, Command(exe, "bridge-render", None), false)
  }

  function PromptWant(exe: string): Want {
    Want("UserPromptSubmit", "hook-prompt", None, Command(exe, "hook-prompt", Some(PROMPT_HOOK_TIMEOUT_S)), true)
  }

  function GateWants(exe: string): seq<Want> {
    [Want("PostToolUse", "hook-post", Some("WebFetch|WebSearch"), Command(exe, "hook-post", None), false),
     Want("PreToolUse", "hook-pre", Some("Bash|Edit|Write|MultiEdit|NotebookEdit"), Command(exe, "hook-pre", None), false)]
  }

  function Wants(exe: string, gate: bool, prompt: bool): seq<Want> {
    [StopWant(exe)] + (if prompt then [PromptWant(exe)] else []) + (if gate then GateWants(exe) else [])
  }

  lemma CmdNamesItsSubcommand(exe: string, sub: string)
    ensures Contains(Cmd(exe, sub), sub)
  {
    var c := Cmd(exe, sub);
    assert At(c, sub, |c| - |sub|);
  }

  ghost predicate WellFormed(ws: seq<Want>) {
    && (forall w | w in ws :: Matches(w.entry, w.probe))
    && (forall i, j | 0 <= i < j < |ws| :: ws[i].event != ws[j].event)
  }

  lemma WantsAreWellFormed(exe: string, gate: bool, prompt: bool)
    ensures WellFormed(Wants(exe, gate, prompt))
  {
    CmdNamesItsSubcommand(exe, "bridge-render");
    CmdNamesItsSubcommand(exe, "hook-prompt");
    CmdNamesItsSubcommand(exe, "hook-post");
    CmdNamesItsSubcommand(exe, "hook-pre");
    hide Cmd, Contains;
    EventsDiffer();
    assert Matches(StopWant(exe).entry, "bridge-render") && Matches(PromptWant(exe).entry, "hook-prompt");
    assert Matches(GateWants(exe)[0].entry, "hook-post") && Matches(GateWants(exe)[1].entry, "hook-pre");
    hide Matches, Command;
  }

  lemma EventsDiffer()
    ensures |"Stop"| == 4 && |"UserPromptSubmit"| == 16 && |"PostToolUse"| == 11 && |"PreToolUse"| == 10
  {
  }

  // ----- one event

  function Satisfied(gs: seq<Group>, w: Want, bare: string -> bool, stale: string -> bool): seq<Group>
    requires w.entry.Hook? && w.entry.command.Some?
  {
    if w.exact then Upserted(gs, w.probe, w.entry)
    else if !Has(gs, w.probe) then gs + [OneHandler(w.matcher, w.entry)]
    else if bare(w.entry.command.value) then gs
    else Upgraded(gs, w.probe, w.entry, stale)
  }

  /** An event's list that is as wanted stays as it is. */
  lemma SatisfiedTwice(gs: seq<Group>, w: Want, bare: string -> bool, stale: string -> bool)
    requires Matches(w.entry, w.probe)
    ensures var made := Satisfied(gs, w, bare, stale);
      Satisfied(made, w, bare, stale) == made
  {
    var made := Satisfied(gs, w, bare, stale);
    if w.exact {
      UpsertTwice(gs, w.probe, w.entry);
    } else if !Has(gs, w.probe) {
      AppendedIsCurrent(gs, w, stale);
    } else if !bare(w.entry.command.value) {
      UpgradeKeepsMatches(gs, w.probe, w.entry, stale);
      UpgradeTwice(gs, w.probe, w.entry, stale);
    }
  }

  lemma AppendedIsCurrent(gs: seq<Group>, w: Want, stale: string -> bool)
    requires Matches(w.entry, w.probe) && !Has(gs, w.probe)
    ensures var made := gs + [OneHandler(w.matcher, w.entry)];
      Has(made, w.probe) && Upgraded(made, w.probe, w.entry, stale) == made
  {
    var g := OneHandler(w.matcher, w.entry);
    var made := gs + [g];
    assert g in made && w.entry in Hooks(g);
    forall i | 0 <= i < |made| ensures UpgradedGroup(made[i], w.probe, w.entry, stale) == made[i] {
      var hs := Hooks(made[i]);
      forall j | 0 <= j < |hs| ensures !Outdated(hs[j], w.probe, w.entry, stale) {
        if i < |gs| { assert gs[i] in gs && hs[j] in Hooks(gs[i]); }
      }
      assert RefitAll(hs, w.probe, w.entry, stale) == hs;
    }
  }

  // ----- the whole object

  /** What a merge leaves: the events, the changed ones in order, and the event whose
      value was not a list, at which it stopped. */
  datatype Merged = Merged(events: map<string, Event>, changed: seq<string>, failed: Option<string>)

  function Current(events: map<string, Event>, event: string): Event {
    if event in events then events[event] else Groups([])
  }

  function MergedEvents(events: map<string, Event>, ws: seq<Want>, bare: string -> bool, stale: string -> bool): Merged
    requires forall w | w in ws :: Matches(w.entry, w.probe)
    decreases |ws|
  {
    if ws == [] then Merged(events, [], None)
    else
      var w := ws[0];
      assert Matches(w.entry, w.probe);
      match Current(events, w.event)
      case NotAList => Merged(events, [], Some(w.event))
      case Groups(gs) =>
        var made := Satisfied(gs, w, bare, stale);
        var rest := MergedEvents(events[w.event := Groups(made)], ws[1..], bare, stale);
        rest.(changed := (if made == gs then [] else [w.event]) + rest.changed)
  }

  predicate Settled(events: map<string, Event>, w: Want, bare: string -> bool, stale: string -> bool)
    requires Matches(w.entry, w.probe)
  {
    w.event in events && events[w.event].Groups?
    && Satisfied(events[w.event].groups, w, bare, stale) == events[w.event].groups
  }

  /** Other events are left alone. */
  lemma {:induction false} MergeTouchesOnlyItsEvents(events: map<string, Event>, ws: seq<Want>, bare: string -> bool, stale: string -> bool, e: string)
    requires forall w | w in ws :: Matches(w.entry, w.probe)
    requires forall w | w in ws :: w.event != e
    ensures var r := MergedEvents(events, ws, bare, stale);
      (e in r.events <==> e in events) && (e in events ==> r.events[e] == events[e])
    decreases |ws|
  {
    if ws != [] && Current(events, ws[0].event).Groups? {
      assert ws[0] in ws && forall w | w in ws[1..] :: w in ws;
      var made := Satisfied(Current(events, ws[0].event).groups, ws[0], bare, stale);
      MergeTouchesOnlyItsEvents(events[ws[0].event := Groups(made)], ws[1..], bare, stale, e);
    }
  }

  lemma {:induction false} MergeSettles(events: map<string, Event>, ws: seq<Want>, bare: string -> bool, stale: string -> bool)
    requires WellFormed(ws) && MergedEvents(events, ws, bare, stale).failed.None?
    ensures forall w | w in ws :: Settled(MergedEvents(events, ws, bare, stale).events, w, bare, stale)
    decreases |ws|
  {
    if ws != [] {
      var first := ws[0];
      assert first in ws && forall w | w in ws[1..] :: w in ws;
      var made := Satisfied(Current(events, first.event).groups, first, bare, stale);
      var events1 := events[first.event := Groups(made)];
      MergeSettles(events1, ws[1..], bare, stale);
      SatisfiedTwice(Current(events, first.event).groups, first, bare, stale);
      forall w | w in ws[1..] ensures w.event != first.event {
        var i :| 0 <= i < |ws[1..]| && ws[1..][i] == w;
        assert ws[i + 1] == w;
      }
      hide Satisfied;
      MergeTouchesOnlyItsEvents(events1, ws[1..], bare, stale, first.event);
    }
  }

  lemma {:induction false} SettledStays(events: map<string, Event>, ws: seq<Want>, bare: string -> bool, stale: string -> bool)
    requires forall w | w in ws :: Matches(w.entry, w.probe)
    requires forall w | w in ws :: Settled(events, w, bare, stale)
    ensures MergedEvents(events, ws, bare, stale) == Merged(events, [], None)
  {
    if ws != [] {
      hide Satisfied;
      var w := ws[0];
      assert w in ws && forall x | x in ws[1..] :: x in ws;
      assert events[w.event := events[w.event]] == events;
      SettledStays(events, ws[1..], bare, stale);
    }
  }

  // ----- merge_hooks

  class SettingsFile {
    var hooks: Settings

    constructor (h: Settings)
      ensures hooks == h
    {
      hooks := h;
    }

    /** One event of merge_hooks. */
    method Want(w: Want, bare: string -> bool, stale: string -> bool) returns (ok: bool, touched: bool)
      requires hooks.Events? && Matches(w.entry, w.probe)
      modifies this
      ensures hooks.Events?
      ensures var was := Current(old(hooks.events), w.event);
        && ok == was.Groups?
        && (!ok ==> hooks == old(hooks) && !touched)
        && (ok ==>
            var made := Satisfied(was.groups, w, bare, stale);
            hooks.events == old(hooks.events)[w.event := Groups(made)] && (touched <==> made != was.groups))
    {
      var was := Current(hooks.events, w.event);
      if was.NotAList? {
        return false, false;
      }
      var list := new HookList(was.groups);
      if w.exact {
        touched := list.UpsertCommand(w.probe, w.entry);
      } else if !Has(was.groups, w.probe) {
        list.groups := list.groups + [OneHandler(w.matcher, w.entry)];
        touched := true;
      } else {
        touched := list.UpgradeBare(w.probe, w.entry, bare, stale);
      }
      ok := true;
      hooks := Events(hooks.events[w.event := Groups(list.groups)]);
    }

    /** merge_hooks: the changed events, or None when some value is malformed. */
    method MergeHooks(exe: string, gate: bool, prompt: bool, bare: string -> bool, stale: string -> bool)
      returns (changed: Option<seq<string>>)
      modifies this
      ensures WellFormed(Wants(exe, gate, prompt))
      ensures hooks == MergedSettings(old(hooks), exe, gate, prompt, bare, stale).0
      ensures changed == MergedSettings(old(hooks), exe, gate, prompt, bare, stale).1
    {
      hide Wants, Satisfied, Matches;
      WantsAreWellFormed(exe, gate, prompt);
      if hooks.Absent? {
        hooks := Events(map[]);
      }
      if hooks.NotAnObject? {
        return None;
      }
      var ws := Wants(exe, gate, prompt);
      ghost var start := hooks.events;
      var done: seq<string> := [];
      for i := 0 to |ws|
        invariant hooks.Events?
        invariant MergedEvents(start, ws, bare, stale) == Then(done, MergedEvents(hooks.events, ws[i..], bare, stale))
      {
        hide *;
        MergeStep(hooks.events, ws, i, done, bare, stale);
        var ok, touched := Want(ws[i], bare, stale);
        if !ok {
          return None;
        }
        if touched {
          done := done + [ws[i].event];
        }
      }
      MergeEnd(hooks.events, ws, done, bare, stale);
      return Some(done);
    }
  }

  function Then(done: seq<string>, r: Merged): Merged {
    r.(changed := done + r.changed)
  }

  /** One turn of the loop over the wanted events. */
  lemma MergeStep(events: map<string, Event>, ws: seq<Want>, i: nat, done: seq<string>, bare: string -> bool, stale: string -> bool)
    requires WellFormed(ws) && i < |ws|
    ensures forall w | w in ws[i..] :: Matches(w.entry, w.probe)
    ensures forall w | w in ws[i + 1..] :: Matches(w.entry, w.probe)
    ensures Matches(ws[i].entry, ws[i].probe) && ws[i].entry.Hook? && ws[i].entry.command.Some?
    ensures var was := Current(events, ws[i].event);
      var r := Then(done, MergedEvents(events, ws[i..], bare, stale));
      if was.NotAList? then r == Merged(events, done, Some(ws[i].event))
      else
        var made := Satisfied(was.groups, ws[i], bare, stale);
        var done1 := if made == was.groups then done else done + [ws[i].event];
        r == Then(done1, MergedEvents(events[ws[i].event := Groups(made)], ws[i + 1..], bare, stale))
  {
    hide Satisfied, Matches;
    assert ws[i] in ws && ws[i..][1..] == ws[i + 1..];
    assert Matches(ws[i].entry, ws[i].probe);
    MatchShape(ws[i]);
    assert done + [] == done;
  }

  lemma MatchShape(w: Want)
    requires Matches(w.entry, w.probe)
    ensures w.entry.Hook? && w.entry.command.Some?
  {
  }

  lemma MergeEnd(events: map<string, Event>, ws: seq<Want>, done: seq<string>, bare: string -> bool, stale: string -> bool)
    requires forall w | w in ws :: Matches(w.entry, w.probe)
    ensures ws[|ws|..] == [] && Then(done, MergedEvents(events, ws[|ws|..], bare, stale)) == Merged(events, done, None)
  {
    assert done + [] == done;
  }

  function MergedSettings(s: Settings, exe: string, gate: bool, prompt: bool, bare: string -> bool, stale: string -> bool)
    : (Settings, Option<seq<string>>)
    requires WellFormed(Wants(exe, gate, prompt))
  {
    if s.NotAnObject? then (s, None)
    else
      var r := MergedEvents(if s.Absent? then map[] else s.events, Wants(exe, gate, prompt), bare, stale);
      (Events(r.events), if r.failed.Some? then None else Some(r.changed))
  }

  /** Merging again with the same arguments reports no change and changes nothing,
      whatever settings the first merge accepted. */
  lemma MergeTwice(s: Settings, exe: string, gate: bool, prompt: bool, bare: string -> bool, stale: string -> bool)
    requires WellFormed(Wants(exe, gate, prompt))
    requires MergedSettings(s, exe, gate, prompt, bare, stale).1.Some?
    ensures var t := MergedSettings(s, exe, gate, prompt, bare, stale).0;
      MergedSettings(t, exe, gate, prompt, bare, stale) == (t, Some([]))
  {
    var ws := Wants(exe, gate, prompt);
    var events := if s.Absent? then map[] else s.events;
    hide Wants;
    MergeSettles(events, ws, bare, stale);
    SettledStays(MergedEvents(events, ws, bare, stale).events, ws, bare, stale);
  }

  // ----- what an accepted merge installs

  /** Under the event some handler's command line contains `text`. */
  ghost predicate Runs(events: map<string, Event>, event: string, text: string) {
    && event in events && events[event].Groups?
    && exists g, h | g in events[event].groups && h in Handlers(g) :: Says(h, text)
  }

  function Handlers(g: Group): seq<Handler> {
    match g
    case Group(_, Some(hs), _) => hs
    case _ => []
  }

  ghost predicate Says(h: Handler, text: string) {
    h.Hook? && h.command.Some? && Occurs(h.command.value, text)
  }

  lemma SaysIsMatches(h: Handler, text: string)
    ensures Says(h, text) <==> Matches(h, text)
  {
    if h.Hook? && h.command.Some? { OccursIsContains(h.command.value, text); }
  }

  lemma RunsIsHas(events: map<string, Event>, event: string, text: string)
    ensures Runs(events, event, text) <==> event in events && events[event].Groups? && Has(events[event].groups, text)
  {
    forall h: Handler ensures Says(h, text) <==> Matches(h, text) { SaysIsMatches(h, text); }
    hide Says, Matches;
    assert forall g: Group :: Handlers(g) == Hooks(g);
    if event in events && events[event].Groups? && Has(events[event].groups, text) {
      var g :| g in events[event].groups && AnyMatch(Hooks(g), text);
      var h :| h in Hooks(g) && Matches(h, text);
      assert h in Handlers(g);
    }
    if Runs(events, event, text) {
      var g, h :| g in events[event].groups && h in Handlers(g) && Says(h, text);
      assert AnyMatch(Hooks(g), text);
    }
  }

  /** What becomes of one wanted event, whatever else is wanted. */
  lemma {:induction false} MergedAt(events: map<string, Event>, ws: seq<Want>, bare: string -> bool, stale: string -> bool, w: Want)
    requires WellFormed(ws) && w in ws && MergedEvents(events, ws, bare, stale).failed.None?
    ensures var r := MergedEvents(events, ws, bare, stale);
      && w.entry.Hook? && w.entry.command.Some? && Current(events, w.event).Groups? && w.event in r.events
      && r.events[w.event] == Groups(Satisfied(Current(events, w.event).groups, w, bare, stale))
      && (w.event in r.changed <==> Groups(Satisfied(Current(events, w.event).groups, w, bare, stale)) != Current(events, w.event))
    decreases |ws|
  {
    var first := ws[0];
    var made := Satisfied(Current(events, first.event).groups, first, bare, stale);
    var events1 := events[first.event := Groups(made)];
    MatchShape(w);
    RestIsWellFormed(ws);
    OthersUnreported(events1, ws[1..], bare, stale, first.event);
    hide Satisfied, Matches;
    if w == first {
      MergeTouchesOnlyItsEvents(events1, ws[1..], bare, stale, first.event);
    } else {
      assert w in ws[1..];
      MergedAt(events1, ws[1..], bare, stale, w);
    }
  }

  lemma RestIsWellFormed(ws: seq<Want>)
    requires WellFormed(ws) && ws != []
    ensures WellFormed(ws[1..]) && forall w | w in ws[1..] :: w.event != ws[0].event
  {
    forall w | w in ws[1..] ensures w.event != ws[0].event {
      var i :| 0 <= i < |ws[1..]| && ws[1..][i] == w;
      assert ws[i + 1] == w;
    }
  }

  /** An event that is not wanted is not reported. */
  lemma {:induction false} OthersUnreported(events: map<string, Event>, ws: seq<Want>, bare: string -> bool, stale: string -> bool, e: string)
    requires (forall w | w in ws :: Matches(w.entry, w.probe)) && forall w | w in ws :: w.event != e
    ensures e !in MergedEvents(events, ws, bare, stale).changed
    decreases |ws|
  {
    if ws != [] && Current(events, ws[0].event).Groups? {
      assert ws[0] in ws && forall w | w in ws[1..] :: w in ws;
      var made := Satisfied(Current(events, ws[0].event).groups, ws[0], bare, stale);
      hide Satisfied, Matches;
      OthersUnreported(events[ws[0].event := Groups(made)], ws[1..], bare, stale, e);
    }
  }

  lemma {:induction false} MatchingMeansHas(gs: seq<Group>, probe: string)
    requires Matching(HookMerge.Flat(gs), probe) != []
    ensures Has(gs, probe)
    decreases |gs|
  {
    hide Matches;
    if gs != [] {
      if AnyMatch(Hooks(gs[0]), probe) {
        assert gs[0] in gs;
      } else {
        NoneMatching(Hooks(gs[0]), HookMerge.Flat(gs[1..]), probe);
        MatchingMeansHas(gs[1..], probe);
        assert forall g | g in gs[1..] :: g in gs;
      }
    }
  }

  lemma {:induction false} NoneMatching(a: seq<Handler>, b: seq<Handler>, probe: string)
    requires !AnyMatch(a, probe)
    ensures Matching(a + b, probe) == Matching(b, probe)
    decreases |a|
  {
    hide Matches;
    if a == [] {
      assert a + b == b;
    } else {
      assert a[0] in a && forall h | h in a[1..] :: h in a;
      HeadTail(a, b);
      NoneMatching(a[1..], b, probe);
      assert [] + Matching(b, probe) == Matching(b, probe);
    }
  }

  lemma SatisfiedInstalls(gs: seq<Group>, w: Want, bare: string -> bool, stale: string -> bool)
    requires Matches(w.entry, w.probe)
    ensures Has(Satisfied(gs, w, bare, stale), w.probe)
    ensures !Has(gs, w.probe) ==> Satisfied(gs, w, bare, stale) == gs + [Group(if w.exact then None else w.matcher, Some([w.entry]), map[])]
  {
    var g := OneHandler(w.matcher, w.entry);
    assert w.entry in Hooks(g) && g in gs + [g];
    if w.exact {
      UpsertLeavesOne(gs, w.probe, w.entry);
      MatchingMeansHas(Upserted(gs, w.probe, w.entry), w.probe);
    } else if Has(gs, w.probe) {
      UpgradeKeepsMatches(gs, w.probe, w.entry, stale);
    }
  }

  function OldEvents(s: Settings): map<string, Event> {
    if s.Events? then s.events else map[]
  }

  /** The merge is accepted, and leaves the events `after`, the changed ones reported. */
  ghost predicate Merges(s: Settings, exe: string, gate: bool, prompt: bool, bare: string -> bool, stale: string -> bool,
                   after: map<string, Event>, changed: seq<string>)
  {
    WellFormed(Wants(exe, gate, prompt)) && MergedSettings(s, exe, gate, prompt, bare, stale) == (Events(after), Some(changed))
  }

  /** The events a merge is asked to see to, and what their handlers must run. */
  function Asked(gate: bool, prompt: bool): map<string, string> {
    map["Stop" := "bridge-render"]
      + (if prompt then map["UserPromptSubmit" := "hook-prompt"] else map[])
      + (if gate then map["PostToolUse" := "hook-post", "PreToolUse" := "hook-pre"] else map[])
  }

  lemma AskedIsWanted(exe: string, gate: bool, prompt: bool, e: string) returns (w: Want)
    requires e in Asked(gate, prompt)
    ensures w in Wants(exe, gate, prompt) && w.event == e && w.probe == Asked(gate, prompt)[e]
    ensures w.exact <==> e == "UserPromptSubmit"
    ensures w.matcher == MatcherOf(e) && w.entry == Hook(Some("command"), w.entry.command, TimeoutOf(e), map[])
    ensures w.entry.command.Some? && IsCommandLine(w.entry.command.value, exe, w.probe)
  {
    CmdIsCommandLine(exe, Asked(gate, prompt)[e]);
    hide IsCommandLine, Cmd;
    if e == "Stop" {
      w := StopWant(exe);
      assert Wants(exe, gate, prompt)[0] == w;
    } else if e == "UserPromptSubmit" {
      w := PromptWant(exe);
      assert Wants(exe, gate, prompt)[1] == w;
    } else {
      var g := GateWants(exe);
      w := if e == "PostToolUse" then g[0] else g[1];
      assert w in g;
    }
  }

  function MatcherOf(e: string): Option<string> {
    if e == "PostToolUse" then Some("WebFetch|WebSearch")
    else if e == "PreToolUse" then Some("Bash|Edit|Write|MultiEdit|NotebookEdit")
    else None
  }

  function TimeoutOf(e: string): Option<int> {
    if e == "UserPromptSubmit" then Some(5) else None
  }

  /** The executable in quotes and the subcommand; an executable that is already a quoted
      interpreter with a module stays as it is. */
  ghost predicate IsCommandLine(line: string, exe: string, sub: string) {
    if exe != "" && exe[0] == '\"' && Occurs(exe, " -m ")
    then line == exe + " " + sub
    else line == "\"" + exe + "\" " + sub
  }

  lemma CmdIsCommandLine(exe: string, sub: string)
    ensures IsCommandLine(Cmd(exe, sub), exe, sub)
  {
    OccursIsContains(exe, " -m ");
    if exe != "" { assert StartsWith(exe, "\"") <==> exe[0] == '\"' by { assert exe[0..1] == [exe[0]]; } }
  }

  /** Every event asked for ends with a handler that runs its subcommand. */
  lemma MergeInstalls(s: Settings, exe: string, gate: bool, prompt: bool, bare: string -> bool, stale: string -> bool,
                      after: map<string, Event>, changed: seq<string>)
    requires Merges(s, exe, gate, prompt, bare, stale, after, changed)
    ensures forall e | e in Asked(gate, prompt) :: Runs(after, e, Asked(gate, prompt)[e])
  {
    hide Runs, Satisfied, Matches, Asked, Wants, Has;
    forall e | e in Asked(gate, prompt) ensures Runs(after, e, Asked(gate, prompt)[e]) {
      var w := AskedIsWanted(exe, gate, prompt, e);
      MergedAt(OldEvents(s), Wants(exe, gate, prompt), bare, stale, w);
      SatisfiedInstalls(Current(OldEvents(s), e).groups, w, bare, stale);
      RunsIsHas(after, e, w.probe);
    }
  }

  /** Where no handler ran it before, the list is the old one and one group behind it, with
      the wanted matcher and the one wanted handler. */
  lemma MergeAppends(s: Settings, exe: string, gate: bool, prompt: bool, bare: string -> bool, stale: string -> bool,
                     after: map<string, Event>, changed: seq<string>, e: string)
    requires Merges(s, exe, gate, prompt, bare, stale, after, changed)
    requires e in Asked(gate, prompt) && !Runs(OldEvents(s), e, Asked(gate, prompt)[e])
    ensures var was := if e in OldEvents(s) then OldEvents(s)[e] else Groups([]);
      && was.Groups?
      && e in after
      && exists line | IsCommandLine(line, exe, Asked(gate, prompt)[e]) ::
          after[e] == Groups(was.groups + [Group(MatcherOf(e), Some([Hook(Some("command"), Some(line), TimeoutOf(e), map[])]), map[])])
  {
    hide Runs, Satisfied, Matches, Asked, Wants, Has, IsCommandLine;
    var w := AskedIsWanted(exe, gate, prompt, e);
    MergedAt(OldEvents(s), Wants(exe, gate, prompt), bare, stale, w);
    var gs := Current(OldEvents(s), e).groups;
    SatisfiedInstalls(gs, w, bare, stale);
    RunsIsHas(OldEvents(s), e, w.probe);
    NothingRunsIn([], w.probe);
  }

  lemma NothingRunsIn(gs: seq<Group>, probe: string)
    ensures gs == [] ==> !Has(gs, probe)
  {
  }

  /** An event is reported exactly when it was asked for and its list differs. */
  lemma MergeReports(s: Settings, exe: string, gate: bool, prompt: bool, bare: string -> bool, stale: string -> bool,
                     after: map<string, Event>, changed: seq<string>, e: string)
    requires Merges(s, exe, gate, prompt, bare, stale, after, changed)
    ensures e in changed <==>
      e in Asked(gate, prompt) && e in after && after[e] != (if e in OldEvents(s) then OldEvents(s)[e] else Groups([]))
    ensures e !in Asked(gate, prompt) ==> (e in after <==> e in OldEvents(s)) && (e in after ==> after[e] == OldEvents(s)[e])
  {
    hide Satisfied, Matches;
    var ws := Wants(exe, gate, prompt);
    if e in Asked(gate, prompt) {
      hide Asked, Wants;
      var w := AskedIsWanted(exe, gate, prompt, e);
      MergedAt(OldEvents(s), ws, bare, stale, w);
    } else {
      assert forall w | w in ws :: w.event in Asked(gate, prompt);
      hide Asked, Wants;
      OthersUnreported(OldEvents(s), ws, bare, stale, e);
      MergeTouchesOnlyItsEvents(OldEvents(s), ws, bare, stale, e);
    }
  }

  /** The handlers of `made` are those of `was`, each in its place; only a handler that runs
      `text` through a command that no longer works is replaced, and by `entry`. */
  ghost predicate Refreshed(was: seq<Group>, made: seq<Group>, text: string, entry: Handler, stale: string -> bool) {
    && |made| == |was|
    && forall i | 0 <= i < |was| ::
      && |Handlers(made[i])| == |Handlers(was[i])|
      && (was[i].Group? ==> made[i].Group? && made[i].matcher == was[i].matcher && made[i].extra == was[i].extra)
      && (was[i].ForeignGroup? ==> made[i] == was[i])
      && forall j | 0 <= j < |Handlers(was[i])| ::
        Handlers(made[i])[j] == var h := Handlers(was[i])[j]; if Says(h, text) && stale(h.command.value) then entry else h
  }

  lemma UpgradeRefreshes(gs: seq<Group>, w: Want, stale: string -> bool)
    ensures Refreshed(gs, Upgraded(gs, w.probe, w.entry, stale), w.probe, w.entry, stale)
  {
    forall h: Handler ensures Says(h, w.probe) <==> Matches(h, w.probe) { SaysIsMatches(h, w.probe); }
    hide Says, Matches;
  }

  /** Where a handler ran it before, Stop and the gate's events keep every handler in place,
      and replace the stale ones unless the new command line is bare itself. */
  lemma MergeRefreshes(s: Settings, exe: string, gate: bool, prompt: bool, bare: string -> bool, stale: string -> bool,
                       after: map<string, Event>, changed: seq<string>, e: string)
    requires Merges(s, exe, gate, prompt, bare, stale, after, changed) && e != "UserPromptSubmit"
    requires e in Asked(gate, prompt) && Runs(OldEvents(s), e, Asked(gate, prompt)[e])
    ensures e in OldEvents(s) && OldEvents(s)[e].Groups? && e in after && after[e].Groups?
    ensures exists line | IsCommandLine(line, exe, Asked(gate, prompt)[e]) ::
      if bare(line) then after[e] == OldEvents(s)[e]
      else
        Refreshed(OldEvents(s)[e].groups, after[e].groups, Asked(gate, prompt)[e],
                  Hook(Some("command"), Some(line), TimeoutOf(e), map[]), stale)
  {
    hide Runs, Matches, Asked, Wants, Has, IsCommandLine, Refreshed;
    var w := AskedIsWanted(exe, gate, prompt, e);
    MergedAt(OldEvents(s), Wants(exe, gate, prompt), bare, stale, w);
    RunsIsHas(OldEvents(s), e, w.probe);
    UpgradeRefreshes(OldEvents(s)[e].groups, w, stale);
    assert IsCommandLine(w.entry.command.value, exe, Asked(gate, prompt)[e]);
  }

  /** The prompt's event keeps every other handler in its place, and ends with exactly one
      that runs the subcommand: the wanted one, where the first was or behind the rest. */
  lemma MergeDeduplicates(s: Settings, exe: string, gate: bool, bare: string -> bool, stale: string -> bool,
                          after: map<string, Event>, changed: seq<string>)
    requires Merges(s, exe, gate, true, bare, stale, after, changed)
    ensures var e := "UserPromptSubmit";
      && e in after && after[e].Groups? && Current(OldEvents(s), e).Groups?
      && exists line | IsCommandLine(line, exe, "hook-prompt") ::
        var entry := Hook(Some("command"), Some(line), Some(5), map[]);
        && Matching(HookMerge.Flat(after[e].groups), "hook-prompt") == [entry]
        && Others(HookMerge.Flat(after[e].groups), "hook-prompt") == Others(HookMerge.Flat(Current(OldEvents(s), e).groups), "hook-prompt")
  {
    var e := "UserPromptSubmit";
    assert e in Asked(gate, true) && Asked(gate, true)[e] == "hook-prompt" by { assert |"PostToolUse"| == 11 && |"PreToolUse"| == 10 && |e| == 16; }
    var w := AskedIsWanted(exe, gate, true, e);
    hide Matches, Asked, Wants, IsCommandLine;
    MergedAt(OldEvents(s), Wants(exe, gate, true), bare, stale, w);
    UpsertLeavesOne(Current(OldEvents(s), e).groups, w.probe, w.entry);
    assert IsCommandLine(w.entry.command.value, exe, "hook-prompt");
  }
}
