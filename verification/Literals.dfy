/** import_literals (memsom/bridge/bridge_import.py): the lines of the index that have no
    file, mirrored as endorsed nodes keyed by a hash of the line. */
module Literals {
  import opened Base
  import opened Frontmatter
  import opened Dag
  import opened DagRuns
  import opened Filing
  import opened Importer
  import Reimport

  const LITERAL_GONE := Reason.Text("literal removed from index")

  /** One index line without a file, as the parser of the index returns it. */
  datatype Line = Line(section: string, text: string)

  function Content(l: Line): Note {
    Note(true, [Pair(Top, "literal", "true"), Pair(Top, "section", l.section)], l.text + "\n")
  }

  /** The reference a line is stored under; `digest` is the truncated hash of its text. */
  function Ref(digest: string -> string, text: string): string {
    "memory:literal:" + digest(text)
  }

  predicate IsLiteral(ref: Option<string>) {
    RefersTo(ref, "memory:literal:")
  }

  /** The wanted contents, and their references in the order of first occurrence: a text
      that occurs twice keeps its place and takes its last section. */
  datatype Wanted = Wanted(order: seq<string>, notes: map<string, Note>)

  function Want(lines: seq<Line>, digest: string -> string): Wanted {
    if lines == [] then Wanted([], map[])
    else
      var n := |lines| - 1;
      Added(Want(lines[..n], digest), Ref(digest, lines[n].text), Content(lines[n]))
  }

  ghost predicate Distinct(order: seq<string>) {
    forall i, j | 0 <= i < j < |order| :: order[i] != order[j]
  }

  ghost predicate Proper(w: Wanted) {
    && Distinct(w.order) && (forall ref :: ref in w.order <==> ref in w.notes)
    && (forall ref | ref in w.order :: IsLiteral(Some(ref)))
  }

  lemma {:induction false} WantIsProper(lines: seq<Line>, digest: string -> string)
    ensures Proper(Want(lines, digest))
  {
    if lines != [] {
      var n := |lines| - 1;
      WantIsProper(lines[..n], digest);
      RefIsLiteral(lines[n].text, digest);
      var w := Want(lines[..n], digest);
      hide *;
      WantStep(lines, digest);
      AddOne(w, Ref(digest, lines[n].text), Content(lines[n]));
    }
  }

  lemma RefIsLiteral(text: string, digest: string -> string)
    ensures IsLiteral(Some(Ref(digest, text)))
  {
    Reimport.LowerAppend("memory:literal:", digest(text));
    assert Lower("memory:literal:") == "memory:literal:";
  }

  lemma WantStep(lines: seq<Line>, digest: string -> string)
    requires lines != []
    ensures var n := |lines| - 1;
      Want(lines, digest) == Added(Want(lines[..n], digest), Ref(digest, lines[n].text), Content(lines[n]))
  {
  }

  function Added(w: Wanted, ref: string, note: Note): Wanted {
    Wanted(if ref in w.notes then w.order else w.order + [ref], w.notes[ref := note])
  }

  lemma AddOne(w: Wanted, ref: string, note: Note)
    requires Proper(w) && IsLiteral(Some(ref))
    ensures Proper(Added(w, ref, note))
  {
    hide IsLiteral;
    assert forall i | 0 <= i < |w.order| :: w.order[i] in w.order;
  }

  // ----- the live nodes of a reference

  function LiveRef(nodes: map<nat, Row>, ref: string): set<nat> {
    set id | id in nodes && nodes[id].sourceRef == Some(ref) && !nodes[id].tombstoned
  }

  ghost predicate IsLast(nodes: map<nat, Row>, ref: string, id: nat) {
    id in LiveRef(nodes, ref) && forall x | x in LiveRef(nodes, ref) :: x <= id
  }

  /** The node a reference stands for: the table is read in id order and a later row wins. */
  ghost function LiveId(nodes: map<nat, Row>, ref: string): (r: Option<nat>)
    ensures r.None? <==> LiveRef(nodes, ref) == {}
    ensures r.Some? ==> IsLast(nodes, ref, r.value)
  {
    if LiveRef(nodes, ref) == {} then None
    else
      assert exists m :: IsLast(nodes, ref, m) by {
        var m := HasNewest(LiveRef(nodes, ref));
        assert IsLast(nodes, ref, m);
      }
      var m :| IsLast(nodes, ref, m);
      Some(m)
  }

  lemma LastIsUnique(nodes: map<nat, Row>, ref: string, id: nat)
    requires IsLast(nodes, ref, id)
    ensures LiveId(nodes, ref) == Some(id)
  {
  }

  ghost predicate SameRef(a: map<nat, Row>, b: map<nat, Row>, ref: string) {
    LiveRef(a, ref) == LiveRef(b, ref) && forall id | id in LiveRef(a, ref) :: a[id] == b[id]
  }

  lemma SameLiveId(a: map<nat, Row>, b: map<nat, Row>, ref: string)
    requires SameRef(a, b, ref)
    ensures LiveId(a, ref) == LiveId(b, ref)
  {
    var x := LiveId(a, ref);
    if x.Some? {
      assert IsLast(b, ref, x.value);
      LastIsUnique(b, ref, x.value);
    }
  }

  /** At most one live node per literal reference. */
  ghost predicate OneLive(nodes: map<nat, Row>) {
    forall ref | IsLiteral(Some(ref)) :: AtMostOne(LiveRef(nodes, ref))
  }

  ghost predicate AtMostOne(s: set<nat>) {
    forall a, b | a in s && b in s :: a == b
  }

  // ----- the effect of one line, of all lines, of the removals

  datatype LineVerdict = Unchanged | New | Moved

  ghost function VerdictOn(nodes: map<nat, Row>, ref: string, note: Note): LineVerdict {
    var id := LiveId(nodes, ref);
    if id.None? then New else if nodes[id.value].content == note then Unchanged else Moved
  }

  function LiteralRow(ref: string, note: Note, hash: Note -> int, now: int): Row {
    NewRow(note, Endorsed, Rank(Endorsed), Some(ref), now).(contentHash := Some(hash(note)))
  }

  ghost function LineStep(s: State, ref: string, note: Note, hash: Note -> int, now: int): State {
    match VerdictOn(s.nodes, ref, note)
    case Unchanged => s
    case New => Inserted(s, LiteralRow(ref, note, hash, now))
    case Moved => Inserted(Superseded(s, LiveId(s.nodes, ref).value, now), LiteralRow(ref, note, hash, now))
  }

  ghost function AfterLines(s: State, order: seq<string>, notes: map<string, Note>, hash: Note -> int, now: int): State
    requires forall ref | ref in order :: ref in notes
  {
    if order == [] then s
    else
      var n := |order| - 1;
      LineStep(AfterLines(s, order[..n], notes, hash, now), order[n], notes[order[n]], hash, now)
  }

  ghost predicate IsRemoved(nodes: map<nat, Row>, notes: map<string, Note>, id: nat) {
    && id in nodes && IsLiteral(nodes[id].sourceRef) && nodes[id].sourceRef.value !in notes
    && LiveId(nodes, nodes[id].sourceRef.value) == Some(id)
  }

  /** The rows `gone` of the store before the run are tombstoned. */
  ghost function AfterRemoval(t: State, gone: set<nat>, now: int): State {
    t.(nodes := map id | id in t.nodes :: if id in gone then Kill(t.nodes[id], now, LITERAL_GONE) else t.nodes[id])
  }

  ghost function Removed(nodes: map<nat, Row>, notes: map<string, Note>): set<nat> {
    set id | id in nodes && IsRemoved(nodes, notes, id)
  }

  ghost function Mirrored(s: State, w: Wanted, hash: Note -> int, now: int): State
    requires Proper(w)
  {
    AfterRemoval(AfterLines(s, w.order, w.notes, hash, now), Removed(s.nodes, w.notes), now)
  }

  datatype LineStats = LineStats(total: nat, created: nat, updated: nat, skipped: nat, tombstoned: nat)

  function Tallied(stats: LineStats, v: LineVerdict): LineStats {
    match v
    case Unchanged => stats.(skipped := stats.skipped + 1)
    case New => stats.(created := stats.created + 1)
    case Moved => stats.(updated := stats.updated + 1)
  }

  /** The counters as the store stands before the run. */
  ghost function Tally(nodes: map<nat, Row>, order: seq<string>, notes: map<string, Note>, start: LineStats): LineStats
    requires forall ref | ref in order :: ref in notes
  {
    if order == [] then start
    else
      var n := |order| - 1;
      Tallied(Tally(nodes, order[..n], notes, start), VerdictOn(nodes, order[n], notes[order[n]]))
  }

  ghost function ExpectedStats(nodes: map<nat, Row>, w: Wanted): LineStats
    requires Proper(w)
  {
    Tally(nodes, w.order, w.notes, LineStats(|w.notes|, 0, 0, 0, 0)).(tombstoned := |Removed(nodes, w.notes)|)
  }

  // ----- lines do not interfere

  lemma LineStepFrame(s: State, ref: string, note: Note, hash: Note -> int, now: int, other: string)
    requires Counted(s)
    ensures Counted(LineStep(s, ref, note, hash, now))
    ensures other != ref ==> SameRef(LineStep(s, ref, note, hash, now).nodes, s.nodes, other)
  {
    var t := LineStep(s, ref, note, hash, now);
    if other != ref {
      forall x ensures x in LiveRef(t.nodes, other) <==> x in LiveRef(s.nodes, other) { }
    }
  }

  /** A line ends with its content in the last live node, which is the one it had or a
      new one; and with no other, if there was at most one. */
  lemma LineStepHere(s: State, ref: string, note: Note, hash: Note -> int, now: int)
    requires Counted(s)
    ensures var t := LineStep(s, ref, note, hash, now).nodes;
      var last := LiveId(t, ref);
      && last.Some? && t[last.value].content == note && (last == LiveId(s.nodes, ref) || last == Some(s.nextId))
      && (AtMostOne(LiveRef(s.nodes, ref)) ==> LiveRef(t, ref) == {last.value})
  {
    var t := LineStep(s, ref, note, hash, now);
    var id := if VerdictOn(s.nodes, ref, note) == Unchanged then LiveId(s.nodes, ref).value else s.nextId;
    var was := LiveId(s.nodes, ref);
    assert was.Some? ==> was.value in LiveRef(s.nodes, ref);
    forall x | x in LiveRef(t.nodes, ref) && x != s.nextId ensures x in LiveRef(s.nodes, ref) { }
    assert IsLast(t.nodes, ref, id);
    LastIsUnique(t.nodes, ref, id);
    if AtMostOne(LiveRef(s.nodes, ref)) {
      forall x ensures x in LiveRef(t.nodes, ref) <==> x == id { }
    }
  }

  lemma {:induction false} AfterLinesFrame(s: State, order: seq<string>, notes: map<string, Note>, hash: Note -> int, now: int, other: string)
    requires Counted(s) && forall ref | ref in order :: ref in notes
    ensures Counted(AfterLines(s, order, notes, hash, now))
    ensures other !in order ==> SameRef(AfterLines(s, order, notes, hash, now).nodes, s.nodes, other)
  {
    if order != [] {
      var n := |order| - 1;
      AfterLinesFrame(s, order[..n], notes, hash, now, other);
      LineStepFrame(AfterLines(s, order[..n], notes, hash, now), order[n], notes[order[n]], hash, now, other);
      hide LineStep, LiveRef;
      assert order[n] in order;
    }
  }

  lemma LineIsNew(order: seq<string>, i: nat)
    requires Distinct(order) && i < |order|
    ensures order[i] !in order[..i]
  {
  }

  lemma {:induction false} AfterLinesHere(s: State, order: seq<string>, notes: map<string, Note>, hash: Note -> int, now: int, ref: string)
    requires Counted(s) && Distinct(order) && (forall r | r in order :: r in notes)
    requires ref in order
    ensures var t := AfterLines(s, order, notes, hash, now).nodes;
      var last := LiveId(t, ref);
      && last.Some? && t[last.value].content == notes[ref] && (last == LiveId(s.nodes, ref) || last.value !in s.nodes)
      && (AtMostOne(LiveRef(s.nodes, ref)) ==> LiveRef(t, ref) == {last.value})
  {
    var n := |order| - 1;
    var before := AfterLines(s, order[..n], notes, hash, now);
    hide LineStep, LiveRef, LiveId;
    AfterLinesFrame(s, order[..n], notes, hash, now, ref);
    if order[n] == ref {
      LineIsNew(order, n);
      SameLiveId(before.nodes, s.nodes, ref);
      LineStepHere(before, ref, notes[ref], hash, now);
      forall id | id in s.nodes ensures id in before.nodes { AfterLinesRow(s, order[..n], notes, hash, now, id); }
    } else {
      AfterLinesHere(s, order[..n], notes, hash, now, ref);
      LineStepFrame(before, order[n], notes[order[n]], hash, now, ref);
      SameLiveId(LineStep(before, order[n], notes[order[n]], hash, now).nodes, before.nodes, ref);
    }
  }

  /** Rows of other references are left as they are, and no row goes away. */
  lemma {:induction false} AfterLinesRow(s: State, order: seq<string>, notes: map<string, Note>, hash: Note -> int, now: int, id: nat)
    requires Counted(s) && forall ref | ref in order :: ref in notes
    requires id in s.nodes
    ensures var t := AfterLines(s, order, notes, hash, now).nodes;
      && id in t && t[id].sourceRef == s.nodes[id].sourceRef
      && (s.nodes[id].sourceRef.None? || s.nodes[id].sourceRef.value !in order ==> t[id] == s.nodes[id])
  {
    if order != [] {
      var n := |order| - 1;
      AfterLinesRow(s, order[..n], notes, hash, now, id);
      AfterLinesFrame(s, order[..n], notes, hash, now, "");
      assert order[n] in order;
      LineStepRow(AfterLines(s, order[..n], notes, hash, now), order[n], notes[order[n]], hash, now, id);
      hide LineStep;
    }
  }

  lemma LineStepRow(s: State, ref: string, note: Note, hash: Note -> int, now: int, id: nat)
    requires Counted(s) && id in s.nodes
    ensures var t := LineStep(s, ref, note, hash, now).nodes;
      && id in t && t[id].sourceRef == s.nodes[id].sourceRef
      && (s.nodes[id].sourceRef != Some(ref) ==> t[id] == s.nodes[id])
  {
  }

  // ----- the program

  method LiveLiterals(nodes: map<nat, Row>) returns (existing: map<string, nat>)
    ensures forall ref :: ref in existing <==> IsLiteral(Some(ref)) && LiveRef(nodes, ref) != {}
    ensures forall ref | ref in existing :: LiveId(nodes, ref) == Some(existing[ref])
  {
    existing := map[];
    var left := nodes.Keys;
    while left != {}
      invariant left <= nodes.Keys
      invariant forall ref :: ref in existing <==> IsLiteral(Some(ref)) && LiveRef(nodes, ref) - left != {}
      invariant forall ref | ref in existing ::
        existing[ref] in LiveRef(nodes, ref) && forall x | x in LiveRef(nodes, ref) - left :: x <= existing[ref]
    {
      var id :| id in left;
      var r := nodes[id];
      StepLive(nodes, left, id);
      hide IsLiteral, LiveRef;
      if !r.tombstoned && IsLiteral(r.sourceRef) && (r.sourceRef.value !in existing || existing[r.sourceRef.value] < id) {
        existing := existing[r.sourceRef.value := id];
      }
      left := left - {id};
    }
    forall ref | ref in existing ensures LiveId(nodes, ref) == Some(existing[ref]) {
      assert LiveRef(nodes, ref) - left == LiveRef(nodes, ref);
      LastIsUnique(nodes, ref, existing[ref]);
    }
  }

  predicate IsOf(r: Row, ref: string) {
    r.sourceRef == Some(ref) && !r.tombstoned
  }

  lemma StepLive(nodes: map<nat, Row>, left: set<nat>, id: nat)
    requires id in left && id in nodes
    ensures forall ref | IsOf(nodes[id], ref) :: LiveRef(nodes, ref) - (left - {id}) == (LiveRef(nodes, ref) - left) + {id}
    ensures forall ref | !IsOf(nodes[id], ref) :: LiveRef(nodes, ref) - (left - {id}) == LiveRef(nodes, ref) - left
    ensures IsLiteral(nodes[id].sourceRef) ==> nodes[id].sourceRef.Some?
    ensures forall ref | IsOf(nodes[id], ref) :: id in LiveRef(nodes, ref)
  {
  }

  /** One turn of the loop over the wanted lines. */
  method ImportLine(store: Store, ref: string, note: Note, found: Option<nat>, hash: Note -> int, now: int, dryRun: bool)
    returns (v: LineVerdict)
    requires found == LiveId(store.nodes, ref)
    modifies store
    ensures v == VerdictOn(old(store.nodes), ref, note)
    ensures store.Snapshot() == if dryRun then old(store.Snapshot()) else LineStep(old(store.Snapshot()), ref, note, hash, now)
  {
    if found.Some? && store.nodes[found.value].content == note {
      return Unchanged;
    }
    v := if found.Some? then Moved else New;
    if !dryRun {
      if found.Some? {
        store.nodes := store.nodes[found.value := Kill(store.nodes[found.value], now, SUPERSEDED)];
      }
      store.nodes := store.nodes[store.nextId := LiteralRow(ref, note, hash, now)];
      store.nextId := store.nextId + 1;
    }
  }

  /** import_literals: a dry run counts what an applied run counts and writes nothing. An
      index without such lines removes every literal; without an index nothing is looked at. */
  method ImportLiterals(store: Store, index: Option<seq<Line>>, digest: string -> string, hash: Note -> int, now: int, dryRun: bool)
    returns (stats: LineStats)
    requires Counted(store.Snapshot())
    modifies store
    ensures index.None? ==> store.Snapshot() == old(store.Snapshot()) && stats == LineStats(0, 0, 0, 0, 0)
    ensures index.Some? ==>
      var w := Want(index.value, digest);
      && Proper(w) && stats == ExpectedStats(old(store.nodes), w)
      && store.Snapshot() == if dryRun then old(store.Snapshot()) else Mirrored(old(store.Snapshot()), w, hash, now)
  {
    if index.None? {
      return LineStats(0, 0, 0, 0, 0);
    }
    hide *;
    WantIsProper(index.value, digest);
    stats := ImportWanted(store, Want(index.value, digest), hash, now, dryRun);
  }

  /** The run over the lines of an index, and the removal of what has none. */
  method ImportWanted(store: Store, w: Wanted, hash: Note -> int, now: int, dryRun: bool) returns (stats: LineStats)
    requires Counted(store.Snapshot()) && Proper(w)
    modifies store
    ensures stats == ExpectedStats(old(store.nodes), w)
    ensures store.Snapshot() == if dryRun then old(store.Snapshot()) else Mirrored(old(store.Snapshot()), w, hash, now)
  {
    ghost var s := store.Snapshot();
    var existing := LiveLiterals(store.nodes);
    stats := LineStats(|w.notes|, 0, 0, 0, 0);
    for i := 0 to |w.order|
      invariant store.Snapshot() == if dryRun then s else AfterLines(s, w.order[..i], w.notes, hash, now)
      invariant stats == Tally(s.nodes, w.order[..i], w.notes, LineStats(|w.notes|, 0, 0, 0, 0))
    {
      hide *;
      var ref := w.order[i];
      JudgedAlike(s, w, i, hash, now);
      var v := ImportLine(store, ref, w.notes[ref], if ref in existing then Some(existing[ref]) else None, hash, now, dryRun);
      stats := Tallied(stats, v);
    }
    assert w.order[..|w.order|] == w.order;
    var gone: set<nat> := set ref | ref in existing && ref !in w.notes :: existing[ref];
    GoneAre(s.nodes, w, existing, gone);
    TallyStarts(s.nodes, w.order, w.notes, LineStats(|w.notes|, 0, 0, 0, 0));
    stats := stats.(tombstoned := |gone|);
    if !dryRun {
      store.nodes := map id | id in store.nodes ::
        if id in gone then Kill(store.nodes[id], now, LITERAL_GONE) else store.nodes[id];
    }
  }

  lemma {:induction false} TallyStarts(nodes: map<nat, Row>, order: seq<string>, notes: map<string, Note>, start: LineStats)
    requires forall ref | ref in order :: ref in notes
    ensures Tally(nodes, order, notes, start).total == start.total && Tally(nodes, order, notes, start).tombstoned == start.tombstoned
  {
    if order != [] { TallyStarts(nodes, order[..|order| - 1], notes, start); }
  }

  /** Wherever a line stands in the order, it is judged as the store was before the run. */
  lemma JudgedAlike(s: State, w: Wanted, i: nat, hash: Note -> int, now: int)
    requires Counted(s) && Proper(w) && i < |w.order|
    ensures w.order[i] in w.notes && IsLiteral(Some(w.order[i]))
    ensures forall ref | ref in w.order[..i] :: ref in w.notes
    ensures forall ref | ref in w.order[..i + 1] :: ref in w.notes
    ensures w.order[..i + 1][..i] == w.order[..i] && w.order[..i + 1] != []
    ensures var ref := w.order[i];
      var t := AfterLines(s, w.order[..i], w.notes, hash, now);
      && LiveId(t.nodes, ref) == LiveId(s.nodes, ref)
      && (LiveId(s.nodes, ref).None? <==> LiveRef(s.nodes, ref) == {})
      && VerdictOn(t.nodes, ref, w.notes[ref]) == VerdictOn(s.nodes, ref, w.notes[ref])
      && AfterLines(s, w.order[..i + 1], w.notes, hash, now) == LineStep(t, ref, w.notes[ref], hash, now)
      && forall start :: Tally(s.nodes, w.order[..i + 1], w.notes, start) ==
          Tallied(Tally(s.nodes, w.order[..i], w.notes, start), VerdictOn(s.nodes, ref, w.notes[ref]))
  {
    var ref := w.order[i];
    assert ref in w.order;
    LineIsNew(w.order, i);
    var t := AfterLines(s, w.order[..i], w.notes, hash, now);
    AfterLinesFrame(s, w.order[..i], w.notes, hash, now, ref);
    SameLiveId(t.nodes, s.nodes, ref);
    hide LineStep, Tallied;
    assert w.order[..i + 1][..i] == w.order[..i] && w.order[..i + 1][i] == ref;
  }

  lemma GoneAre(nodes: map<nat, Row>, w: Wanted, existing: map<string, nat>, gone: set<nat>)
    requires forall ref :: ref in existing <==> IsLiteral(Some(ref)) && LiveRef(nodes, ref) != {}
    requires forall ref | ref in existing :: LiveId(nodes, ref) == Some(existing[ref])
    requires gone == set ref | ref in existing && ref !in w.notes :: existing[ref]
    ensures gone == Removed(nodes, w.notes)
  {
    hide IsLiteral, LiveId;
    forall id ensures id in gone <==> id in Removed(nodes, w.notes) {
      if id in gone {
        var ref :| ref in existing && ref !in w.notes && existing[ref] == id;
        assert IsLast(nodes, ref, id);
      }
      if id in Removed(nodes, w.notes) { LiteralHasRef(nodes[id]); }
    }
  }

  lemma LiteralHasRef(r: Row)
    ensures IsLiteral(r.sourceRef) ==> r.sourceRef.Some?
  {
  }

  // ----- the results

  lemma RemovalFrame(s: State, t: State, w: Wanted, now: int, ref: string)
    requires forall id | id in s.nodes :: id in t.nodes && t.nodes[id].sourceRef == s.nodes[id].sourceRef
    requires ref in w.notes || !IsLiteral(Some(ref))
    ensures SameRef(AfterRemoval(t, Removed(s.nodes, w.notes), now).nodes, t.nodes, ref)
  {
    hide IsLiteral, LiveId;
    var u := AfterRemoval(t, Removed(s.nodes, w.notes), now);
    forall id ensures id in LiveRef(u.nodes, ref) <==> id in LiveRef(t.nodes, ref) { }
  }

  /** The reference has one live node, of the line's content, or none if no line has it. */
  ghost predicate Mirrors(nodes: map<nat, Row>, notes: map<string, Note>, ref: string) {
    if ref in notes then
      LiveId(nodes, ref).Some? && LiveRef(nodes, ref) == {LiveId(nodes, ref).value} && nodes[LiveId(nodes, ref).value].content == notes[ref]
    else LiveRef(nodes, ref) == {}
  }

  /** An import leaves exactly one node for every wanted line and none for any other
      literal reference, if and only if there was at most one to begin with: of several it
      only ever replaces the last. */
  lemma OneNodePerLineIff(s: State, w: Wanted, hash: Note -> int, now: int, ref: string)
    requires Counted(s) && Proper(w) && IsLiteral(Some(ref))
    ensures Mirrors(Mirrored(s, w, hash, now).nodes, w.notes, ref) <==> AtMostOne(LiveRef(s.nodes, ref))
  {
    hide *;
    if AtMostOne(LiveRef(s.nodes, ref)) {
      OneNodePerLine(s, w, hash, now, ref);
    } else {
      DuplicatesStay(s, w, hash, now, ref);
    }
  }

  lemma OneNodePerLine(s: State, w: Wanted, hash: Note -> int, now: int, ref: string)
    requires Counted(s) && Proper(w) && IsLiteral(Some(ref)) && AtMostOne(LiveRef(s.nodes, ref))
    ensures Mirrors(Mirrored(s, w, hash, now).nodes, w.notes, ref)
  {
    var t := AfterLines(s, w.order, w.notes, hash, now);
    var u := Mirrored(s, w, hash, now);
    hide IsLiteral, AfterLines;
    SameRefs(s, w, hash, now);
    if ref in w.notes {
      AfterLinesHere(s, w.order, w.notes, hash, now, ref);
      RemovalFrame(s, t, w, now, ref);
      SameLiveId(u.nodes, t.nodes, ref);
    } else {
      AfterLinesFrame(s, w.order, w.notes, hash, now, ref);
      forall id ensures id !in LiveRef(u.nodes, ref) {
        if id in LiveRef(t.nodes, ref) {
          assert id in LiveRef(s.nodes, ref) && IsLast(s.nodes, ref, id);
          LastIsUnique(s.nodes, ref, id);
        }
      }
    }
  }

  lemma SameRefs(s: State, w: Wanted, hash: Note -> int, now: int)
    requires Counted(s) && Proper(w)
    ensures forall id | id in s.nodes ::
      var t := AfterLines(s, w.order, w.notes, hash, now).nodes;
      id in t && t[id].sourceRef == s.nodes[id].sourceRef
  {
    hide AfterLines;
    forall id | id in s.nodes
      ensures var t := AfterLines(s, w.order, w.notes, hash, now).nodes;
        id in t && t[id].sourceRef == s.nodes[id].sourceRef
    {
      AfterLinesRow(s, w.order, w.notes, hash, now, id);
    }
  }

  /** Of several live nodes all but the last stay alive, and a wanted line adds its own. */
  lemma DuplicatesStay(s: State, w: Wanted, hash: Note -> int, now: int, ref: string)
    requires Counted(s) && Proper(w) && IsLiteral(Some(ref)) && !AtMostOne(LiveRef(s.nodes, ref))
    ensures !Mirrors(Mirrored(s, w, hash, now).nodes, w.notes, ref)
  {
    var u := Mirrored(s, w, hash, now);
    var t := AfterLines(s, w.order, w.notes, hash, now);
    var a :| a in LiveRef(s.nodes, ref) && LiveId(s.nodes, ref) != Some(a);
    LiteralRowFate(s, w, hash, now, a);
    SameRefs(s, w, hash, now);
    hide Mirrored, AfterLines, IsLiteral;
    assert a in LiveRef(u.nodes, ref);
    if ref in w.notes {
      AfterLinesHere(s, w.order, w.notes, hash, now, ref);
      KeptByRemoval(s, w, hash, now, ref);
    }
  }

  lemma KeptByRemoval(s: State, w: Wanted, hash: Note -> int, now: int, ref: string)
    requires Counted(s) && Proper(w) && ref in w.notes
    ensures LiveId(Mirrored(s, w, hash, now).nodes, ref) == LiveId(AfterLines(s, w.order, w.notes, hash, now).nodes, ref)
  {
    var t := AfterLines(s, w.order, w.notes, hash, now);
    SameRefs(s, w, hash, now);
    RemovalFrame(s, t, w, now, ref);
    hide AfterLines, LiveId;
    SameLiveId(Mirrored(s, w, hash, now).nodes, t.nodes, ref);
  }

  lemma ImportKeepsOneLive(s: State, w: Wanted, hash: Note -> int, now: int)
    requires Counted(s) && Proper(w) && OneLive(s.nodes)
    ensures OneLive(Mirrored(s, w, hash, now).nodes)
  {
    forall ref | IsLiteral(Some(ref)) ensures AtMostOne(LiveRef(Mirrored(s, w, hash, now).nodes, ref)) {
      OneNodePerLine(s, w, hash, now, ref);
    }
  }

  /** The row is the node of a literal reference that no line asks for any more, or asks
      for with another content. */
  ghost predicate Loses(nodes: map<nat, Row>, notes: map<string, Note>, id: nat) {
    && id in nodes && IsLiteral(nodes[id].sourceRef) && LiveId(nodes, nodes[id].sourceRef.value) == Some(id)
    && (nodes[id].sourceRef.value in notes ==> nodes[id].content != notes[nodes[id].sourceRef.value])
  }

  ghost function LossReason(r: Row, notes: map<string, Note>): Reason {
    if r.sourceRef.Some? && r.sourceRef.value in notes then SUPERSEDED else LITERAL_GONE
  }

  /** What becomes of an old row while the lines of `order` are imported. */
  lemma {:induction false} AfterLinesFate(s: State, order: seq<string>, notes: map<string, Note>, hash: Note -> int, now: int, id: nat)
    requires Counted(s) && Distinct(order) && forall r | r in order :: r in notes && IsLiteral(Some(r))
    requires id in s.nodes && s.nodes[id].sourceRef.Some? && s.nodes[id].sourceRef.value in order
    ensures var t := AfterLines(s, order, notes, hash, now).nodes;
      id in t && t[id] == if Loses(s.nodes, notes, id) then Kill(s.nodes[id], now, SUPERSEDED) else s.nodes[id]
  {
    var ref := s.nodes[id].sourceRef.value;
    var n := |order| - 1;
    var before := AfterLines(s, order[..n], notes, hash, now);
    AfterLinesFrame(s, order[..n], notes, hash, now, ref);
    AfterLinesRow(s, order[..n], notes, hash, now, id);
    if order[n] == ref {
      LineIsNew(order, n);
      SameLiveId(before.nodes, s.nodes, ref);
      hide LineStep, LiveRef, LiveId, AfterLines, IsLiteral;
      AfterLinesLast(s, order, notes, hash, now);
      FateHere(before, ref, notes[ref], hash, now, id);
    } else {
      hide LineStep, LiveRef, LiveId, Loses;
      AfterLinesFate(s, order[..n], notes, hash, now, id);
      LineStepRow(before, order[n], notes[order[n]], hash, now, id);
    }
  }

  lemma AfterLinesLast(s: State, order: seq<string>, notes: map<string, Note>, hash: Note -> int, now: int)
    requires order != [] && forall r | r in order :: r in notes
    ensures var n := |order| - 1;
      AfterLines(s, order, notes, hash, now) ==
        LineStep(AfterLines(s, order[..n], notes, hash, now), order[n], notes[order[n]], hash, now)
  {
  }

  lemma FateHere(s: State, ref: string, note: Note, hash: Note -> int, now: int, id: nat)
    requires Counted(s) && id in s.nodes && s.nodes[id].sourceRef == Some(ref)
    ensures var t := LineStep(s, ref, note, hash, now).nodes;
      && id in t
      && t[id] == if LiveId(s.nodes, ref) == Some(id) && s.nodes[id].content != note then Kill(s.nodes[id], now, SUPERSEDED)
                  else s.nodes[id]
  {
  }

  /** An import of the lines kills exactly the nodes that lose their line, and leaves every
      other old row as it was. */
  lemma LiteralRowFate(s: State, w: Wanted, hash: Note -> int, now: int, id: nat)
    requires Counted(s) && Proper(w) && id in s.nodes
    ensures var u := Mirrored(s, w, hash, now).nodes;
      && id in u
      && u[id] == if Loses(s.nodes, w.notes, id) then Kill(s.nodes[id], now, LossReason(s.nodes[id], w.notes)) else s.nodes[id]
  {
    hide IsLiteral, LiveId, AfterLines;
    var ref := s.nodes[id].sourceRef;
    if ref.Some? && ref.value in w.order {
      AfterLinesFate(s, w.order, w.notes, hash, now, id);
    } else {
      AfterLinesRow(s, w.order, w.notes, hash, now, id);
    }
    LiteralHasRef(s.nodes[id]);
  }

  /** No row but a live literal one changes. */
  lemma OtherRowsStay(s: State, w: Wanted, hash: Note -> int, now: int, id: nat)
    requires Counted(s) && Proper(w) && id in s.nodes && (s.nodes[id].tombstoned || !IsLiteral(s.nodes[id].sourceRef))
    ensures id in Mirrored(s, w, hash, now).nodes && Mirrored(s, w, hash, now).nodes[id] == s.nodes[id]
  {
    LiteralRowFate(s, w, hash, now, id);
    LosersAreLive(s.nodes, w.notes, id);
    hide Mirrored, IsLiteral;
  }

  lemma LosersAreLive(nodes: map<nat, Row>, notes: map<string, Note>, id: nat)
    ensures Loses(nodes, notes, id) ==> !nodes[id].tombstoned
  {
  }

  // ----- what it means for derived nodes

  lemma {:induction false} AfterLinesTable(s: State, order: seq<string>, notes: map<string, Note>, hash: Note -> int, now: int)
    requires Counted(s) && forall ref | ref in order :: ref in notes
    ensures var t := AfterLines(s, order, notes, hash, now);
      Counted(t) && t.edges == s.edges && s.nextId <= t.nextId && forall id | id in t.nodes && id !in s.nodes :: id >= s.nextId
  {
    if order != [] {
      var n := |order| - 1;
      AfterLinesTable(s, order[..n], notes, hash, now);
      AfterLinesLast(s, order, notes, hash, now);
      LineStepTable(AfterLines(s, order[..n], notes, hash, now), order[n], notes[order[n]], hash, now);
      hide LineStep, AfterLines;
    }
  }

  lemma LineStepTable(s: State, ref: string, note: Note, hash: Note -> int, now: int)
    requires Counted(s)
    ensures var t := LineStep(s, ref, note, hash, now);
      Counted(t) && t.edges == s.edges && s.nextId <= t.nextId && forall id | id in t.nodes && id !in s.nodes :: id >= s.nextId
  {
  }

  /** The literal import adds no edges and changes no label: it keeps the table well formed
      and the labels flat. */
  lemma LiteralsKeepOneHop(s: State, w: Wanted, hash: Note -> int, now: int)
    requires Proper(w) && WellFormed(s) && OneHop(s)
    ensures var u := Mirrored(s, w, hash, now);
      WellFormed(u) && u.edges == s.edges && OneHop(u) && (ConfHop(s) ==> ConfHop(u))
  {
    var u := Mirrored(s, w, hash, now);
    LiteralsKeepTable(s, w, hash, now);
    forall x | x in u.nodes && !Parentless(u, x) ensures LabelKept(s, u, x) && ConfKept(s, u, x) {
      LiteralHop(s, w, hash, now, x);
    }
    hide *;
    HopsKept(s, u);
  }

  lemma LiteralsKeepTable(s: State, w: Wanted, hash: Note -> int, now: int)
    requires Proper(w) && WellFormed(s)
    ensures var u := Mirrored(s, w, hash, now);
      WellFormed(u) && Counted(s) && u.edges == s.edges && s.nodes.Keys <= u.nodes.Keys
  {
    AfterLinesTable(s, w.order, w.notes, hash, now);
    var u := Mirrored(s, w, hash, now);
    forall x | x in s.nodes ensures x in u.nodes { LiteralRowFate(s, w, hash, now, x); }
    hide AfterLines;
  }

  lemma LiteralHop(s: State, w: Wanted, hash: Note -> int, now: int, x: nat)
    requires Proper(w) && WellFormed(s)
    requires var u := Mirrored(s, w, hash, now);
      WellFormed(u) && u.edges == s.edges && s.nodes.Keys <= u.nodes.Keys && x in u.nodes && !Parentless(u, x)
    ensures LabelKept(s, Mirrored(s, w, hash, now), x) && ConfKept(s, Mirrored(s, w, hash, now), x)
  {
    var u := Mirrored(s, w, hash, now);
    EdgesOf(s, x);
    var p :| p in Parents(s.edges, x);
    assert Edge(x, p) in s.edges;
    forall q | q in s.nodes
      ensures u.nodes[q].integrity == s.nodes[q].integrity && u.nodes[q].conf == s.nodes[q].conf
      ensures u.nodes[q].channel == s.nodes[q].channel
    {
      LiteralRowFate(s, w, hash, now, q);
    }
    hide Mirrored;
    SameParentRows(s, u, x);
  }

  /** Like a changed file's node, a literal node that is moved or removed is tombstoned
      alone. The import keeps the DAG's liveness invariant if and only if every live child
      of such a node loses its own line as well. */
  lemma LiteralsKeepLivenessIff(s: State, w: Wanted, hash: Note -> int, now: int)
    requires Proper(w) && WellFormed(s) && LiveOnLive(s)
    ensures var u := Mirrored(s, w, hash, now);
      && WellFormed(u)
      && (LiveOnLive(u) <==>
          forall e | e in s.edges && Loses(s.nodes, w.notes, e.parent) && !s.nodes[e.child].tombstoned ::
            Loses(s.nodes, w.notes, e.child))
  {
    var u := Mirrored(s, w, hash, now);
    LiteralsKeepTable(s, w, hash, now);
    forall x | x in s.nodes ensures u.nodes[x].tombstoned <==> s.nodes[x].tombstoned || Loses(s.nodes, w.notes, x) {
      LiteralRowFate(s, w, hash, now, x);
    }
    hide Mirrored, Loses;
  }

  /** The rows an import of the lines adds stand for no file. */
  lemma {:induction false} NewLinesHaveNoFile(s: State, order: seq<string>, notes: map<string, Note>, hash: Note -> int, now: int)
    requires forall r | r in order :: r in notes
    ensures var t := AfterLines(s, order, notes, hash, now);
      && s.nextId <= t.nextId
      && forall id | id in t.nodes && id !in s.nodes :: t.nodes[id].bridgePath.None?
  {
    if order != [] {
      var n := |order| - 1;
      NewLinesHaveNoFile(s, order[..n], notes, hash, now);
      AfterLinesLast(s, order, notes, hash, now);
      hide AfterLines;
      OneNewLine(AfterLines(s, order[..n], notes, hash, now), order[n], notes[order[n]], hash, now);
    }
  }

  lemma OneNewLine(s: State, ref: string, note: Note, hash: Note -> int, now: int)
    ensures var t := LineStep(s, ref, note, hash, now);
      && s.nextId <= t.nextId
      && forall id | id in t.nodes :: (id in s.nodes && t.nodes[id].bridgePath == s.nodes[id].bridgePath) || t.nodes[id].bridgePath.None?
  {
  }

  lemma MirroredHaveNoFile(s: State, w: Wanted, hash: Note -> int, now: int)
    requires Proper(w)
    ensures var u := Mirrored(s, w, hash, now);
      && s.nextId <= u.nextId
      && forall id | id in u.nodes && id !in s.nodes :: u.nodes[id].bridgePath.None?
  {
    NewLinesHaveNoFile(s, w.order, w.notes, hash, now);
    hide AfterLines;
  }

  // ----- a second run

  lemma {:induction false} CurrentLinesStay(s: State, order: seq<string>, notes: map<string, Note>, hash: Note -> int, now: int)
    requires forall ref | ref in order :: ref in notes && VerdictOn(s.nodes, ref, notes[ref]) == Unchanged
    ensures AfterLines(s, order, notes, hash, now) == s
  {
    if order != [] {
      hide VerdictOn;
      var n := |order| - 1;
      assert order[n] in order;
      CurrentLinesStay(s, order[..n], notes, hash, now);
    }
  }

  /** Importing the same index again changes nothing, if and only if no reference without
      a line had several live nodes: each run takes one of those away. */
  lemma SecondImportIsANoopIff(s: State, w: Wanted, hash: Note -> int, now: int, later: int)
    requires Counted(s) && Proper(w)
    ensures var u := Mirrored(s, w, hash, now);
      Mirrored(u, w, hash, later) == u <==> forall ref | IsLiteral(Some(ref)) && ref !in w.notes :: AtMostOne(LiveRef(s.nodes, ref))
  {
    var u := Mirrored(s, w, hash, now);
    hide *;
    forall ref | IsLiteral(Some(ref)) && ref !in w.notes ensures LiveRef(u.nodes, ref) == {} <==> AtMostOne(LiveRef(s.nodes, ref)) {
      OneNodePerLineIff(s, w, hash, now, ref);
      Unwanted(u.nodes, w.notes, ref);
    }
    CountedAfter(s, w, hash, now);
    NoopIffNoneLeft(s, w, hash, now, later);
  }

  lemma Unwanted(nodes: map<nat, Row>, notes: map<string, Note>, ref: string)
    ensures ref !in notes ==> (Mirrors(nodes, notes, ref) <==> LiveRef(nodes, ref) == {})
  {
  }

  lemma CountedAfter(s: State, w: Wanted, hash: Note -> int, now: int)
    requires Counted(s) && Proper(w)
    ensures Counted(Mirrored(s, w, hash, now))
  {
    AfterLinesFrame(s, w.order, w.notes, hash, now, "");
    hide AfterLines;
  }

  /** A wanted line is unchanged in what an import leaves, so only what has no line counts. */
  lemma NoopIffNoneLeft(s: State, w: Wanted, hash: Note -> int, now: int, later: int)
    requires Counted(s) && Proper(w) && Counted(Mirrored(s, w, hash, now))
    ensures var u := Mirrored(s, w, hash, now);
      Mirrored(u, w, hash, later) == u <==> forall ref | IsLiteral(Some(ref)) && ref !in w.notes :: LiveRef(u.nodes, ref) == {}
  {
    var u := Mirrored(s, w, hash, now);
    LinesAreCurrent(s, w, hash, now);
    CurrentLinesStay(u, w.order, w.notes, hash, later);
    hide AfterLines, IsLiteral, LiveRef;
    RemovalIsIdleIff(u, w.notes, later);
    forall ref | IsLiteral(Some(ref)) && ref !in w.notes && LiveRef(u.nodes, ref) != {} ensures Removed(u.nodes, w.notes) != {} {
      RemovesOne(u.nodes, w.notes, ref);
    }
    if Removed(u.nodes, w.notes) != {} {
      var id :| id in Removed(u.nodes, w.notes);
      NotEmpty(u.nodes, w.notes, id);
    }
  }

  lemma RemovesOne(nodes: map<nat, Row>, notes: map<string, Note>, ref: string)
    requires IsLiteral(Some(ref)) && ref !in notes && LiveRef(nodes, ref) != {}
    ensures LiveId(nodes, ref).value in Removed(nodes, notes)
  {
    hide IsLiteral;
    assert IsLast(nodes, ref, LiveId(nodes, ref).value);
  }

  lemma NotEmpty(nodes: map<nat, Row>, notes: map<string, Note>, id: nat)
    requires IsRemoved(nodes, notes, id)
    ensures var ref := nodes[id].sourceRef;
      ref.Some? && IsLiteral(ref) && ref.value !in notes && LiveRef(nodes, ref.value) != {}
  {
  }

  lemma RemovalIsIdleIff(u: State, notes: map<string, Note>, now: int)
    ensures AfterRemoval(u, Removed(u.nodes, notes), now) == u <==> Removed(u.nodes, notes) == {}
  {
    hide IsLiteral, LiveId;
    var gone := Removed(u.nodes, notes);
    var v := AfterRemoval(u, gone, now);
    if gone == {} {
      assert v.nodes == u.nodes;
    } else {
      var id :| id in gone;
      RemovedIsLive(u.nodes, notes, id);
      assert v.nodes[id].tombstoned;
    }
  }

  lemma RemovedIsLive(nodes: map<nat, Row>, notes: map<string, Note>, id: nat)
    requires IsRemoved(nodes, notes, id)
    ensures !nodes[id].tombstoned
  {
  }

  lemma LinesAreCurrent(s: State, w: Wanted, hash: Note -> int, now: int)
    requires Counted(s) && Proper(w)
    ensures forall ref | ref in w.order :: ref in w.notes && VerdictOn(Mirrored(s, w, hash, now).nodes, ref, w.notes[ref]) == Unchanged
  {
    var t := AfterLines(s, w.order, w.notes, hash, now).nodes;
    var u := Mirrored(s, w, hash, now).nodes;
    hide AfterLines;
    forall ref | ref in w.order ensures ref in w.notes && VerdictOn(u, ref, w.notes[ref]) == Unchanged {
      AfterLinesHere(s, w.order, w.notes, hash, now, ref);
      KeptByRemoval(s, w, hash, now, ref);
      hide AfterRemoval, LiveId;
      StaysCurrent(s, w, hash, now, ref);
    }
  }

  lemma StaysCurrent(s: State, w: Wanted, hash: Note -> int, now: int, ref: string)
    requires Counted(s) && Proper(w) && ref in w.notes
    ensures forall id | LiveId(AfterLines(s, w.order, w.notes, hash, now).nodes, ref) == Some(id) ::
      id in Mirrored(s, w, hash, now).nodes &&
      Mirrored(s, w, hash, now).nodes[id] == AfterLines(s, w.order, w.notes, hash, now).nodes[id]
  {
    var t := AfterLines(s, w.order, w.notes, hash, now);
    SameRefs(s, w, hash, now);
    RemovalFrame(s, t, w, now, ref);
    hide AfterLines;
    forall id | LiveId(t.nodes, ref) == Some(id) ensures id in LiveRef(t.nodes, ref) { assert IsLast(t.nodes, ref, id); }
  }

  // ----- where files and lines meet

  /** import_all runs this after the file importer. A live file row keeps its life exactly
      if its stem does not begin with `literal:`, or another live row of the same reference
      comes after it, or some index line asks for its very reference and content. */
  lemma FileRowSurvivesIff(s: State, w: Wanted, hash: Note -> int, now: int, id: nat, stem: string)
    requires Counted(s) && Proper(w)
    requires id in s.nodes && !s.nodes[id].tombstoned && s.nodes[id].sourceRef == Some("memory:" + stem)
    ensures var ref := "memory:" + stem;
      var u := Mirrored(s, w, hash, now).nodes;
      && id in u
      && (!u[id].tombstoned <==>
          || !StartsWith(Lower(stem), "literal:")
          || (exists x :: x in LiveRef(s.nodes, ref) && id < x)
          || (ref in w.notes && s.nodes[id].content == w.notes[ref]))
  {
    var ref := "memory:" + stem;
    Reimport.MemoryRef(stem);
    LiteralRowFate(s, w, hash, now, id);
    LastIff(s.nodes, ref, id);
    hide IsLiteral, Mirrored, LiveId;
  }

  lemma LastIff(nodes: map<nat, Row>, ref: string, id: nat)
    requires id in LiveRef(nodes, ref)
    ensures LiveId(nodes, ref) == Some(id) <==> !exists x :: x in LiveRef(nodes, ref) && id < x
  {
    if !exists x :: x in LiveRef(nodes, ref) && id < x {
      assert IsLast(nodes, ref, id);
      LastIsUnique(nodes, ref, id);
    }
  }

  // ----- what is wanted, written and counted

  /** The note of a line says its section and its text, so a line that only changes its
      section changes its note. */
  lemma ContentIs(a: Line, b: Line)
    ensures Content(a) == Content(b) <==> a.section == b.section && a.text == b.text
    ensures var n := Content(a);
      n.hadFm && n.body == a.text + "\n" && TopLevel(n.lines) == map["literal" := "true", "section" := a.section]
  {
    var n := Content(a);
    assert |"literal"| == 7 && |"section"| == 7 && "literal"[0] != "section"[0];
    assert n.lines[..1] == [Pair(Top, "literal", "true")] && [Pair(Top, "literal", "true")][..0] == [];
    if Content(a) == Content(b) {
      assert Content(a).lines[1] == Content(b).lines[1];
      assert a.text == (a.text + "\n")[..|a.text|] && b.text == (b.text + "\n")[..|b.text|];
    }
  }

  /** A line is wanted under the digest of its text, with the section of the last line that
      has this digest; nothing else is wanted. */
  lemma WantIs(lines: seq<Line>, digest: string -> string)
    ensures var w := Want(lines, digest);
      && (forall i | 0 <= i < |lines| :: "memory:literal:" + digest(lines[i].text) in w.notes)
      && (forall i | 0 <= i < |lines| && (forall j | i < j < |lines| :: digest(lines[j].text) != digest(lines[i].text)) ::
            w.notes["memory:literal:" + digest(lines[i].text)] == Content(lines[i]))
      && (forall ref | ref in w.notes :: exists i :: 0 <= i < |lines| && ref == "memory:literal:" + digest(lines[i].text))
  {
    hide Want, Content;
    forall i | 0 <= i < |lines|
      ensures Ref(digest, lines[i].text) in Want(lines, digest).notes
      ensures (forall j | i < j < |lines| :: digest(lines[j].text) != digest(lines[i].text)) ==>
        Want(lines, digest).notes[Ref(digest, lines[i].text)] == Content(lines[i])
    {
      LineIsWanted(lines, digest, i);
    }
    forall ref | ref in Want(lines, digest).notes ensures exists i :: 0 <= i < |lines| && ref == "memory:literal:" + digest(lines[i].text) {
      var i := WantedByALine(lines, digest, ref);
    }
  }

  lemma {:induction false} LineIsWanted(lines: seq<Line>, digest: string -> string, i: nat)
    requires i < |lines|
    ensures Ref(digest, lines[i].text) in Want(lines, digest).notes
    ensures (forall j | i < j < |lines| :: digest(lines[j].text) != digest(lines[i].text)) ==>
      Want(lines, digest).notes[Ref(digest, lines[i].text)] == Content(lines[i])
  {
    var n := |lines| - 1;
    WantStep(lines, digest);
    hide Content, Want;
    if i < n {
      assert lines[..n][i] == lines[i] && forall j | i < j < n :: lines[..n][j] == lines[j];
      LineIsWanted(lines[..n], digest, i);
      SameRefSameDigest(digest(lines[i].text), digest(lines[n].text));
    }
  }

  lemma {:induction false} WantedByALine(lines: seq<Line>, digest: string -> string, ref: string) returns (i: nat)
    requires ref in Want(lines, digest).notes
    ensures i < |lines| && ref == Ref(digest, lines[i].text)
  {
    var n := |lines| - 1;
    WantStep(lines, digest);
    hide Content;
    if ref == Ref(digest, lines[n].text) {
      i := n;
    } else {
      i := WantedByALine(lines[..n], digest, ref);
    }
  }

  /** Line `i` is the first one wanted under the reference. */
  predicate IsFirstLine(lines: seq<Line>, digest: string -> string, ref: string, i: nat) {
    && i < |lines| && "memory:literal:" + digest(lines[i].text) == ref
    && forall j | 0 <= j < i :: "memory:literal:" + digest(lines[j].text) != ref
  }

  /** The references come in the order in which their first lines stand. */
  lemma {:induction false} WantedInOrder(lines: seq<Line>, digest: string -> string, p: nat, q: nat, i: nat, j: nat)
    requires p < q < |Want(lines, digest).order|
    requires IsFirstLine(lines, digest, Want(lines, digest).order[p], i) && IsFirstLine(lines, digest, Want(lines, digest).order[q], j)
    ensures i < j
  {
    var n := |lines| - 1;
    var before := Want(lines[..n], digest);
    var order := Want(lines, digest).order;
    WantStep(lines, digest);
    WantIsProper(lines[..n], digest);
    hide Want, Content, IsLiteral;
    assert forall k | 0 <= k < n :: lines[..n][k] == lines[k];
    assert order[p] == before.order[p] && before.order[p] in before.notes;
    FirstIsBefore(lines, digest, before.order[p], i);
    assert IsFirstLine(lines[..n], digest, order[p], i);
    if q < |before.order| {
      assert before.order[q] in before.notes;
      FirstIsBefore(lines, digest, before.order[q], j);
      assert IsFirstLine(lines[..n], digest, order[q], j);
      WantedInOrder(lines[..n], digest, p, q, i, j);
    } else {
      assert order[q] !in before.notes;
      LastIsFirst(lines, digest, order[q], j);
    }
  }

  /** A reference that was wanted before the last line has its first line before it. */
  lemma FirstIsBefore(lines: seq<Line>, digest: string -> string, ref: string, i: nat)
    requires lines != [] && ref in Want(lines[..|lines| - 1], digest).notes && IsFirstLine(lines, digest, ref, i)
    ensures i < |lines| - 1
  {
    var k := WantedByALine(lines[..|lines| - 1], digest, ref);
    assert lines[..|lines| - 1][k] == lines[k];
  }

  /** A reference that was not has no line before the last. */
  lemma LastIsFirst(lines: seq<Line>, digest: string -> string, ref: string, j: nat)
    requires lines != [] && ref !in Want(lines[..|lines| - 1], digest).notes && IsFirstLine(lines, digest, ref, j)
    ensures j == |lines| - 1
  {
    forall k | 0 <= k < |lines| - 1 ensures Ref(digest, lines[k].text) in Want(lines[..|lines| - 1], digest).notes {
      LineIsWanted(lines[..|lines| - 1], digest, k);
      assert lines[..|lines| - 1][k] == lines[k];
    }
  }

  lemma SameRefSameDigest(a: string, b: string)
    ensures "memory:literal:" + a == "memory:literal:" + b ==> a == b
  {
    assert ("memory:literal:" + a)[15..] == a && ("memory:literal:" + b)[15..] == b;
  }

  /** The node of a line: endorsed, live, with the line's note and its hash. */
  predicate IsLineRow(r: Row, notes: map<string, Note>, hash: Note -> int, now: int) {
    && r.sourceRef.Some? && r.sourceRef.value in notes && r.content == notes[r.sourceRef.value]
    && r.contentHash == Some(hash(r.content)) && r.channel == Endorsed && r.integrity == 3 && r.conf == 0
    && r.createdAt == now && !r.tombstoned && !r.redacted && !r.quarantined && !r.archived && !r.stale && r.bridgePath.None?
  }

  lemma {:induction false} NewLinesAre(s: State, order: seq<string>, notes: map<string, Note>, hash: Note -> int, now: int)
    requires Counted(s) && Distinct(order) && forall r | r in order :: r in notes
    ensures var t := AfterLines(s, order, notes, hash, now);
      forall id | id in t.nodes && id !in s.nodes :: IsLineRow(t.nodes[id], notes, hash, now) && t.nodes[id].sourceRef.value in order
  {
    if order != [] {
      var n := |order| - 1;
      var before := AfterLines(s, order[..n], notes, hash, now);
      NewLinesAre(s, order[..n], notes, hash, now);
      AfterLinesLast(s, order, notes, hash, now);
      AfterLinesFrame(s, order[..n], notes, hash, now, "");
      LineIsNew(order, n);
      hide AfterLines, IsLineRow, LineStep;
      var t := AfterLines(s, order, notes, hash, now);
      assert order[n] in order;
      forall id | id in t.nodes && id !in s.nodes ensures IsLineRow(t.nodes[id], notes, hash, now) && t.nodes[id].sourceRef.value in order {
        if id in before.nodes {
          LineRowHasRef(before.nodes[id], notes, hash, now);
          LineStepRow(before, order[n], notes[order[n]], hash, now, id);
        } else {
          NewLineIs(before, order[n], notes, hash, now, id);
        }
      }
    }
  }

  lemma LineRowHasRef(r: Row, notes: map<string, Note>, hash: Note -> int, now: int)
    requires IsLineRow(r, notes, hash, now)
    ensures r.sourceRef.Some?
  {
  }

  lemma NewLineIs(s: State, ref: string, notes: map<string, Note>, hash: Note -> int, now: int, id: nat)
    requires ref in notes
    ensures var t := LineStep(s, ref, notes[ref], hash, now).nodes;
      id in t && id !in s.nodes ==> IsLineRow(t[id], notes, hash, now) && t[id].sourceRef == Some(ref)
  {
  }

  /** Every row an import of the index adds is the node of a line. */
  lemma NewRowsAreLines(s: State, w: Wanted, hash: Note -> int, now: int, id: nat)
    requires Counted(s) && Proper(w)
    ensures var u := Mirrored(s, w, hash, now).nodes;
      id in u && id !in s.nodes ==> IsLineRow(u[id], w.notes, hash, now)
  {
    NewLinesAre(s, w.order, w.notes, hash, now);
    hide AfterLines, IsLineRow;
    assert forall x | x in Removed(s.nodes, w.notes) :: x in s.nodes;
  }

  ghost function LinesJudged(nodes: map<nat, Row>, order: seq<string>, notes: map<string, Note>, v: LineVerdict): set<string>
    requires forall ref | ref in order :: ref in notes
  {
    set ref | ref in order && VerdictOn(nodes, ref, notes[ref]) == v
  }

  /** How a line is judged: by the last live node of its reference. */
  lemma LineVerdictIs(nodes: map<nat, Row>, ref: string, note: Note)
    ensures var v := VerdictOn(nodes, ref, note);
      && (v == New <==> forall id | id in nodes && nodes[id].sourceRef == Some(ref) :: nodes[id].tombstoned)
      && (v != New ==> exists id :: IsLast(nodes, ref, id) && (v == Unchanged <==> nodes[id].content == note))
  {
    var id := LiveId(nodes, ref);
    if id.Some? {
      assert IsLast(nodes, ref, id.value);
    } else {
      forall id | id in nodes && nodes[id].sourceRef == Some(ref) ensures nodes[id].tombstoned {
        assert id !in LiveRef(nodes, ref);
      }
    }
  }

  lemma {:induction false} TallyIs(nodes: map<nat, Row>, order: seq<string>, notes: map<string, Note>, start: LineStats)
    requires Distinct(order) && forall ref | ref in order :: ref in notes
    ensures var c := Tally(nodes, order, notes, start);
      && c.total == start.total && c.tombstoned == start.tombstoned
      && c.created == start.created + |LinesJudged(nodes, order, notes, New)|
      && c.updated == start.updated + |LinesJudged(nodes, order, notes, Moved)|
      && c.skipped == start.skipped + |LinesJudged(nodes, order, notes, Unchanged)|
  {
    hide VerdictOn;
    if order == [] {
      assert LinesJudged(nodes, [], notes, New) == LinesJudged(nodes, [], notes, Moved) == LinesJudged(nodes, [], notes, Unchanged) == {};
    } else {
      var n := |order| - 1;
      TallyIs(nodes, order[..n], notes, start);
      LineIsNew(order, n);
      OneMoreLine(nodes, order, notes, New);
      OneMoreLine(nodes, order, notes, Moved);
      OneMoreLine(nodes, order, notes, Unchanged);
      hide LinesJudged;
    }
  }

  lemma OneMoreLine(nodes: map<nat, Row>, order: seq<string>, notes: map<string, Note>, v: LineVerdict)
    requires order != [] && order[|order| - 1] !in order[..|order| - 1] && forall ref | ref in order :: ref in notes
    ensures var n := |order| - 1;
      |LinesJudged(nodes, order, notes, v)| ==
        |LinesJudged(nodes, order[..n], notes, v)| + if VerdictOn(nodes, order[n], notes[order[n]]) == v then 1 else 0
  {
    hide VerdictOn;
    var n := |order| - 1;
    assert forall ref :: ref in order <==> ref in order[..n] || ref == order[n];
    assert LinesJudged(nodes, order, notes, v) ==
      LinesJudged(nodes, order[..n], notes, v) + if VerdictOn(nodes, order[n], notes[order[n]]) == v then {order[n]} else {};
  }

  /** What an import of the index reports: each wanted reference once, by how it is judged,
      and the nodes that lose their line. */
  lemma LineCountersAre(nodes: map<nat, Row>, w: Wanted)
    requires Proper(w)
    ensures var c := ExpectedStats(nodes, w);
      && c.total == |w.notes|
      && c.created == |LinesJudged(nodes, w.order, w.notes, New)|
      && c.updated == |LinesJudged(nodes, w.order, w.notes, Moved)|
      && c.skipped == |LinesJudged(nodes, w.order, w.notes, Unchanged)|
      && c.tombstoned == |set id | id in nodes && Loses(nodes, w.notes, id) && nodes[id].sourceRef.value !in w.notes|
  {
    TallyIs(nodes, w.order, w.notes, LineStats(|w.notes|, 0, 0, 0, 0));
    hide VerdictOn, LiveId, IsLiteral;
    assert (set id | id in nodes && Loses(nodes, w.notes, id) && nodes[id].sourceRef.value !in w.notes) == Removed(nodes, w.notes);
  }
}
