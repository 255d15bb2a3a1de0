/** memsom/integrity/blame.py (the roots a node came from) and
    memsom/distill/distill.py (which nodes may be exported for training). */
module Provenance {
  import opened Base
  import opened Closure
  import opened Frontmatter
  import opened Dag
  import opened DagRuns
  import Ordering

  // ----- blame

  datatype Line = Redacted | AboveClearance | Snippet(of: Note)

  datatype Entry = Entry(id: nat, channel: Channel, integrity: int, sourceRef: Option<string>,
                         state: string, line: Line)

  /** The state column of a blame row. */
  function StateName(r: Row): string {
    if r.tombstoned && r.redacted then "tombstoned+redacted"
    else if r.tombstoned then "tombstoned"
    else if r.redacted then "redacted"
    else if r.quarantined then "quarantined"
    else "live"
  }

  function BuildEntry(id: nat, r: Row, clearance: Option<int>): Entry {
    Entry(id, r.channel, r.integrity, r.sourceRef, StateName(r),
      if r.redacted then Redacted
      else if clearance.Some? && r.conf > clearance.value then AboveClearance
      else Snippet(r.content))
  }

  /** What an entry says of its row: the content only when it is not redacted and not above
      the clearance, and of the states the one that matters most. */
  predicate Reports(e: Entry, r: Row, clearance: Option<int>) {
    && e.channel == r.channel && e.integrity == r.integrity && e.sourceRef == r.sourceRef
    && (r.redacted <==> e.line == Redacted)
    && (!r.redacted && clearance.Some? && r.conf > clearance.value <==> e.line == AboveClearance)
    && (e.line.Snippet? ==> e.line.of == r.content)
    && (r.tombstoned && r.redacted <==> e.state == "tombstoned+redacted")
    && (r.tombstoned && !r.redacted <==> e.state == "tombstoned")
    && (!r.tombstoned && r.redacted <==> e.state == "redacted")
    && (!r.tombstoned && !r.redacted && r.quarantined <==> e.state == "quarantined")
    && (!r.tombstoned && !r.redacted && !r.quarantined <==> e.state == "live")
  }

  lemma EntryReports(id: nat, r: Row, clearance: Option<int>)
    ensures Reports(BuildEntry(id, r, clearance), r, clearance)
  {
    assert |"live"| == 4 && |"redacted"| == 8 && |"tombstoned"| == 10 && |"quarantined"| == 11 && |"tombstoned+redacted"| == 19;
  }

  lemma AllReport(nodes: map<nat, Row>, es: seq<Entry>, rows: set<nat>, clearance: Option<int>)
    requires Ordering.Lists(EntryIds(es), rows, LabelKey(nodes))
    requires forall i | 0 <= i < |es| :: es[i].id in nodes && es[i] == BuildEntry(es[i].id, nodes[es[i].id], clearance)
    ensures InTrustOrder(nodes, EntryIds(es))
    ensures forall i | 0 <= i < |es| :: es[i].id in nodes && Reports(es[i], nodes[es[i].id], clearance)
  {
    forall i | 0 <= i < |es| ensures es[i].id in nodes && Reports(es[i], nodes[es[i].id], clearance) {
      EntryReports(es[i].id, nodes[es[i].id], clearance);
    }
    hide Reports, BuildEntry;
  }

  /** The rows blame answers with: a source is its own root; a derived node has
      every proper ancestor that is not itself derived, dead ones included. */
  ghost function BlameRows(s: State, x: nat): set<nat>
    requires x in s.nodes
  {
    if s.nodes[x].channel != AgentDerived then {x}
    else set a | a in s.nodes && Ancestor(s, x, a) && s.nodes[a].channel != AgentDerived
  }

  /** blame: exactly the rows above, each once, most trusted first and then by id,
      with content shown only where redaction and clearance allow it. */
  method Blame(st: Store, x: nat, clearance: Option<int>) returns (r: Result<seq<Entry>, Error>)
    ensures x !in st.nodes <==> r == Err(UnknownNode)
    ensures x in st.nodes ==> r.Ok? && |r.value| == |BlameRows(st.Snapshot(), x)|
    ensures r.Ok? && x in st.nodes ==>
      && Ordering.Lists(EntryIds(r.value), BlameRows(st.Snapshot(), x), LabelKey(st.nodes))
      && forall i | 0 <= i < |r.value| ::
        r.value[i].id in st.nodes && r.value[i] == BuildEntry(r.value[i].id, st.nodes[r.value[i].id], clearance)
    ensures r.Ok? && x in st.nodes ==>
      && InTrustOrder(st.nodes, EntryIds(r.value))
      && (forall i | 0 <= i < |r.value| :: r.value[i].id in st.nodes && Reports(r.value[i], st.nodes[r.value[i].id], clearance))
  {
    if x !in st.nodes {
      return Err(UnknownNode);
    }
    if st.nodes[x].channel != AgentDerived {
      assert EntryIds([BuildEntry(x, st.nodes[x], clearance)]) == [x];
      AllReport(st.nodes, [BuildEntry(x, st.nodes[x], clearance)], {x}, clearance);
      return Ok([BuildEntry(x, st.nodes[x], clearance)]);
    }
    var anc := RecursiveUnion(Up(st.edges), Parents(st.edges, x));
    var roots := set a | a in st.nodes && a in anc && st.nodes[a].channel != AgentDerived;
    assert roots == BlameRows(st.Snapshot(), x);
    var rows := Ordering.OrderBy(roots, LabelKey(st.nodes));
    Ordering.ListingLength(rows, roots, LabelKey(st.nodes));
    hide *;
    assert forall a | a in rows :: a in st.nodes;
    var results := BuildEntries(st, rows, clearance);
    AllReport(st.nodes, results, roots, clearance);
    r := Ok(results);
  }

  method BuildEntries(st: Store, rows: seq<nat>, clearance: Option<int>) returns (results: seq<Entry>)
    requires forall a | a in rows :: a in st.nodes
    ensures EntryIds(results) == rows && |results| == |rows|
    ensures forall i | 0 <= i < |rows| ::
      results[i].id == rows[i] && rows[i] in st.nodes && results[i] == BuildEntry(rows[i], st.nodes[rows[i]], clearance)
  {
    results := [];
    for i := 0 to |rows|
      invariant EntryIds(results) == rows[..i]
      invariant forall j | 0 <= j < i ::
        rows[j] in st.nodes && results[j] == BuildEntry(rows[j], st.nodes[rows[j]], clearance)
    {
      results := results + [BuildEntry(rows[i], st.nodes[rows[i]], clearance)];
    }
    assert rows[..|rows|] == rows;
  }

  function EntryIds(es: seq<Entry>): (ids: seq<nat>)
    ensures |ids| == |es| && forall i | 0 <= i < |es| :: ids[i] == es[i].id
  {
    seq(|es|, i requires 0 <= i < |es| => es[i].id)
  }

  /** The ancestor query and the cascade query are converse to each other. */
  lemma AncestorIsProperDescent(s: State, x: nat, a: nat)
    requires WellFormed(s)
    ensures Ancestor(s, x, a) <==> Descends(s, a, x) && a != x
  {
    var down, up := Down(s.edges), Up(s.edges);
    UpIsFlippedDown(s.edges);
    if Ancestor(s, x, a) {
      var p :| p in Parents(s.edges, x) && Reaches(up, p, a);
      FlipReaches(down, a, p);
      assert Edge(x, p) in s.edges;
      assert (p, x) in down;
      ReachesStep(down, a, p, x);
      DescentGrows(s, a, p);
    }
    if Descends(s, a, x) && a != x {
      var p := ReachesLast(down, a, x);
      assert Edge(x, p) in s.edges;
      FlipReaches(down, a, p);
      assert p in Parents(s.edges, x);
    }
  }

  lemma UpIsFlippedDown(edges: set<Edge>)
    ensures Up(edges) == Flip(Down(edges))
  {
    forall e | e in edges ensures (e.child, e.parent) in Flip(Down(edges)) {
      assert (e.parent, e.child) in Down(edges);
    }
  }

  lemma {:induction false} DescentGrows(s: State, a: nat, x: nat)
    requires WellFormed(s) && Descends(s, a, x)
    ensures a <= x
    decreases x
  {
    if a != x {
      var p := ReachesLast(Down(s.edges), a, x);
      assert Edge(x, p) in s.edges;
      DescentGrows(s, a, p);
    }
  }

  lemma DescendantHasParents(s: State, a: nat, x: nat)
    requires Descends(s, a, x) && a != x
    ensures !Parentless(s, x)
  {
    var p := ReachesLast(Down(s.edges), a, x);
    assert Edge(x, p) in s.edges;
    assert p in Parents(s.edges, x);
  }

  /** Blame answers with the roots of a node, except for roots that were themselves
      inserted on the agent-derived channel; with no such root it is exactly them. */
  lemma BlameFindsTheRoots(s: State, x: nat)
    requires Inv(s) && x in s.nodes
    ensures !Parentless(s, x) ==>
      BlameRows(s, x) == set r | r in Roots(s, x) && s.nodes[r].channel != AgentDerived
    ensures BlameRows(s, x) == Roots(s, x) <==>
      (forall r | r in Roots(s, x) :: s.nodes[r].channel != AgentDerived)
  {
    ReachesSelf(Down(s.edges), x);
    forall a | a in s.nodes ensures Ancestor(s, x, a) <==> Descends(s, a, x) && a != x {
      AncestorIsProperDescent(s, x, a);
    }
    if Parentless(s, x) {
      forall a | Descends(s, a, x) ensures a == x {
        if a != x { DescendantHasParents(s, a, x); }
      }
      assert Roots(s, x) == {x};
    } else {
      var r := LabelHasRoot(s, x);
      assert BlameRows(s, x) == set r | r in Roots(s, x) && s.nodes[r].channel != AgentDerived;
    }
  }

  /** In every state of every run: when no root of a node was inserted as
      agent-derived, its label is the least label blame shows for it. */
  lemma LabelIsTheLeastBlamed(steps: seq<Step>, trace: seq<State>, i: nat, x: nat)
    requires IsRun(steps, trace) && i <= |steps| && x in trace[i].nodes
    requires forall r | r in Roots(trace[i], x) :: trace[i].nodes[r].channel != AgentDerived
    ensures IsLeast(trace[i].nodes[x].integrity, Labels(trace[i], BlameRows(trace[i], x)))
  {
    RunsKeepInv(steps, trace, i);
    BlameFindsTheRoots(trace[i], x);
    LabelsFlattenToRoots(steps, trace, i, x);
  }

  // ----- export

  /** The taint clauses of the export, at clearance 0. */
  predicate Untainted(r: Row) {
    !r.tombstoned && !r.quarantined && !r.redacted && !r.archived && r.conf <= 0
  }

  ghost predicate HasLiveExternalAncestor(s: State, x: nat) {
    exists a :: a in s.nodes && Ancestor(s, x, a) && s.nodes[a].channel == External && !s.nodes[a].tombstoned
  }

  /** The rows the label floor alone lets through. */
  function PassesFloor(s: State, floor: int): set<nat> {
    set x | x in s.nodes && s.nodes[x].channel == AgentDerived && Untainted(s.nodes[x]) && s.nodes[x].integrity >= floor
  }

  /** A public answer that nothing has been done to, at or over the floor, with no live
      external row in its ancestry. */
  ghost predicate IsExportable(s: State, x: nat, floor: int)
    requires x in s.nodes
  {
    var r := s.nodes[x];
    && r.channel == AgentDerived && r.conf <= 0 && r.integrity >= floor
    && !r.tombstoned && !r.redacted && !r.quarantined && !r.archived
    && forall a | a in s.nodes && Ancestor(s, x, a) && s.nodes[a].channel == External :: s.nodes[a].tombstoned
  }

  lemma ExportedIs(s: State, ids: seq<nat>, floor: int)
    requires Ordering.Lists(ids, Exported(s, floor), IdKey(s.nodes))
    ensures forall x :: x in ids <==> x in s.nodes && IsExportable(s, x, floor)
    ensures forall i, j | 0 <= i < j < |ids| :: ids[i] < ids[j]
  {
    hide Ancestor;
    assert forall i, j | 0 <= i < j < |ids| :: Ordering.Before(IdKey(s.nodes), ids[i], ids[j]);
  }

  ghost function Exported(s: State, floor: int): set<nat> {
    set x | x in PassesFloor(s, floor) && !HasLiveExternalAncestor(s, x)
  }

  // ----- the instruction of a record

  /** Where str.splitlines breaks. */
  predicate IsBreak(c: char) {
    ('\n' <= c <= '\r') || ('\U{1C}' <= c <= '\U{1E}') || c == '\U{85}' || c == '\U{2028}' || c == '\U{2029}'
  }

  lemma BreaksAre(c: char)
    requires c < '\U{80}'
    ensures IsBreak(c) <==> c in {'\n', '\U{0B}', '\U{0C}', '\r', '\U{1C}', '\U{1D}', '\U{1E}'}
  {
  }

  function FirstLine(s: string): (line: string)
    ensures |line| <= |s|
  {
    if s == "" || IsBreak(s[0]) then "" else [s[0]] + FirstLine(s[1..])
  }

  /** The first line with something in it, stripped. */
  function FirstVisible(s: string): string
    decreases |s|
  {
    var line := FirstLine(s);
    if Strip(line) != "" then Strip(line)
    else if |line| == |s| then ""
    else FirstVisible(s[|line| + 1..])
  }

  function Cut(s: string): string {
    if |s| <= 200 then s else s[..200]
  }

  /** _instruction_from_content: the question of an answer, else its first visible line. */
  function Instruction(content: string): string {
    if StartsWith(FirstLine(content), "Q: ") then Cut(Strip(FirstLine(content)[3..])) else Cut(FirstVisible(content))
  }

  /** The first line runs up to the first break. */
  lemma {:induction false} FirstLineIs(a: string, b: string)
    requires (forall c | c in a :: !IsBreak(c)) && (b == "" || IsBreak(b[0]))
    ensures FirstLine(a + b) == a
  {
    if a == "" {
      assert a + b == b;
    } else {
      assert a[0] in a && forall c | c in a[1..] :: c in a;
      HeadTail(a, b);
      FirstLineIs(a[1..], b);
    }
  }

  /** An answer in the form compose writes gives back its question. */
  lemma InstructionOfAnswer(question: string, rest: string)
    requires forall c | c in question :: !IsBreak(c)
    ensures Instruction("Q: " + question + "\n" + rest) == Cut(Strip(question))
  {
    var line := "Q: " + question;
    assert forall c | c in line :: c in question || c in "Q: ";
    FirstLineIs(line, "\n" + rest);
    Assoc(line, "\n", rest);
    assert line[..3] == "Q: " && line[3..] == question;
  }

  /** The first 200 characters. */
  predicate IsCutOf(t: string, s: string) {
    |t| <= 200 && t <= s && (|t| < 200 ==> t == s)
  }

  /** The question is taken without the white space around it, up to 200 characters. */
  lemma InstructionOfQuestion(a: string, question: string, b: string, rest: string)
    requires (forall c | c in a :: IsSpace(c) && !IsBreak(c)) && (forall c | c in b :: IsSpace(c) && !IsBreak(c))
    requires question != "" && !IsSpace(question[0]) && !IsSpace(question[|question| - 1])
    requires forall c | c in question :: !IsBreak(c)
    ensures IsCutOf(Instruction("Q: " + (a + question + b) + "\n" + rest), question)
  {
    hide IsSpace, IsBreak;
    StripIs(a, question, b);
    assert forall c | c in a + question + b :: c in a || c in question || c in b;
    InstructionOfAnswer(a + question + b, rest);
    hide Instruction, Strip;
  }

  /** Of any other content the first line that is not blank, likewise. */
  lemma InstructionOfText(blank: string, a: string, text: string, b: string, rest: string)
    requires (forall c | c in blank :: IsSpace(c)) && (blank == "" || IsBreak(blank[|blank| - 1]))
    requires (forall c | c in a :: IsSpace(c) && !IsBreak(c)) && (forall c | c in b :: IsSpace(c) && !IsBreak(c))
    requires text != "" && !IsSpace(text[0]) && !IsSpace(text[|text| - 1]) && forall c | c in text :: !IsBreak(c)
    requires rest == "" || IsBreak(rest[0])
    requires !StartsWith(FirstLine(blank + ((a + text + b) + rest)), "Q: ")
    ensures IsCutOf(Instruction(blank + ((a + text + b) + rest)), text)
  {
    hide *;
    var line := a + text + b;
    StripIs(a, text, b);
    assert forall c | c in line :: c in a || c in text || c in b;
    BlankIsSkipped(blank, line + rest);
    VisibleLine(line, rest);
    CutOfVisible(blank + (line + rest));
  }

  lemma VisibleLine(line: string, rest: string)
    requires (forall c | c in line :: !IsBreak(c)) && (rest == "" || IsBreak(rest[0])) && Strip(line) != ""
    ensures FirstVisible(line + rest) == Strip(line)
  {
    hide IsBreak;
    FirstLineIs(line, rest);
    hide Strip, FirstLine;
  }

  lemma CutOfVisible(content: string)
    requires !StartsWith(FirstLine(content), "Q: ")
    ensures IsCutOf(Instruction(content), FirstVisible(content))
  {
    hide FirstLine, FirstVisible, StartsWith;
  }

  lemma {:induction false} BlankIsSkipped(blank: string, rest: string)
    requires (forall c | c in blank :: IsSpace(c)) && (blank == "" || IsBreak(blank[|blank| - 1]))
    ensures FirstVisible(blank + rest) == FirstVisible(rest)
    decreases |blank|
  {
    if blank == "" {
      assert blank + rest == rest;
    } else {
      var k := FirstBreak(blank);
      var line, more := blank[..k], blank[k + 1..];
      assert forall c | c in line :: c in blank;
      assert forall c | c in more :: c in blank;
      assert blank[k..] == [blank[k]] + more;
      assert blank + rest == line + ([blank[k]] + (more + rest));
      hide *;
      StripEmptyIff(line);
      BlankLine(line, blank[k], more + rest);
      BlankIsSkipped(more, rest);
    }
  }

  lemma BlankLine(line: string, b: char, rest: string)
    requires (forall c | c in line :: !IsBreak(c)) && IsBreak(b) && Strip(line) == ""
    ensures FirstVisible(line + ([b] + rest)) == FirstVisible(rest)
  {
    hide IsBreak;
    FirstLineIs(line, [b] + rest);
    hide Strip, FirstLine;
    assert (line + ([b] + rest))[|line| + 1..] == rest;
  }

  lemma FirstBreak(s: string) returns (k: nat)
    requires s != "" && IsBreak(s[|s| - 1])
    ensures k < |s| && IsBreak(s[k]) && forall c | c in s[..k] :: !IsBreak(c)
    ensures s[k + 1..] == "" || IsBreak(s[k + 1..][|s[k + 1..]| - 1])
  {
    k := 0;
    while !IsBreak(s[k])
      invariant k < |s| && forall c | c in s[..k] :: !IsBreak(c)
      decreases |s| - k
    {
      assert s[..k + 1] == s[..k] + [s[k]];
      k := k + 1;
    }
  }

  lemma {:induction false} RStripEmptyIff(s: string)
    ensures RStrip(s) == "" <==> forall c | c in s :: IsSpace(c)
  {
    if s != "" {
      RStripEmptyIff(s[..|s| - 1]);
      assert forall c :: c in s <==> c in s[..|s| - 1] || c == s[|s| - 1];
    }
  }

  lemma {:induction false} StripEmptyIff(s: string)
    ensures Strip(s) == "" <==> forall c | c in s :: IsSpace(c)
  {
    if s != "" && IsSpace(s[0]) {
      StripEmptyIff(s[1..]);
      assert forall c :: c in s <==> c in s[1..] || c == s[0];
    } else {
      RStripEmptyIff(s);
    }
  }

  lemma {:induction false} FirstLineEnds(s: string)
    ensures FirstLine(s) <= s && (|FirstLine(s)| < |s| ==> IsBreak(s[|FirstLine(s)|]))
  {
    if s != "" && !IsBreak(s[0]) { FirstLineEnds(s[1..]); }
  }

  lemma {:induction false} FirstVisibleEmptyIff(s: string)
    ensures FirstVisible(s) == "" <==> forall c | c in s :: IsSpace(c)
    decreases |s|
  {
    var line := FirstLine(s);
    StripEmptyIff(line);
    FirstLineEnds(s);
    hide Strip, FirstLine;
    if |line| < |s| {
      FirstVisibleEmptyIff(s[|line| + 1..]);
      assert s == line + [s[|line|]] + s[|line| + 1..];
    } else {
      assert s == line;
    }
  }

  /** Any other content gives an instruction exactly if there is something to see. */
  lemma InstructionIsEmptyIff(content: string)
    requires !StartsWith(FirstLine(content), "Q: ")
    ensures Instruction(content) == "" <==> forall c | c in content :: IsSpace(c)
  {
    FirstVisibleEmptyIff(content);
  }

  // ----- the records

  datatype Record = Record(instruction: string, output: Note, provenance: seq<(nat, Channel, int)>)

  ghost predicate ProvenanceOf(s: State, x: nat, prov: seq<(nat, Channel, int)>) {
    && Ordering.Lists(seq(|prov|, i requires 0 <= i < |prov| => prov[i].0), s.nodes.Keys * Parents(s.edges, x), LabelKey(s.nodes))
    && forall i | 0 <= i < |prov| ::
      prov[i].0 in s.nodes && prov[i].1 == s.nodes[prov[i].0].channel && prov[i].2 == s.nodes[prov[i].0].integrity
  }

  /** has_live_ancestor_channel, asked for the external channel. */
  method AskLiveExternalAncestor(st: Store, x: nat) returns (b: bool)
    ensures b == HasLiveExternalAncestor(st.Snapshot(), x)
  {
    var anc := RecursiveUnion(Up(st.edges), Parents(st.edges, x));
    b := exists a | a in anc :: a in st.nodes && st.nodes[a].channel == External && !st.nodes[a].tombstoned;
  }

  /** The record of one exported row: the instruction in its stored text, its content, and
      its immediate parents. */
  ghost predicate RecordOf(s: State, x: nat, text: Note -> string, rec: Record) {
    && x in s.nodes && rec.output == s.nodes[x].content && rec.instruction == Instruction(text(s.nodes[x].content))
    && ProvenanceOf(s, x, rec.provenance)
  }

  method BuildRecord(st: Store, x: nat, text: Note -> string) returns (rec: Record)
    requires x in st.nodes
    ensures RecordOf(st.Snapshot(), x, text, rec)
  {
    var parents := st.ParentsOf(x);
    var prov := ProvenanceRows(st.nodes, parents);
    assert seq(|prov|, j requires 0 <= j < |prov| => prov[j].0) == parents;
    rec := Record(Instruction(text(st.nodes[x].content)), st.nodes[x].content, prov);
  }

  /** export_training: exactly the selected rows, in id order, each with its record.
      A floor outside 0..3 is refused. `text` is the stored text of a note. */
  method ExportTraining(st: Store, floor: int, text: Note -> string) returns (r: Result<(seq<nat>, seq<Record>), Error>)
    ensures r.Err? <==> !(0 <= floor <= 3)
    ensures r.Ok? ==>
      && Ordering.Lists(r.value.0, Exported(st.Snapshot(), floor), IdKey(st.nodes))
      && |r.value.1| == |r.value.0|
      && forall i | 0 <= i < |r.value.0| :: RecordOf(st.Snapshot(), r.value.0[i], text, r.value.1[i])
    ensures r.Ok? ==>
      && (forall x :: x in r.value.0 <==> x in st.nodes && IsExportable(st.Snapshot(), x, floor))
      && (forall i, j | 0 <= i < j < |r.value.0| :: r.value.0[i] < r.value.0[j])
  {
    if floor < 0 || 3 < floor {
      return Err(IntegrityFloorOutOfRange);
    }
    ghost var s := st.Snapshot();
    var candidates := PassesFloor(State(st.nodes, st.edges, st.nextId), floor);
    var rows := Ordering.OrderBy(candidates, IdKey(st.nodes));
    var ids: seq<nat>, records: seq<Record> := [], [];
    ExportStart(s, rows, text);
    for i := 0 to |rows|
      invariant Exporting(s, rows, i, ids, records, text)
    {
      assert rows[i] in candidates;
      assert rows[i] in st.nodes;
      hide *;
      var external := AskLiveExternalAncestor(st, rows[i]);
      ExportStep(s, rows, i, ids, records, text);
      if !external {
        var rec := BuildRecord(st, rows[i], text);
        ids, records := ids + [rows[i]], records + [rec];
      }
    }
    ExportEnd(s, rows, ids, records, text, floor);
    ExportedIs(s, ids, floor);
    r := Ok((ids, records));
  }

  /** The loop of export_training after `i` rows. */
  ghost predicate Exporting(s: State, rows: seq<nat>, i: nat, ids: seq<nat>, records: seq<Record>, text: Note -> string)
    requires i <= |rows|
  {
    && |records| == |ids| && (forall j, k | 0 <= j < k < |rows| :: rows[j] < rows[k])
    && (forall x :: x in ids <==> x in rows[..i] && !HasLiveExternalAncestor(s, x))
    && (forall j, k | 0 <= j < k < |ids| :: ids[j] < ids[k])
    && (forall j | 0 <= j < |ids| :: RecordOf(s, ids[j], text, records[j]))
  }

  lemma ExportStart(s: State, rows: seq<nat>, text: Note -> string)
    requires forall j, k | 0 <= j < k < |rows| :: rows[j] < rows[k]
    ensures Exporting(s, rows, 0, [], [], text)
  {
  }

  lemma ExportStep(s: State, rows: seq<nat>, i: nat, ids: seq<nat>, records: seq<Record>, text: Note -> string)
    requires i < |rows| && Exporting(s, rows, i, ids, records, text)
    ensures HasLiveExternalAncestor(s, rows[i]) ==> Exporting(s, rows, i + 1, ids, records, text)
    ensures forall rec | RecordOf(s, rows[i], text, rec) && !HasLiveExternalAncestor(s, rows[i]) ::
      Exporting(s, rows, i + 1, ids + [rows[i]], records + [rec], text)
  {
    hide HasLiveExternalAncestor, RecordOf;
    assert rows[..i + 1] == rows[..i] + [rows[i]];
    forall j | 0 <= j < |ids| ensures ids[j] < rows[i] {
      assert ids[j] in ids;
      assert ids[j] in rows[..i];
    }
  }

  lemma ExportEnd(s: State, rows: seq<nat>, ids: seq<nat>, records: seq<Record>, text: Note -> string, floor: int)
    requires Exporting(s, rows, |rows|, ids, records, text) && Ordering.Lists(rows, PassesFloor(s, floor), IdKey(s.nodes))
    ensures Ordering.Lists(ids, Exported(s, floor), IdKey(s.nodes))
    ensures |records| == |ids| && forall i | 0 <= i < |ids| :: RecordOf(s, ids[i], text, records[i])
  {
    hide HasLiveExternalAncestor, RecordOf;
    assert rows[..|rows|] == rows;
  }

  function ProvenanceRows(nodes: map<nat, Row>, ids: seq<nat>): (prov: seq<(nat, Channel, int)>)
    requires forall x | x in ids :: x in nodes
    ensures |prov| == |ids|
    ensures forall i | 0 <= i < |ids| :: prov[i] == (ids[i], nodes[ids[i]].channel, nodes[ids[i]].integrity)
  {
    seq(|ids|, i requires 0 <= i < |ids| => (ids[i], nodes[ids[i]].channel, nodes[ids[i]].integrity))
  }

  /** Source labels taken from their channels, as the mint point does: no insert
      gives a label of its own. */
  ghost predicate ChannelLabels(steps: seq<Step>) {
    forall i | 0 <= i < |steps| && steps[i].Insert? :: steps[i].given.None?
  }

  lemma {:induction false} RootsKeepChannelLabels(steps: seq<Step>, trace: seq<State>, i: nat, r: nat)
    requires IsRun(steps, trace) && i <= |steps| && ChannelLabels(steps)
    requires r in trace[i].nodes && Parentless(trace[i], r)
    ensures trace[i].nodes[r].integrity == Rank(trace[i].nodes[r].channel)
  {
    if i > 0 {
      RunsKeepInv(steps, trace, i - 1);
      var s, t := trace[i - 1], trace[i];
      var step := steps[i - 1];
      assert Next(s, step, t);
      if step.Derive? && Derivable(s, step.parents) {
        DeriveParentless(s, step, t, r);
      }
      if r in s.nodes && Parentless(s, r) {
        RootsKeepChannelLabels(steps, trace, i - 1, r);
      }
    }
  }

  lemma DeriveParentless(s: State, step: Step, t: State, r: nat)
    requires Inv(s) && step.Derive? && Derivable(s, step.parents) && Next(s, step, t)
    requires r in t.nodes && Parentless(t, r)
    ensures r in s.nodes && Parentless(s, r) && t.nodes[r] == s.nodes[r]
  {
    var l, c :|
      && IsLeast(l, Labels(s, Ids(step.parents)))
      && IsGreatest(c, Confs(s, Ids(step.parents)))
      && t == Derived(s, step.content, Ids(step.parents), l, c, step.now);
    DerivedParents(s, step.content, step.parents, l, c, step.now);
    assert step.parents[0] in Ids(step.parents);
  }

  /** No external row is inserted with a label at or over the floor. */
  ghost predicate ExternalsBelow(steps: seq<Step>, floor: int) {
    forall i | 0 <= i < |steps| && steps[i].Insert? && steps[i].channel == External ::
      (if steps[i].given.Some? then steps[i].given.value else Rank(External)) < floor
  }

  lemma {:induction false} ExternalRootsBelow(steps: seq<Step>, trace: seq<State>, i: nat, r: nat, floor: int)
    requires IsRun(steps, trace) && i <= |steps| && ExternalsBelow(steps, floor)
    requires r in trace[i].nodes && Parentless(trace[i], r) && trace[i].nodes[r].channel == External
    ensures trace[i].nodes[r].integrity < floor
  {
    if i > 0 {
      RunsKeepInv(steps, trace, i - 1);
      var s, t := trace[i - 1], trace[i];
      var step := steps[i - 1];
      assert Next(s, step, t);
      if step.Derive? && Derivable(s, step.parents) {
        DeriveParentless(s, step, t, r);
      }
      if r in s.nodes && Parentless(s, r) {
        ExternalRootsBelow(steps, trace, i - 1, r, floor);
      }
    }
  }

  /** When no external row was given a label at or over the floor, a row at or over it has
      no external ancestor, live or dead; with labels taken from channels that is so of
      every floor from 1. */
  lemma FloorExcludesExternal(steps: seq<Step>, trace: seq<State>, i: nat, x: nat, a: nat, floor: int)
    requires IsRun(steps, trace) && i <= |steps| && ExternalsBelow(steps, floor)
    requires x in trace[i].nodes && trace[i].nodes[x].integrity >= floor
    requires a in trace[i].nodes && Ancestor(trace[i], x, a)
    ensures trace[i].nodes[a].channel != External
  {
    var s := trace[i];
    RunsKeepInv(steps, trace, i);
    AncestorIsProperDescent(s, x, a);
    LabelBoundsAncestors(s, a, x);
    if s.nodes[a].channel == External {
      assert Parentless(s, a);
      ExternalRootsBelow(steps, trace, i, a, floor);
    }
  }

  lemma ChannelLabelsAreBelow(steps: seq<Step>, floor: int)
    requires ChannelLabels(steps) && floor >= 1
    ensures ExternalsBelow(steps, floor)
  {
  }

  /** So at such a floor the export's ancestor check removes nothing. */
  lemma FloorDecidesTheExport(steps: seq<Step>, trace: seq<State>, i: nat, floor: int)
    requires IsRun(steps, trace) && i <= |steps| && ExternalsBelow(steps, floor)
    ensures Exported(trace[i], floor) == PassesFloor(trace[i], floor)
  {
    var s := trace[i];
    forall x | x in PassesFloor(s, floor) ensures !HasLiveExternalAncestor(s, x) {
      if HasLiveExternalAncestor(s, x) {
        var a :| a in s.nodes && Ancestor(s, x, a) && s.nodes[a].channel == External;
        FloorExcludesExternal(steps, trace, i, x, a, floor);
      }
    }
  }

  /** For a live node of a channel-labelled run the ancestor check and the floor are
      the same test, unless the node is itself a source: derived nodes have an
      external ancestor, necessarily live, exactly when their label is 0. */
  lemma ExternalAncestorIffLabelZero(steps: seq<Step>, trace: seq<State>, i: nat, x: nat)
    requires IsRun(steps, trace) && i <= |steps| && ChannelLabels(steps)
    requires x in trace[i].nodes && !trace[i].nodes[x].tombstoned && trace[i].nodes[x].channel == AgentDerived
    ensures HasLiveExternalAncestor(trace[i], x) <==> trace[i].nodes[x].integrity <= 0
  {
    var s := trace[i];
    RunsKeepInv(steps, trace, i);
    if HasLiveExternalAncestor(s, x) {
      var a :| a in s.nodes && Ancestor(s, x, a) && s.nodes[a].channel == External;
      ChannelLabelsAreBelow(steps, 1);
      if s.nodes[x].integrity >= 1 { FloorExcludesExternal(steps, trace, i, x, a, 1); }
    }
    if s.nodes[x].integrity <= 0 {
      var r := LabelHasRoot(s, x);
      RootsKeepChannelLabels(steps, trace, i, r);
      assert s.nodes[r].channel == External;
      AncestorIsProperDescent(s, x, r);
      LiveDownward(s, r, x);
    }
  }

  /** So in every state of a channel-labelled run the ancestor check never removes
      a row that passed a floor of at least 1, and at floor 0 it removes exactly
      the rows a floor of 1 would have: floors 0 and 1 export the same rows. */
  lemma ExportChecksAreRedundant(steps: seq<Step>, trace: seq<State>, i: nat, floor: int)
    requires IsRun(steps, trace) && i <= |steps| && ChannelLabels(steps)
    ensures floor >= 1 ==> Exported(trace[i], floor) == PassesFloor(trace[i], floor)
    ensures Exported(trace[i], 0) == Exported(trace[i], 1)
  {
    var s := trace[i];
    forall x | x in PassesFloor(s, floor) || x in PassesFloor(s, 0)
      ensures HasLiveExternalAncestor(s, x) <==> s.nodes[x].integrity <= 0
    {
      ExternalAncestorIffLabelZero(steps, trace, i, x);
    }
    forall x | x in PassesFloor(s, 1) ensures x in PassesFloor(s, 0) && !HasLiveExternalAncestor(s, x) { }
    if floor >= 1 { assert Exported(s, floor) == PassesFloor(s, floor); }
  }

  /** Why both checks are kept: a source inserted with an elevated label passes any
      floor on to what is derived from it, and only the ancestor check refuses that. */
  lemma ElevatedSourceNeedsTheAncestorCheck(content: Note, now: int, floor: int)
    requires 0 <= floor <= 3
    ensures exists steps, trace ::
      && |steps| == 2 && IsRun(steps, trace)
      && 2 in PassesFloor(trace[2], floor) && 2 !in Exported(trace[2], floor)
  {
    var s1 := Inserted(EMPTY, NewRow(content, External, floor, None, now));
    var s2 := Derived(s1, content, {1}, floor, 0, now);
    var steps := [Insert(content, External, Some(floor), None, now), Derive(content, [1], now)];
    var trace := [EMPTY, s1, s2];
    assert Ids([1]) == {1};
    assert Labels(s1, {1}) == {floor} && Confs(s1, {1}) == {0};
    assert Next(s1, steps[1], s2);
    assert IsRun(steps, trace);
    assert Edge(2, 1) in s2.edges;
    assert 1 in Parents(s2.edges, 2);
    ReachesSelf(Up(s2.edges), 1);
    assert Ancestor(s2, 2, 1);
    assert HasLiveExternalAncestor(s2, 2);
    assert 2 in PassesFloor(trace[2], floor);
  }

  /** Reclassifying a source does not reach what was derived from it: a public answer from
      a source that is made secret afterwards stays public and is still exported. */
  lemma ReclassifiedSourceLeavesItsAnswerPublic(content: Note, now: int) returns (steps: seq<Step>, trace: seq<State>)
    ensures
      && |steps| == 3 && IsRun(steps, trace)
      && 1 in trace[3].nodes && trace[3].nodes[1].conf == 2 && 2 in trace[3].nodes && Edge(2, 1) in trace[3].edges
      && 2 in Exported(trace[3], 1)
  {
    var s1 := Inserted(EMPTY, NewRow(content, User, 2, None, now));
    var s2 := Derived(s1, content, {1}, 2, 0, now);
    var s3 := s2.(nodes := s2.nodes[1 := s2.nodes[1].(conf := 2)]);
    steps := [Insert(content, User, None, None, now), Derive(content, [1], now), Classify(1, 2)];
    trace := [EMPTY, s1, s2, s3];
    assert Ids([1]) == {1};
    assert Labels(s1, {1}) == {2} && Confs(s1, {1}) == {0};
    assert Next(s1, steps[1], s2);
    assert Next(s2, steps[2], s3);
    assert IsRun(steps, trace);
    assert ExternalsBelow(steps, 1);
    FloorDecidesTheExport(steps, trace, 3, 1);
    assert 2 in PassesFloor(s3, 1);
  }
}
