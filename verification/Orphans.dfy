/** Runs in which an import leaves the DAG or the store short of what one would expect:
    an edited file orphans the answers drawn from it, and a file whose stem reads as an
    index literal's never settles. */
module Orphans {
  import opened Base
  import opened Frontmatter
  import opened Dag
  import opened DagRuns
  import opened MemoryTree
  import opened Filing
  import opened Importer
  import opened Reconciled
  import opened Reimport
  import Facts
  import Healing
  import Literals
  import Ordering

  /** No curated index and no anti-creep rule. */
  function Simple(hash: Note -> int): Settings {
    Settings(map[], false, hash)
  }

  function FileNamed(name: string, text: string): Entry {
    Entry(Path([], name), File(Plain(text), 1, 1))
  }

  /** A file without frontmatter in the top directory is stored as it is. */
  lemma StoredAsIs(hash: Note -> int, name: string, text: string, existing: Option<Row>)
    requires existing.Some? ==> existing.value.content.lines == []
    ensures StampedFor(Simple(hash), FileNamed(name, text), existing) == Plain(text)
  {
    var e := FileNamed(name, text);
    assert FirstMeta([]) == 0 && Flatten([]) == [] && TopLevel([]) == map[];
    assert Flat(e.file.raw.lines) == map[];
    var m := MetaFor(Simple(hash), e, existing);
    assert m == Meta(None, None, None, None);
    var kv := StampsFor(m, []);
    assert kv[1..][1..][1..][1..][1..] == [];
    assert Added(kv) == [];
  }

  /** The node of a new file. */
  function RowOf(hash: Note -> int, name: string, text: string, now: int): Row {
    MintedRow(Simple(hash), FileNamed(name, text), None, now)
  }

  /** The store after one new file. */
  lemma FirstImport(hash: Note -> int, name: string, text: string, now: int)
    ensures var e := FileNamed(name, text);
      AfterImport(Simple(hash), EMPTY, [e], [], now) == Inserted(EMPTY, RowOf(hash, name, text, now))
    ensures Gone(map[], {name}) == {}
  {
    var e := FileNamed(name, text);
    var row := MintedRow(Simple(hash), e, None, now);
    var t := Inserted(EMPTY, row);
    assert LiveSet(map[], name) == {};
    assert [e][..0] == [];
    assert AfterFiles(Simple(hash), EMPTY, [], now) == EMPTY;
    assert AfterFiles(Simple(hash), EMPTY, [e], now) == t;
    MintedFor(Simple(hash), e, None, now);
    assert e in [e] && name in Names([e]);
    NothingGone(t, Names([e]), now);
  }

  // ----- an edit orphans what was derived

  const NOTE := FileNamed("x.md", "a")
  const EDITED := FileNamed("x.md", "bb")

  /** After the import of the file and a derivation from its node. */
  function Drawn(hash: Note -> int): State {
    Derived(Inserted(EMPTY, RowOf(hash, "x.md", "a", 1)), Plain("answer"), {1}, 2, 0, 2)
  }

  /** The node of the note. */
  ghost predicate IsNoteRow(hash: Note -> int, r: Row) {
    && r.content == Plain("a") && r.integrity == 2 && r.conf == 0 && r.channel == User
    && r.bridgePath == Some("x.md") && !r.tombstoned && !r.redacted && !r.quarantined && !r.archived
    && r.contentHash == Some(hash(Plain("a")))
  }

  lemma NoteChannel()
    ensures ChannelFor(Stem("x.md"), Flat(Plain("a").lines)) == User
  {
    assert FirstMeta([]) == 0 && Flatten([]) == [] && TopLevel([]) == map[];
    assert Stem("x.md") == "x" && PrefixBefore("x", '_') == "x";
  }

  lemma NoteRow(hash: Note -> int)
    ensures IsNoteRow(hash, RowOf(hash, "x.md", "a", 1))
  {
    NoteChannel();
    StoredAsIs(hash, "x.md", "a", None);
    MintedFor(Simple(hash), NOTE, None, 1);
    hide StampedFor, MetaFor, ChannelFor, Stem, Flat;
  }

  lemma DrawnIs(hash: Note -> int)
    ensures var s1 := Inserted(EMPTY, RowOf(hash, "x.md", "a", 1));
      Inv(s1) && DagRuns.Next(s1, Derive(Plain("answer"), [1], 2), Drawn(hash)) && Inv(Drawn(hash))
  {
    var s1 := Inserted(EMPTY, RowOf(hash, "x.md", "a", 1));
    NoteRow(hash);
    hide RowOf;
    assert Ids([1]) == {1};
    assert Labels(s1, {1}) == {2} && Confs(s1, {1}) == {0};
    EmptyEdges(s1);
    assert Derivable(s1, [1]);
    var t := Drawn(hash);
    assert IsLeast(2, Labels(s1, Ids([1]))) && IsGreatest(0, Confs(s1, Ids([1]))) && t == Derived(s1, Plain("answer"), Ids([1]), 2, 0, 2);
    hide Drawn, Inv;
    NextKeeps(s1, Derive(Plain("answer"), [1], 2), t);
  }

  lemma EmptyEdges(s: State)
    requires s.edges == {} && Counted(s)
    ensures Inv(s)
  {
  }

  /** The two rows before the edit, and the edge between them. */
  lemma DrawnTable(hash: Note -> int)
    ensures var s := Drawn(hash);
      && s.nodes.Keys == {1, 2} && IsNoteRow(hash, s.nodes[1]) && s.edges == {Edge(2, 1)} && s.nextId == 3
      && s.nodes[2].bridgePath.None? && s.nodes[2].sourceRef.None? && !s.nodes[2].tombstoned
  {
    NoteRow(hash);
    hide RowOf, IsNoteRow;
    var s := Drawn(hash);
    assert forall e | e in s.edges :: e == Edge(2, 1);
    assert Edge(2, 1) in s.edges;
  }

  /** Importing the edited file supersedes node 1 and sweeps nothing. */
  lemma EditSupersedes(hash: Note -> int)
    requires hash(Plain("a")) != hash(Plain("bb"))
    ensures var s := Drawn(hash);
      SupersededBy(Simple(hash), s.nodes, [EDITED], 1) && Gone(s.nodes, Names([EDITED])) == {}
      && Filed(s.nodes) && Counted(s) && Outlives(s, [EDITED], 2)
  {
    var s := Drawn(hash);
    DrawnTable(hash);
    hide Drawn;
    OneName(hash, s);
    EditIsAnUpdate(hash, s);
    assert EDITED in [EDITED];
    hide VerdictIn, ExistingId;
  }

  lemma OneName(hash: Note -> int, s: State)
    requires s.nodes.Keys == {1, 2} && IsNoteRow(hash, s.nodes[1]) && s.nodes[2].bridgePath.None?
    ensures LiveSet(s.nodes, "x.md") == {1} && Gone(s.nodes, Names([EDITED])) == {} && Filed(s.nodes)
  {
    assert EDITED in [EDITED] && "x.md" in Names([EDITED]);
    assert TopLevel([]) == map[];
    assert forall id | id in LiveFileRows(s.nodes) :: id == 1;
    forall id ensures id in LiveSet(s.nodes, "x.md") <==> id == 1 { }
  }

  lemma EditIsAnUpdate(hash: Note -> int, s: State)
    requires hash(Plain("a")) != hash(Plain("bb"))
    requires 1 in s.nodes && IsNoteRow(hash, s.nodes[1]) && LiveSet(s.nodes, "x.md") == {1}
    ensures VerdictIn(Simple(hash), s.nodes, EDITED) == Update && ExistingId(s.nodes, "x.md") == Some(1)
  {
    assert IsNewest(s.nodes, "x.md", 1);
    ExistingUnique(s.nodes, "x.md", 1);
    StoredAsIs(hash, "x.md", "bb", Some(s.nodes[1]));
    hide StampedFor, ExistingId;
  }

  /** With any hash that tells the two texts apart, the run: import a file, derive an answer from its node, import the edited file. The
      answer is alive and its parent is dead. */
  lemma EditedFileOrphansItsAnswer(hash: Note -> int) returns (steps: seq<Facts.Step>, trace: seq<State>)
    requires hash(Plain("a")) != hash(Plain("bb"))
    ensures |steps| == 3 && Facts.IsRun(hash, steps, trace)
    ensures Inv(trace[2]) && WellFormed(trace[3]) && !LiveOnLive(trace[3])
  {
    var s := Drawn(hash);
    var s1 := Inserted(EMPTY, RowOf(hash, "x.md", "a", 1));
    var u := AfterImport(Simple(hash), s, [EDITED], [], 3);
    OneFile(EDITED);
    hide *;
    DrawnTable(hash);
    DrawnIs(hash);
    EditSupersedes(hash);
    NothingListed(s);
    ImportKeepsLivenessIff(Simple(hash), s, [EDITED], [], 3);
    assert Edge(2, 1) in s.edges;
    FirstStep(hash);
    steps, trace := ThreeSteps(hash, s1, s, u);
  }

  lemma ThreeSteps(hash: Note -> int, s1: State, s: State, u: State) returns (steps: seq<Facts.Step>, trace: seq<State>)
    requires Facts.Next(EMPTY, Facts.Import([NOTE], Simple(hash), [], 1), s1)
    requires DagRuns.Next(s1, Derive(Plain("answer"), [1], 2), s)
    requires u == AfterImport(Simple(hash), s, [EDITED], [], 3) && Gone(s.nodes, Names([EDITED])) == {}
    ensures |steps| == 3 && Facts.IsRun(hash, steps, trace) && trace == [EMPTY, s1, s, u]
  {
    hide Gone, AfterImport, DagRuns.Next;
    OneFile(EDITED);
    NothingListed(s);
    steps := [Facts.Import([NOTE], Simple(hash), [], 1), Facts.Other(Derive(Plain("answer"), [1], 2)), Facts.Import([EDITED], Simple(hash), [], 3)];
    trace := [EMPTY, s1, s, u];
    assert Facts.Next(s1, steps[1], s);
    assert Facts.Next(s, steps[2], u);
    hide Facts.Next;
  }

  lemma NothingListed(s: State)
    ensures Ordering.Lists([], {}, IdKey(s.nodes))
  {
  }

  lemma OneFile(e: Entry)
    requires !e.file.raw.hadFm && e.file.raw.lines == []
    ensures Healing.DistinctNames([e]) && forall x | x in [e] :: Split(x)
  {
  }

  lemma FirstStep(hash: Note -> int)
    ensures Facts.Next(EMPTY, Facts.Import([NOTE], Simple(hash), [], 1), Inserted(EMPTY, RowOf(hash, "x.md", "a", 1)))
  {
    FirstImport(hash, "x.md", "a", 1);
    OneFile(NOTE);
    hide AfterImport, RowOf;
    var id := FirstRun(hash, [NOTE], 0);
  }

  // ----- a stem that reads as an index literal's

  const ODD := FileNamed("literal:x.md", "a")
  const KEPT := FileNamed("y.md", "b")

  const NO_LINES := Literals.Wanted([], map[])

  lemma OddStem()
    ensures Stem("literal:x.md") == "literal:x" && LiteralStem("literal:x.md")
  {
    assert Lower("literal:x") == "literal:x";
    assert "literal:x"[..8] == "literal:";
  }

  lemma TwoFiles()
    ensures Healing.DistinctNames([ODD, KEPT]) && forall x | x in [ODD, KEPT] :: Split(x)
    ensures Names([ODD, KEPT]) == {"literal:x.md", "y.md"} && Names([KEPT]) == {"y.md"} && Names([ODD]) == {"literal:x.md"}
  {
    assert ODD in [ODD, KEPT] && KEPT in [ODD, KEPT] && KEPT in [KEPT] && ODD in [ODD];
    assert "literal:x.md" != "y.md" by { assert |"y.md"| == 4; }
  }

  lemma EmptyStore(st: Settings, files: seq<Entry>)
    ensures AfterImport(st, EMPTY, files, [], 1) == Imported(st, EMPTY, files, 1)
    ensures Gone(EMPTY.nodes, Names(files)) == {} && Counted(EMPTY) && OneLivePerPath(EMPTY.nodes)
    ensures Runnable(EMPTY.nodes, files)
    ensures forall rel :: LiveSet(EMPTY.nodes, rel) == {}
  {
    hide Imported;
  }

  lemma NewFile(st: Settings, e: Entry)
    ensures VerdictIn(st, EMPTY.nodes, e) == Create
  {
    assert LiveSet(EMPTY.nodes, e.path.name) == {};
    hide StampedFor;
  }

  /** A first import, of any files, into an empty store. */
  lemma FirstRun(hash: Note -> int, files: seq<Entry>, k: nat) returns (id: nat)
    requires Healing.DistinctNames(files) && (forall x | x in files :: Split(x)) && k < |files|
    ensures Facts.Next(EMPTY, Facts.Import(files, Simple(hash), [], 1), AfterImport(Simple(hash), EMPTY, files, [], 1))
    ensures LiveSet(AfterImport(Simple(hash), EMPTY, files, [], 1).nodes, files[k].path.name) == {id}
  {
    var st := Simple(hash);
    hide *;
    EmptyStore(st, files);
    NewFile(st, files[k]);
    FirstRunIsNext(hash, files);
    EveryFileHasItsNode(st, EMPTY, files, 1, k);
    id :| LiveSet(Imported(st, EMPTY, files, 1).nodes, files[k].path.name) == {id};
  }

  lemma FirstRunIsNext(hash: Note -> int, files: seq<Entry>)
    requires Healing.DistinctNames(files) && forall x | x in files :: Split(x)
    requires Gone(EMPTY.nodes, Names(files)) == {} && Runnable(EMPTY.nodes, files)
    ensures Facts.Next(EMPTY, Facts.Import(files, Simple(hash), [], 1), AfterImport(Simple(hash), EMPTY, files, [], 1))
  {
    NothingListed(EMPTY);
    hide AfterImport, Gone, Runnable, Healing.DistinctNames;
  }

  /** No live row of the store is one whose file the second import misses. */
  lemma NothingMissed(hash: Note -> int, s: State)
    requires Facts.Chain(hash, s)
    requires forall x | x in s.nodes :: s.nodes[x].bridgePath.Some? && s.nodes[x].bridgePath.value in {"literal:x.md", "y.md"}
    ensures Gone(s.nodes, {"y.md"}) == {}
  {
    OddStem();
    MemoryRef("literal:x");
    hide Facts.SamePath, LiteralStem, RefersTo;
    forall id ensures id !in Gone(s.nodes, {"y.md"}) {
      assert id in Gone(s.nodes, {"y.md"}) ==> id in LiveFileRows(s.nodes);
    }
  }

  /** literal:x.md is imported beside another file, then deleted: the import of what is left
      does not notice, and the node of the deleted file stays alive. */
  lemma DeletedLiteralStemStays(hash: Note -> int) returns (steps: seq<Facts.Step>, trace: seq<State>, id: nat)
    ensures |steps| == 2 && Facts.IsRun(hash, steps, trace) && steps[0].Import? && steps[1].Import?
    ensures Names(steps[0].files) == {"literal:x.md", "y.md"} && Names(steps[1].files) == {"y.md"}
    ensures id in LiveSet(trace[1].nodes, "literal:x.md") && id in LiveSet(trace[2].nodes, "literal:x.md")
  {
    var s := AfterImport(Simple(hash), EMPTY, [ODD, KEPT], [], 1);
    TwoFiles();
    id := FirstRun(hash, [ODD, KEPT], 0);
    assert id in LiveSet(s.nodes, "literal:x.md");
    hide *;
    FirstRunIsARun(hash, [ODD, KEPT], s);
    RowsOfTheFirstRun(hash, [ODD, KEPT], s);
    NothingMissed(hash, s);
    steps, trace := WithoutTheFile(hash, s, id);
  }

  lemma WithoutTheFile(hash: Note -> int, s: State, id: nat) returns (steps: seq<Facts.Step>, trace: seq<State>)
    requires Facts.Next(EMPTY, Facts.Import([ODD, KEPT], Simple(hash), [], 1), s)
    requires Gone(s.nodes, {"y.md"}) == {} && id in LiveSet(s.nodes, "literal:x.md")
    ensures |steps| == 2 && Facts.IsRun(hash, steps, trace) && steps[0].Import? && steps[1].Import?
    ensures steps[0].files == [ODD, KEPT] && steps[1].files == [KEPT] && |trace| == 3 && trace[1] == s
    ensures Names(steps[1].files) == {"y.md"} && id in LiveSet(trace[2].nodes, "literal:x.md")
  {
    var st := Simple(hash);
    hide AfterImport, Gone, LiveSet, Facts.Next, Facts.IsRun, Names;
    TwoFiles();
    SecondRun(hash, s);
    steps := [Facts.Import([ODD, KEPT], st, [], 1), Facts.Import([KEPT], st, [], 2)];
    trace := [EMPTY, s, AfterImport(st, s, [KEPT], [], 2)];
    TwoSteps(hash, steps, trace);
    NamesDiffer();
    StillThere(hash, steps, trace, id);
  }

  lemma NamesDiffer()
    ensures "literal:x.md" !in {"y.md"}
  {
    assert |"y.md"| == 4;
  }

  lemma FirstRunIsARun(hash: Note -> int, files: seq<Entry>, s: State)
    requires Facts.Next(EMPTY, Facts.Import(files, Simple(hash), [], 1), s)
    ensures Facts.Chain(hash, s) && Facts.CreatedBy(s, 2)
  {
    var steps := [Facts.Import(files, Simple(hash), [], 1)];
    assert Facts.IsRun(hash, steps, [EMPTY, s]) by { hide Facts.Next; }
    Facts.RunKeepsChain(hash, steps, [EMPTY, s], 1);
    Facts.EmptyChain(hash);
    hide Facts.Chain, AfterImport;
    Facts.ImportKeepsChain(hash, EMPTY, files, Simple(hash), [], 1);
    Facts.LaterClock(s, 1);
  }

  lemma RowsOfTheFirstRun(hash: Note -> int, files: seq<Entry>, s: State)
    requires s == AfterImport(Simple(hash), EMPTY, files, [], 1) && Healing.DistinctNames(files)
    ensures forall x | x in s.nodes :: s.nodes[x].bridgePath.Some? && s.nodes[x].bridgePath.value in Names(files)
  {
    EmptyStore(Simple(hash), files);
    hide Imported, MintedBy, AfterImport;
    forall x | x in s.nodes ensures s.nodes[x].bridgePath.Some? && s.nodes[x].bridgePath.value in Names(files) {
      ImportRowFate(Simple(hash), EMPTY, files, 1, x);
      MintedShape(Simple(hash), EMPTY, files, 1, s.nodes[x]);
    }
  }

  lemma SecondRun(hash: Note -> int, s: State)
    requires Gone(s.nodes, {"y.md"}) == {}
    ensures Facts.Next(s, Facts.Import([KEPT], Simple(hash), [], 2), AfterImport(Simple(hash), s, [KEPT], [], 2))
  {
    TwoFiles();
    OneFile(KEPT);
    NothingListed(s);
    hide AfterImport, Gone;
  }

  lemma TwoSteps(hash: Note -> int, steps: seq<Facts.Step>, trace: seq<State>)
    requires |steps| == 2 && |trace| == 3 && trace[0] == EMPTY
    requires Facts.Next(trace[0], steps[0], trace[1]) && Facts.Next(trace[1], steps[1], trace[2])
    requires steps[0].Import? && steps[0].st.hash == hash && steps[1].Import? && steps[1].st.hash == hash && steps[0].now <= steps[1].now
    ensures Facts.IsRun(hash, steps, trace)
  {
    hide Facts.Next;
  }

  lemma StillThere(hash: Note -> int, steps: seq<Facts.Step>, trace: seq<State>, id: nat)
    requires |steps| == 2 && Facts.IsRun(hash, steps, trace) && steps[1].Import? && "literal:x.md" !in Names(steps[1].files)
    requires id in LiveSet(trace[1].nodes, "literal:x.md")
    ensures id in LiveSet(trace[2].nodes, "literal:x.md")
  {
    OddStem();
    Facts.RunKeepsChain(hash, steps, trace, 1);
    assert Facts.Next(trace[1], steps[1], trace[2]);
    Facts.VanishedRowSurvivesIff(hash, steps, trace, 1, id);
    hide Facts.IsRun, AfterImport, LiteralStem, Facts.SamePath;
    Facts.ImportGrows(trace[1], steps[1].files, steps[1].st, steps[1].swept, steps[1].now);
  }

  /** While it is there it never settles: the import of the lines kills its node, with no
      line asking for it, and the next import of the files takes it as new. */
  lemma LiteralStemNeverSettles(hash: Note -> int) returns (steps: seq<Facts.Step>, trace: seq<State>, id: nat)
    ensures |steps| == 2 && Facts.IsRun(hash, steps, trace)
    ensures steps[0].Import? && steps[0].files == [ODD] && steps[1] == Facts.Mirror(NO_LINES, hash, 2)
    ensures LiveSet(trace[1].nodes, "literal:x.md") == {id} && LiveSet(trace[2].nodes, "literal:x.md") == {}
    ensures VerdictIn(steps[0].st, trace[2].nodes, ODD) == Create
  {
    var st := Simple(hash);
    var s := AfterImport(st, EMPTY, [ODD], [], 1);
    var u := Literals.Mirrored(s, NO_LINES, hash, 2);
    hide *;
    OneFile(ODD);
    id := FirstRun(hash, [ODD], 0);
    FirstRunIsARun(hash, [ODD], s);
    RowsOfTheFirstRun(hash, [ODD], s);
    TwoFiles();
    KilledByTheLines(hash, s, id);
    TakenAsNew(hash, u);
    MirrorStep(hash, s);
    steps, trace := ImportThenMirror(hash, s);
  }

  lemma MirrorStep(hash: Note -> int, s: State)
    ensures Literals.Proper(NO_LINES)
    ensures Facts.Next(s, Facts.Mirror(NO_LINES, hash, 2), Literals.Mirrored(s, NO_LINES, hash, 2))
  {
  }

  lemma ImportThenMirror(hash: Note -> int, s: State) returns (steps: seq<Facts.Step>, trace: seq<State>)
    requires Facts.Next(EMPTY, Facts.Import([ODD], Simple(hash), [], 1), s) && Literals.Proper(NO_LINES)
    requires Facts.Next(s, Facts.Mirror(NO_LINES, hash, 2), Literals.Mirrored(s, NO_LINES, hash, 2))
    ensures steps == [Facts.Import([ODD], Simple(hash), [], 1), Facts.Mirror(NO_LINES, hash, 2)]
    ensures trace == [EMPTY, s, Literals.Mirrored(s, NO_LINES, hash, 2)] && Facts.IsRun(hash, steps, trace)
  {
    hide Facts.Next, Literals.Mirrored, Literals.Proper;
    steps := [Facts.Import([ODD], Simple(hash), [], 1), Facts.Mirror(NO_LINES, hash, 2)];
    trace := [EMPTY, s, Literals.Mirrored(s, NO_LINES, hash, 2)];
  }

  lemma TakenAsNew(hash: Note -> int, u: State)
    ensures LiveSet(u.nodes, "literal:x.md") == {} ==> VerdictIn(Simple(hash), u.nodes, ODD) == Create
  {
    hide StampedFor;
  }

  lemma KilledByTheLines(hash: Note -> int, s: State, id: nat)
    requires Facts.Chain(hash, s) && LiveSet(s.nodes, "literal:x.md") == {id}
    requires forall x | x in s.nodes :: s.nodes[x].bridgePath.Some? && s.nodes[x].bridgePath.value in {"literal:x.md"}
    ensures LiveSet(Literals.Mirrored(s, NO_LINES, hash, 2).nodes, "literal:x.md") == {}
  {
    MirrorStep(hash, s);
    OddStem();
    assert id in LiveSet(s.nodes, "literal:x.md");
    Literals.FileRowSurvivesIff(s, NO_LINES, hash, 2, id, "literal:x");
    Facts.MirrorGrows(s, NO_LINES, hash, 2);
    hide Literals.Mirrored, Facts.SamePath, LiteralStem;
    var u := Literals.Mirrored(s, NO_LINES, hash, 2).nodes;
    assert forall x | x in LiveSet(u, "literal:x.md") :: x in LiveSet(s.nodes, "literal:x.md");
  }
}
