/** Importing the same directory again; and what an import means for the DAG. */
module Reimport {
  import opened Base
  import opened Closure
  import opened Frontmatter
  import opened Dag
  import opened DagRuns
  import opened MemoryTree
  import opened Filing
  import opened Importer
  import opened Reconciled
  import Healing
  import Ordering

  // ----- the invariant of a store that only importers file into

  /** Live rows that stand for files are sources, and a held one has no section. */
  ghost predicate Filed(nodes: map<nat, Row>) {
    forall id | id in LiveFileRows(nodes) ::
      nodes[id].channel != AgentDerived && HeldMeansUnsectioned(TopLevel(nodes[id].content.lines))
  }

  /** A text without frontmatter has no frontmatter lines. */
  predicate Split(e: Entry) {
    !e.file.raw.hadFm ==> e.file.raw.lines == []
  }

  /** The metadata of a filed note, read back, is what a second filing resolves to. */
  lemma RefilingIsStable(st: Settings, e: Entry, existing: Option<Row>, row: Row)
    requires Split(e) && HeldMeansUnsectioned(PrevOf(existing))
    requires row.content == StampedFor(st, e, existing)
    ensures StampedFor(st, e, Some(row)) == StampedFor(st, e, existing)
    ensures HeldMeansUnsectioned(TopLevel(row.content.lines))
  {
    var m := MetaFor(st, e, existing);
    StampedReadsBack(e.file.raw, m, e.path.dir);
    FilingIsAFixpoint(st, e.path.name, Flat(e.file.raw.lines), PrevOf(existing), existing.Some?, TopLevel(row.content.lines));
  }

  lemma ExistingIsFiled(s: State, rel: string)
    requires Filed(s.nodes)
    ensures HeldMeansUnsectioned(PrevOf(ExistingRow(s.nodes, rel)))
  {
    var id := ExistingId(s.nodes, rel);
    if id.Some? { assert id.value in LiveFileRows(s.nodes); }
  }

  /** Every import keeps that invariant, so it holds after any number of them. */
  lemma ImportKeepsFiled(st: Settings, s: State, files: seq<Entry>, now: int)
    requires Counted(s) && Healing.DistinctNames(files) && Filed(s.nodes)
    requires forall e | e in files :: Split(e)
    ensures Filed(Imported(st, s, files, now).nodes)
  {
    var t := Imported(st, s, files, now).nodes;
    hide Imported, MintedBy, SupersededBy, VerdictIn, StampedFor, MintedRow, HeldMeansUnsectioned;
    forall id | id in LiveFileRows(t)
      ensures t[id].channel != AgentDerived && HeldMeansUnsectioned(TopLevel(t[id].content.lines))
    {
      ImportRowFate(st, s, files, now, id);
      if id in s.nodes {
        assert id in LiveFileRows(s.nodes);
      } else {
        MintedShape(st, s, files, now, t[id]);
        MintedIsHeldProperly(st, s, files, now, t[id]);
      }
    }
  }

  lemma MintedIsHeldProperly(st: Settings, s: State, files: seq<Entry>, now: int, row: Row)
    requires Filed(s.nodes) && MintedBy(st, s.nodes, files, now, row) && forall e | e in files :: Split(e)
    ensures HeldMeansUnsectioned(TopLevel(row.content.lines))
  {
    var e :| e in files && Writes(VerdictIn(st, s.nodes, e)) && row == MintedRow(st, e, ExistingRow(s.nodes, e.path.name), now);
    ExistingIsFiled(s, e.path.name);
    RefilingIsStable(st, e, ExistingRow(s.nodes, e.path.name), row);
  }

  // ----- the second run

  lemma SkippedNextTime(st: Settings, s: State, files: seq<Entry>, now: int, i: nat)
    requires Counted(s) && Healing.DistinctNames(files) && OneLivePerPath(s.nodes) && Filed(s.nodes) && i < |files|
    requires Split(files[i]) && VerdictIn(st, s.nodes, files[i]) != Refuse
    ensures VerdictIn(st, AfterFiles(st, s, files, now).nodes, files[i]) == Skip
  {
    var e := files[i];
    var rel := e.path.name;
    var t := AfterFiles(st, s, files, now).nodes;
    var old_ := ExistingRow(s.nodes, rel);
    assert OneLive(s.nodes, rel);
    var id := AfterFilesAt(st, s, files, now, i);
    hide AfterFiles, LiveSet;
    if Writes(VerdictIn(st, s.nodes, e)) {
      assert IsNewest(t, rel, id);
      ExistingUnique(t, rel, id);
      ExistingIsFiled(s, rel);
      MintedFor(st, e, old_, now);
      RefilingIsStable(st, e, old_, t[id]);
      hide StampedFor, MintedRow;
      assert VerdictFor(st, e, Some(t[id])) == Skip;
    } else {
      SameLookup(t, s.nodes, rel);
    }
  }

  /** The follow-up touches no file row but for its staleness columns. */
  lemma FollowUpKeepsFiles(t: State, swept: seq<nat>, now: int, rel: string)
    requires Filed(t.nodes)
    ensures var u := StaleAll(CascadeAll(t, swept, now), swept, now).nodes;
      && LiveSet(u, rel) == LiveSet(t.nodes, rel)
      && forall id | id in LiveSet(t.nodes, rel) ::
        u[id] == t.nodes[id].(stale := u[id].stale, staleAt := u[id].staleAt, staleReason := u[id].staleReason)
  {
    var c := CascadeAll(t, swept, now);
    var u := StaleAll(c, swept, now).nodes;
    CascadeKeepsPaths(t, swept, now);
    StaleKeepsPaths(c, swept, now);
    hide CascadeAll, StaleAll, HeldMeansUnsectioned;
    forall id | id in t.nodes
      ensures id in LiveSet(u, rel) <==> id in LiveSet(t.nodes, rel)
      ensures id in LiveSet(t.nodes, rel) ==>
        u[id] == t.nodes[id].(stale := u[id].stale, staleAt := u[id].staleAt, staleReason := u[id].staleReason)
    {
      CascadeKillsDerivedDescendants(t, swept, now, id);
      StalenessKillsNothing(c, swept, now, id);
      if id in LiveSet(t.nodes, rel) { assert id in LiveFileRows(t.nodes); }
    }
  }

  lemma VerdictIgnoresStaleness(st: Settings, e: Entry, a: Row, b: Row)
    requires b == a.(stale := b.stale, staleAt := b.staleAt, staleReason := b.staleReason)
    ensures VerdictFor(st, e, Some(a)) == VerdictFor(st, e, Some(b))
  {
  }

  lemma VerdictAfterFollowUp(st: Settings, t: State, swept: seq<nat>, now: int, e: Entry)
    requires Filed(t.nodes)
    ensures VerdictIn(st, StaleAll(CascadeAll(t, swept, now), swept, now).nodes, e) == VerdictIn(st, t.nodes, e)
  {
    var rel := e.path.name;
    var u := StaleAll(CascadeAll(t, swept, now), swept, now).nodes;
    FollowUpKeepsFiles(t, swept, now, rel);
    hide CascadeAll, StaleAll;
    var id := ExistingId(t.nodes, rel);
    if id.Some? {
      assert IsNewest(u, rel, id.value);
      ExistingUnique(u, rel, id.value);
      VerdictIgnoresStaleness(st, e, t.nodes[id.value], u[id.value]);
    }
  }

  lemma {:induction false} AllSkippedChangesNothing(st: Settings, s: State, files: seq<Entry>, now: int)
    requires forall e | e in files :: VerdictIn(st, s.nodes, e) == Skip
    ensures AfterFiles(st, s, files, now) == s
  {
    if files != [] {
      assert files[|files| - 1] in files;
      AllSkippedChangesNothing(st, s, files[..|files| - 1], now);
      hide VerdictFor;
    }
  }

  lemma NothingGone(s: State, present: set<string>, now: int)
    requires Gone(s.nodes, present) == {}
    ensures AfterSweep(s, present, now) == s
  {
    assert AfterSweep(s, present, now).nodes == s.nodes;
  }

  /** The store an applied import leaves, follow-up included. */
  ghost function AfterImport(st: Settings, s: State, files: seq<Entry>, swept: seq<nat>, now: int): State {
    StaleAll(CascadeAll(Imported(st, s, files, now), swept, now), swept, now)
  }

  lemma SecondRunSkipsAll(st: Settings, s: State, files: seq<Entry>, swept: seq<nat>, now: int)
    requires Counted(s) && Healing.DistinctNames(files) && OneLivePerPath(s.nodes) && Filed(s.nodes)
    requires forall e | e in files :: Split(e) && VerdictIn(st, s.nodes, e) != Refuse
    ensures forall e | e in files :: VerdictIn(st, AfterImport(st, s, files, swept, now).nodes, e) == Skip
  {
    var t := AfterFiles(st, s, files, now);
    var w := Imported(st, s, files, now);
    ImportKeepsFiled(st, s, files, now);
    hide AfterFiles, AfterSweep, CascadeAll, StaleAll, VerdictFor, LiveSet;
    forall e | e in files ensures VerdictIn(st, AfterImport(st, s, files, swept, now).nodes, e) == Skip {
      var i :| 0 <= i < |files| && files[i] == e;
      SkippedNextTime(st, s, files, now, i);
      SweepAt(t, Names(files), now, e.path.name);
      SameLookup(w.nodes, t.nodes, e.path.name);
      VerdictAfterFollowUp(st, w, swept, now, e);
    }
  }

  lemma SecondRunSweepsNothing(st: Settings, s: State, files: seq<Entry>, swept: seq<nat>, now: int)
    ensures Gone(AfterImport(st, s, files, swept, now).nodes, Names(files)) == {}
  {
    var t := Imported(st, s, files, now);
    var c := CascadeAll(t, swept, now);
    var u := AfterImport(st, s, files, swept, now);
    CascadeKeepsPaths(t, swept, now);
    StaleKeepsPaths(c, swept, now);
    hide AfterFiles, CascadeAll, StaleAll;
    forall id ensures id !in Gone(u.nodes, Names(files)) {
      if id in u.nodes {
        CascadeKillsDerivedDescendants(t, swept, now, id);
        StalenessKillsNothing(c, swept, now, id);
        if Sweepable(u.nodes[id]) { LiveMemoriesHaveFiles(st, s, files, now, id); }
      }
    }
  }

  lemma {:induction false} AllSkippedTally(st: Settings, nodes: map<nat, Row>, files: seq<Entry>, start: Stats)
    requires forall e | e in files :: VerdictIn(st, nodes, e) == Skip
    ensures OnlySkips(start, Tally(st, nodes, files, start), |files|)
  {
    if files == [] {
      TallyOfNone(st, nodes, start);
    } else {
      hide *;
      var n := |files| - 1;
      InFront(files);
      AllSkippedTally(st, nodes, files[..n], start);
      TallyAppend(st, nodes, files, n, start);
      SkipTallied(start, Tally(st, nodes, files[..n], start), n, BornIn(st, nodes, files[n]));
    }
  }

  lemma TallyOfNone(st: Settings, nodes: map<nat, Row>, start: Stats)
    ensures OnlySkips(start, Tally(st, nodes, [], start), 0)
  {
  }

  lemma InFront(files: seq<Entry>)
    requires files != []
    ensures var n := |files| - 1;
      files[n] in files && files[..n + 1] == files && forall e | e in files[..n] :: e in files
  {
  }

  /** Only the skip counter, and the count of files held back, went up. */
  predicate OnlySkips(a: Stats, b: Stats, n: nat) {
    b == a.(skipped := a.skipped + n, born := b.born)
  }

  lemma SkipTallied(start: Stats, stats: Stats, n: nat, born: bool)
    requires OnlySkips(start, stats, n)
    ensures OnlySkips(start, Tallied(stats, Skip, born), n + 1)
  {
  }

  /** Re-importing unchanged files with an unchanged index, when the first run refused
      none: the second run creates, updates, sweeps and heals nothing, and leaves the
      store exactly as the first run left it. */
  lemma ReimportIsANoop(st: Settings, s: State, disk: Disk, swept: seq<nat>, now: int, later: int)
    requires Counted(s) && OneLivePerPath(s.nodes) && Filed(s.nodes) && DistinctPaths(disk)
    requires forall e | e in MemoryFiles(disk) :: Split(e) && VerdictIn(st, s.nodes, e) != Refuse
    ensures var u := AfterImport(st, s, MemoryFiles(disk), swept, now);
      && MemoryFiles(Healed(disk)) == MemoryFiles(disk)
      && Imported(st, u, MemoryFiles(disk), later) == u
      && var again := ExpectedStats(st, u.nodes, Healed(disk));
        again == Stats(|MemoryFiles(disk)|, 0, 0, |MemoryFiles(disk)|, 0, 0, 0, 0, 0, again.born)
  {
    var files := MemoryFiles(disk);
    var u := AfterImport(st, s, files, swept, now);
    Healing.HealKeepsTheFileList(disk, map[]);
    Healing.FileListIsOnePerName(disk);
    SecondRunSkipsAll(st, s, files, swept, now);
    SecondRunSweepsNothing(st, s, files, swept, now);
    hide AfterImport, VerdictIn;
    AllSkippedChangesNothing(st, u, files, later);
    NothingGone(u, Names(files), later);
    AllSkippedTally(st, u.nodes, files, StartStats(Healed(disk)));
  }

  // ----- where the sweep does not reach

  predicate LiteralStem(name: string) {
    StartsWith(Lower(Stem(name)), "literal:")
  }

  lemma LowerAppend(a: string, b: string)
    ensures Lower(a + b) == Lower(a) + Lower(b)
  {
  }

  lemma MemoryRef(stem: string)
    ensures RefersTo(Some("memory:" + stem), "memory:")
    ensures RefersTo(Some("memory:" + stem), "memory:literal:") <==> StartsWith(Lower(stem), "literal:")
  {
    var low := Lower("memory:" + stem);
    LowerAppend("memory:", stem);
    assert Lower("memory:") == "memory:";
    assert low == "memory:" + Lower(stem);
    assert "memory:literal:" == "memory:" + "literal:";
    if StartsWith(Lower(stem), "literal:") {
      assert low[..15] == "memory:" + Lower(stem)[..8];
    }
    if StartsWith(low, "memory:literal:") {
      assert Lower(stem)[..8] == low[7..15] == "memory:literal:"[7..];
    }
  }

  /** A node minted for a file is one the sweep can see if and only if the file's stem
      does not begin with `literal:`, in any case: such a stem makes a reference that
      reads as an index literal's. */
  lemma MintedIsSweepableIff(st: Settings, e: Entry, existing: Option<Row>, now: int)
    ensures Sweepable(MintedRow(st, e, existing, now)) <==> !LiteralStem(e.path.name)
  {
    MintedFor(st, e, existing, now);
    MemoryRef(Stem(e.path.name));
    hide MintedRow;
  }

  /** So, with sources minted by the importer, a live file row whose file is gone
      survives the sweep exactly when its stem begins with `literal:`. */
  lemma VanishedFileSurvivesIff(s: State, present: set<string>, now: int, id: nat)
    requires id in s.nodes && id in LiveFileRows(s.nodes) && s.nodes[id].bridgePath.value !in present
    requires s.nodes[id].sourceRef == Some("memory:" + Stem(s.nodes[id].bridgePath.value))
    ensures !AfterSweep(s, present, now).nodes[id].tombstoned <==> LiteralStem(s.nodes[id].bridgePath.value)
  {
    MemoryRef(Stem(s.nodes[id].bridgePath.value));
  }

  // ----- what an import means for derived nodes

  /** An import adds no edges and changes no label and no confidentiality, so both keep
      flattening. */
  lemma ImportKeepsOneHop(st: Settings, s: State, files: seq<Entry>, swept: seq<nat>, now: int)
    requires Counted(s) && Healing.DistinctNames(files) && WellFormed(s) && OneHop(s)
    ensures var u := AfterImport(st, s, files, swept, now);
      WellFormed(u) && OneHop(u) && (ConfHop(s) ==> ConfHop(u))
  {
    var u := AfterImport(st, s, files, swept, now);
    ImportedTable(st, s, files, swept, now);
    forall x | x in u.nodes && !Parentless(u, x) ensures LabelKept(s, u, x) && ConfKept(s, u, x) {
      ImportedHop(st, s, files, swept, now, x);
    }
    hide *;
    HopsKept(s, u);
  }

  lemma ImportedTable(st: Settings, s: State, files: seq<Entry>, swept: seq<nat>, now: int)
    requires Counted(s) && WellFormed(s)
    ensures var u := AfterImport(st, s, files, swept, now);
      WellFormed(u) && u.edges == s.edges && s.nodes.Keys <= u.nodes.Keys
  {
    var t := Imported(st, s, files, now);
    var c := CascadeAll(t, swept, now);
    ImportKeepsTable(st, s, files, now);
    CascadeKeepsPaths(t, swept, now);
    StaleKeepsPaths(c, swept, now);
    hide Imported, CascadeAll, StaleAll;
  }

  lemma ImportedHop(st: Settings, s: State, files: seq<Entry>, swept: seq<nat>, now: int, x: nat)
    requires Counted(s) && Healing.DistinctNames(files) && WellFormed(s)
    requires var u := AfterImport(st, s, files, swept, now);
      WellFormed(u) && u.edges == s.edges && s.nodes.Keys <= u.nodes.Keys && x in u.nodes && !Parentless(u, x)
    ensures var u := AfterImport(st, s, files, swept, now);
      LabelKept(s, u, x) && ConfKept(s, u, x)
  {
    var u := AfterImport(st, s, files, swept, now);
    EdgesOf(s, x);
    var p :| p in Parents(s.edges, x);
    assert Edge(x, p) in s.edges;
    forall q | q in s.nodes
      ensures u.nodes[q].integrity == s.nodes[q].integrity && u.nodes[q].conf == s.nodes[q].conf
      ensures u.nodes[q].channel == s.nodes[q].channel
    {
      ImportedRow(st, s, files, swept, now, q);
    }
    hide AfterImport;
    SameParentRows(s, u, x);
  }

  lemma ImportedRow(st: Settings, s: State, files: seq<Entry>, swept: seq<nat>, now: int, x: nat)
    requires Counted(s) && Healing.DistinctNames(files) && x in s.nodes
    ensures var u := AfterImport(st, s, files, swept, now);
      x in u.nodes && u.nodes[x].integrity == s.nodes[x].integrity && u.nodes[x].conf == s.nodes[x].conf
      && u.nodes[x].channel == s.nodes[x].channel
  {
    var t := Imported(st, s, files, now);
    var c := CascadeAll(t, swept, now);
    CascadeKeepsPaths(t, swept, now);
    StaleKeepsPaths(c, swept, now);
    hide Imported, CascadeAll, StaleAll;
    ImportRowFate(st, s, files, now, x);
    CascadeKillsDerivedDescendants(t, swept, now, x);
    StalenessKillsNothing(c, swept, now, x);
  }

  lemma ImportKeepsTable(st: Settings, s: State, files: seq<Entry>, now: int)
    requires Counted(s)
    ensures var t := Imported(st, s, files, now);
      Counted(t) && t.edges == s.edges && s.nodes.Keys <= t.nodes.Keys
  {
    AfterFilesFrame(st, s, files, now, "");
    CountsUp(st, s, files, now);
    forall id | id in s.nodes ensures id in AfterFiles(st, s, files, now).nodes { AfterFilesRow(st, s, files, now, id); }
    hide AfterFiles;
  }

  /** A live node of the store before the import that keeps its life through it. */
  ghost predicate Outlives(s: State, files: seq<Entry>, c: nat) {
    && c in s.nodes && !s.nodes[c].tombstoned
    && !exists g :: g in Gone(s.nodes, Names(files)) && Descends(s, g, c)
  }

  /** When an edit is imported the old node is tombstoned alone: what was derived from
      it stays alive, over a dead parent. An import therefore keeps the DAG's liveness
      invariant if and only if no changed file's node has a live child that does not
      also descend from a swept node. */
  lemma ImportKeepsLivenessIff(st: Settings, s: State, files: seq<Entry>, swept: seq<nat>, now: int)
    requires Counted(s) && Healing.DistinctNames(files) && Inv(s) && Filed(s.nodes)
    requires Ordering.Lists(swept, Gone(s.nodes, Names(files)), IdKey(s.nodes))
    ensures WellFormed(AfterImport(st, s, files, swept, now))
    ensures LiveOnLive(AfterImport(st, s, files, swept, now)) <==>
      !exists e :: e in s.edges && SupersededBy(st, s.nodes, files, e.parent) && Outlives(s, files, e.child)
  {
    var u := AfterImport(st, s, files, swept, now);
    ImportKeepsOneHop(st, s, files, swept, now);
    ImportKeepsTable(st, s, files, now);
    CascadeKeepsPaths(Imported(st, s, files, now), swept, now);
    StaleKeepsPaths(CascadeAll(Imported(st, s, files, now), swept, now), swept, now);
    forall e | e in s.edges
      ensures !u.nodes[e.child].tombstoned <==> Outlives(s, files, e.child)
      ensures SupersededBy(st, s.nodes, files, e.parent) ==> u.nodes[e.parent].tombstoned
      ensures u.nodes[e.parent].tombstoned && Outlives(s, files, e.child) ==> SupersededBy(st, s.nodes, files, e.parent)
    {
      EdgeAfterImport(st, s, files, swept, now, e);
    }
    hide AfterImport, SupersededBy, Outlives, OneHop;
    assert u.edges == s.edges;
  }

  lemma EdgeAfterImport(st: Settings, s: State, files: seq<Entry>, swept: seq<nat>, now: int, e: Edge)
    requires Counted(s) && Healing.DistinctNames(files) && Inv(s) && Filed(s.nodes) && e in s.edges
    requires Ordering.Lists(swept, Gone(s.nodes, Names(files)), IdKey(s.nodes))
    ensures var u := AfterImport(st, s, files, swept, now);
      && e.child in u.nodes && e.parent in u.nodes
      && (!u.nodes[e.child].tombstoned <==> Outlives(s, files, e.child))
      && (SupersededBy(st, s.nodes, files, e.parent) ==> u.nodes[e.parent].tombstoned)
      && (u.nodes[e.parent].tombstoned && Outlives(s, files, e.child) ==> SupersededBy(st, s.nodes, files, e.parent))
  {
    var t := Imported(st, s, files, now);
    var c := CascadeAll(t, swept, now);
    ImportKeepsTable(st, s, files, now);
    assert e.child in s.nodes && e.parent in s.nodes;
    assert e.parent in Parents(s.edges, e.child);
    assert s.nodes[e.child].channel == AgentDerived;
    ImportRowFate(st, s, files, now, e.child);
    ImportRowFate(st, s, files, now, e.parent);
    CascadeKeepsPaths(t, swept, now);
    CascadeKillsDerivedDescendants(t, swept, now, e.child);
    CascadeKillsDerivedDescendants(t, swept, now, e.parent);
    StalenessKillsNothing(c, swept, now, e.child);
    StalenessKillsNothing(c, swept, now, e.parent);
    ChildIsNoFile(st, s, files, e.child);
    if SupersededBy(st, s.nodes, files, e.parent) { SupersededIsLive(st, s, files, e.parent); }
    DescendsPassesOn(s, e, swept, files);
    hide Imported, CascadeAll, StaleAll, SupersededBy, OneHop, Filed;
  }

  /** A derived node is never a file row, so no import supersedes or sweeps it. */
  lemma ChildIsNoFile(st: Settings, s: State, files: seq<Entry>, x: nat)
    requires Filed(s.nodes) && x in s.nodes && s.nodes[x].channel == AgentDerived
    ensures !SupersededBy(st, s.nodes, files, x) && x !in Gone(s.nodes, Names(files))
  {
    assert x !in LiveFileRows(s.nodes);
    if SupersededBy(st, s.nodes, files, x) { SupersededIsLive(st, s, files, x); }
  }

  /** Descending from a swept node passes from parent to child. */
  lemma DescendsPassesOn(s: State, e: Edge, swept: seq<nat>, files: seq<Entry>)
    requires e in s.edges && Ordering.Lists(swept, Gone(s.nodes, Names(files)), IdKey(s.nodes))
    ensures DescendsFromAny(s, swept, e.parent) ==> DescendsFromAny(s, swept, e.child)
    ensures DescendsFromAny(s, swept, e.child) <==> exists g :: g in Gone(s.nodes, Names(files)) && Descends(s, g, e.child)
    ensures e.parent in Gone(s.nodes, Names(files)) ==> DescendsFromAny(s, swept, e.child)
  {
    assert (e.parent, e.child) in Down(s.edges);
    ReachesSelf(Down(s.edges), e.parent);
    if DescendsFromAny(s, swept, e.parent) {
      var nid :| nid in swept && Descends(s, nid, e.parent);
      ReachesStep(Down(s.edges), nid, e.parent, e.child);
    }
    if e.parent in Gone(s.nodes, Names(files)) {
      assert e.parent in swept;
      ReachesStep(Down(s.edges), e.parent, e.parent, e.child);
    }
  }
}
