/** What an applied import guarantees about the store. */
module Reconciled {
  import opened Base
  import opened Dag
  import opened MemoryTree
  import opened Filing
  import opened Importer
  import Healing

  // ----- one node per file

  ghost predicate OneLive(nodes: map<nat, Row>, rel: string) {
    forall a, b | a in LiveSet(nodes, rel) && b in LiveSet(nodes, rel) :: a == b
  }

  ghost predicate OneLivePerPath(nodes: map<nat, Row>) {
    forall rel :: OneLive(nodes, rel)
  }

  predicate Writes(v: Verdict) {
    v == Create || v == Update
  }

  /** `id` is the one live node of the file, freshly minted for it. */
  ghost predicate FreshFor(st: Settings, s: State, nodes: map<nat, Row>, e: Entry, now: int, id: nat) {
    && LiveSet(nodes, e.path.name) == {id} && id !in s.nodes
    && nodes[id] == MintedRow(st, e, ExistingRow(s.nodes, e.path.name), now)
  }

  lemma FileStepAt(st: Settings, s: State, e: Entry, now: int)
    requires Counted(s) && OneLive(s.nodes, e.path.name)
    ensures var t := FileStep(st, s, e, now).nodes;
      if Writes(VerdictIn(st, s.nodes, e)) then FreshFor(st, s, t, e, now, s.nextId)
      else SameFor(t, s.nodes, e.path.name)
  {
    var t := FileStep(st, s, e, now);
    StepChanges(st, s, e, now);
    MintedFor(st, e, ExistingRow(s.nodes, e.path.name), now);
    if VerdictIn(st, s.nodes, e) != Create { UpdateHasRow(st, s, e); }
    hide FileStep, VerdictFor, MintedRow;
    if Writes(VerdictIn(st, s.nodes, e)) {
      var id := ExistingId(s.nodes, e.path.name);
      assert forall x | x in LiveSet(s.nodes, e.path.name) :: id == Some(x);
      forall x ensures x in LiveSet(t.nodes, e.path.name) <==> x == s.nextId { }
    }
  }

  lemma {:induction false} AfterFilesAt(st: Settings, s: State, files: seq<Entry>, now: int, i: nat) returns (id: nat)
    requires Counted(s) && Healing.DistinctNames(files) && i < |files| && OneLive(s.nodes, files[i].path.name)
    ensures var t := AfterFiles(st, s, files, now).nodes;
      if Writes(VerdictIn(st, s.nodes, files[i])) then FreshFor(st, s, t, files[i], now, id)
      else SameFor(t, s.nodes, files[i].path.name)
  {
    var n := |files| - 1;
    var before := AfterFiles(st, s, files[..n], now);
    var rel := files[i].path.name;
    if i == n {
      hide *;
      LastFileAt(st, s, files, now);
      id := before.nextId;
    } else {
      assert files[n].path.name != rel && files[..n][i] == files[i];
      assert Healing.DistinctNames(files[..n]);
      hide *;
      AfterFilesLast(st, s, files, now);
      AfterFilesFrame(st, s, files[..n], now, rel);
      id := AfterFilesAt(st, s, files[..n], now, i);
      FileStepFrame(st, before, files[n], now, rel);
      SameForPasses(st, s, before.nodes, FileStep(st, before, files[n], now).nodes, files[i], now, id);
    }
  }

  lemma LastFileAt(st: Settings, s: State, files: seq<Entry>, now: int)
    requires Counted(s) && Healing.DistinctNames(files) && files != []
    requires OneLive(s.nodes, files[|files| - 1].path.name)
    ensures var n := |files| - 1;
      var t := AfterFiles(st, s, files, now).nodes;
      if Writes(VerdictIn(st, s.nodes, files[n])) then
        FreshFor(st, s, t, files[n], now, AfterFiles(st, s, files[..n], now).nextId)
      else SameFor(t, s.nodes, files[n].path.name)
  {
    var n := |files| - 1;
    var before := AfterFiles(st, s, files[..n], now);
    var rel := files[n].path.name;
    AfterFilesLast(st, s, files, now);
    AfterFilesFrame(st, s, files[..n], now, rel);
    forall e | e in files[..n] ensures e.path.name != rel { NamesApart(files, e); }
    JudgedIndependently(st, s, files, n, now);
    CountsUp(st, s, files[..n], now);
    SameVerdict(st, s, before, files[n]);
    SameOneLive(before.nodes, s.nodes, rel);
    FileStepAt(st, before, files[n], now);
    hide VerdictIn, VerdictFor, MintedRow, FileStep, AfterFiles, OneLive, ExistingRow, ExistingId, LiveSet, Writes;
  }

  lemma NamesApart(files: seq<Entry>, e: Entry)
    requires Healing.DistinctNames(files) && files != [] && e in files[..|files| - 1]
    ensures e.path.name != files[|files| - 1].path.name
  {
  }

  lemma SameOneLive(a: map<nat, Row>, b: map<nat, Row>, rel: string)
    requires SameFor(a, b, rel)
    ensures OneLive(a, rel) <==> OneLive(b, rel)
  {
  }

  lemma AfterFilesLast(st: Settings, s: State, files: seq<Entry>, now: int)
    requires files != []
    ensures AfterFiles(st, s, files, now) == FileStep(st, AfterFiles(st, s, files[..|files| - 1], now), files[|files| - 1], now)
  {
  }

  lemma SameForPasses(st: Settings, s: State, a: map<nat, Row>, b: map<nat, Row>, e: Entry, now: int, id: nat)
    requires SameFor(b, a, e.path.name)
    ensures FreshFor(st, s, a, e, now, id) ==> FreshFor(st, s, b, e, now, id)
    ensures SameFor(a, s.nodes, e.path.name) ==> SameFor(b, s.nodes, e.path.name)
  {
    hide MintedRow, ExistingRow;
    assert id in LiveSet(a, e.path.name) ==> id in LiveSet(b, e.path.name) && b[id] == a[id];
  }

  lemma {:induction false} CountsUp(st: Settings, s: State, files: seq<Entry>, now: int)
    requires Counted(s)
    ensures s.nextId <= AfterFiles(st, s, files, now).nextId
    ensures AfterFiles(st, s, files, now).edges == s.edges
  {
    if files != [] {
      var n := |files| - 1;
      CountsUp(st, s, files[..n], now);
      AfterFilesFrame(st, s, files[..n], now, "");
      StepChanges(st, AfterFiles(st, s, files[..n], now), files[n], now);
      hide FileStep;
    }
  }

  lemma AfterFilesKeepsOneLive(st: Settings, s: State, files: seq<Entry>, now: int)
    requires Counted(s) && Healing.DistinctNames(files) && OneLivePerPath(s.nodes)
    ensures OneLivePerPath(AfterFiles(st, s, files, now).nodes)
  {
    hide VerdictFor, MintedRow, FileStep, AfterFiles, LiveSet;
    var t := AfterFiles(st, s, files, now).nodes;
    forall rel ensures OneLive(t, rel) {
      assert OneLive(s.nodes, rel);
      if i :| 0 <= i < |files| && files[i].path.name == rel {
        var id := AfterFilesAt(st, s, files, now, i);
      } else {
        forall e | e in files ensures e.path.name != rel { }
        AfterFilesFrame(st, s, files, now, rel);
      }
    }
  }

  // ----- the sweep

  lemma SweepAt(s: State, present: set<string>, now: int, rel: string)
    ensures rel in present ==> SameFor(AfterSweep(s, present, now).nodes, s.nodes, rel)
    ensures LiveSet(AfterSweep(s, present, now).nodes, rel) <= LiveSet(s.nodes, rel)
  {
    hide Sweepable;
    var t := AfterSweep(s, present, now).nodes;
    if rel in present {
      forall x ensures x in LiveSet(t, rel) <==> x in LiveSet(s.nodes, rel) { }
    }
  }

  /** An applied import keeps at most one live node per file name. */
  lemma ImportKeepsOneLivePerPath(st: Settings, s: State, files: seq<Entry>, now: int)
    requires Counted(s) && Healing.DistinctNames(files) && OneLivePerPath(s.nodes)
    ensures OneLivePerPath(Imported(st, s, files, now).nodes)
  {
    AfterFilesKeepsOneLive(st, s, files, now);
    hide AfterFiles, AfterSweep, LiveSet;
    forall rel ensures OneLive(Imported(st, s, files, now).nodes, rel) {
      assert OneLive(AfterFiles(st, s, files, now).nodes, rel);
      SweepAt(AfterFiles(st, s, files, now), Names(files), now, rel);
    }
  }

  /** Every present file whose node was not redacted has exactly one live node
      afterwards, with the hash of what the file stamps to; a replaced node hands its
      forgetting-layer columns to its successor, and a redacted one stays as it was. */
  lemma EveryFileHasItsNode(st: Settings, s: State, files: seq<Entry>, now: int, i: nat)
    requires Counted(s) && Healing.DistinctNames(files) && OneLivePerPath(s.nodes) && i < |files|
    ensures var t := Imported(st, s, files, now).nodes;
      var e := files[i];
      var old_ := ExistingRow(s.nodes, e.path.name);
      var v := VerdictIn(st, s.nodes, e);
      && (v != Refuse ==> exists id ::
        && LiveSet(t, e.path.name) == {id}
        && t[id].contentHash == Some(st.hash(StampedFor(st, e, old_)))
        && (v == Skip ==> id in s.nodes && t[id] == s.nodes[id])
        && (Writes(v) ==> id !in s.nodes && t[id].content == StampedFor(st, e, old_) && t[id].createdAt == now)
        && (v == Update ==> t[id].forget == old_.value.forget))
      && (v == Refuse ==> SameFor(t, s.nodes, e.path.name))
  {
    var e := files[i];
    var t := Imported(st, s, files, now).nodes;
    assert OneLive(s.nodes, e.path.name);
    var id := AfterFilesAt(st, s, files, now, i);
    assert e in files;
    SweepAt(AfterFiles(st, s, files, now), Names(files), now, e.path.name);
    MintedFor(st, e, ExistingRow(s.nodes, e.path.name), now);
    hide AfterFiles, AfterSweep, MintedRow;
    if VerdictIn(st, s.nodes, e) == Skip {
      UpdateHasRow(st, s, e);
      var x := ExistingId(s.nodes, e.path.name).value;
      hide StampedFor;
      assert LiveSet(t, e.path.name) == {x};
    } else if Writes(VerdictIn(st, s.nodes, e)) {
      assert LiveSet(t, e.path.name) == {id};
    }
  }

  /** Every live file-backed memory row the sweep can see names a present file. */
  lemma LiveMemoriesHaveFiles(st: Settings, s: State, files: seq<Entry>, now: int, id: nat)
    requires id in Imported(st, s, files, now).nodes && Sweepable(Imported(st, s, files, now).nodes[id])
    ensures Imported(st, s, files, now).nodes[id].bridgePath.value in Names(files)
  {
  }

  // ----- the fate of every row

  /** `id` is the live node of a present, changed file. */
  ghost predicate SupersededBy(st: Settings, nodes: map<nat, Row>, files: seq<Entry>, id: nat) {
    exists e :: e in files && VerdictIn(st, nodes, e) == Update && ExistingId(nodes, e.path.name) == Some(id)
  }

  ghost predicate MintedBy(st: Settings, nodes: map<nat, Row>, files: seq<Entry>, now: int, row: Row) {
    exists e :: e in files && Writes(VerdictIn(st, nodes, e)) && row == MintedRow(st, e, ExistingRow(nodes, e.path.name), now)
  }

  /** Old rows change only by being superseded; every other row was minted for a file. */
  ghost predicate Fate(st: Settings, s: State, t: map<nat, Row>, files: seq<Entry>, now: int, id: nat) {
    && (id in s.nodes ==>
      id in t && t[id] == if SupersededBy(st, s.nodes, files, id) then Kill(s.nodes[id], now, SUPERSEDED) else s.nodes[id])
    && (id in t && id !in s.nodes ==> MintedBy(st, s.nodes, files, now, t[id]))
  }

  lemma {:induction false} RowFate(st: Settings, s: State, files: seq<Entry>, now: int, id: nat)
    requires Counted(s) && Healing.DistinctNames(files)
    ensures Fate(st, s, AfterFiles(st, s, files, now).nodes, files, now, id)
  {
    hide VerdictFor, MintedRow, FileStep, LiveSet;
    if files == [] {
      assert !SupersededBy(st, s.nodes, files, id);
    } else {
      var n := |files| - 1;
      var e := files[n];
      var before := AfterFiles(st, s, files[..n], now);
      RowFate(st, s, files[..n], now, id);
      AfterFilesFrame(st, s, files[..n], now, "");
      JudgedIndependently(st, s, files, n, now);
      StepChanges(st, before, e, now);
      assert files == files[..n] + [e];
      if VerdictIn(st, s.nodes, e) != Create {
        UpdateHasRow(st, s, e);
        UpdateHasRow(st, before, e);
      }
      CountsUp(st, s, files[..n], now);
      FateStep(st, s, before, files, now, id);
    }
  }

  lemma FateStep(st: Settings, s: State, before: State, files: seq<Entry>, now: int, id: nat)
    requires files != [] && Counted(before) && before.nextId !in s.nodes
    requires Fate(st, s, before.nodes, files[..|files| - 1], now, id)
    requires var e := files[|files| - 1];
      && ExistingId(before.nodes, e.path.name) == ExistingId(s.nodes, e.path.name)
      && ExistingRow(before.nodes, e.path.name) == ExistingRow(s.nodes, e.path.name)
      && (VerdictIn(st, s.nodes, e) == Update ==>
        ExistingId(s.nodes, e.path.name).Some? && ExistingId(s.nodes, e.path.name).value in s.nodes &&
        before.nodes.Keys >= {ExistingId(s.nodes, e.path.name).value} &&
        before.nodes[ExistingId(s.nodes, e.path.name).value] == s.nodes[ExistingId(s.nodes, e.path.name).value])
    ensures Fate(st, s, FileStep(st, before, files[|files| - 1], now).nodes, files, now, id)
  {
    var n := |files| - 1;
    var e := files[n];
    StepChanges(st, before, e, now);
    SameVerdict(st, s, before, e);
    SupersededMore(st, s.nodes, files, id);
    var t := FileStep(st, before, e, now).nodes;
    if id in t && id !in s.nodes {
      MintedMore(st, s.nodes, files, now, t[id]);
    }
    hide VerdictFor, MintedRow, FileStep, LiveSet, ExistingId, VerdictIn, ExistingRow, SupersededBy, MintedBy;
  }

  lemma SameVerdict(st: Settings, s: State, before: State, e: Entry)
    requires ExistingRow(before.nodes, e.path.name) == ExistingRow(s.nodes, e.path.name)
    ensures VerdictIn(st, before.nodes, e) == VerdictIn(st, s.nodes, e)
    ensures Writes(VerdictIn(st, s.nodes, e)) <==> VerdictIn(st, s.nodes, e) == Create || VerdictIn(st, s.nodes, e) == Update
  {
  }

  lemma SupersededMore(st: Settings, nodes: map<nat, Row>, files: seq<Entry>, id: nat)
    requires files != []
    ensures var n := |files| - 1;
      SupersededBy(st, nodes, files, id) <==>
        SupersededBy(st, nodes, files[..n], id)
        || (VerdictIn(st, nodes, files[n]) == Update && ExistingId(nodes, files[n].path.name) == Some(id))
  {
    hide VerdictIn, ExistingId;
    var n := |files| - 1;
    assert forall x :: x in files <==> x in files[..n] || x == files[n];
  }

  lemma MintedMore(st: Settings, nodes: map<nat, Row>, files: seq<Entry>, now: int, row: Row)
    requires files != []
    ensures MintedBy(st, nodes, files[..|files| - 1], now, row) ==> MintedBy(st, nodes, files, now, row)
    ensures var e := files[|files| - 1];
      Writes(VerdictIn(st, nodes, e)) && row == MintedRow(st, e, ExistingRow(nodes, e.path.name), now)
      ==> MintedBy(st, nodes, files, now, row)
  {
    hide VerdictIn, ExistingRow, MintedRow;
    var e := files[|files| - 1];
    assert e in files && forall x | x in files[..|files| - 1] :: x in files;
  }

  lemma SupersededIsLive(st: Settings, s: State, files: seq<Entry>, id: nat)
    requires SupersededBy(st, s.nodes, files, id)
    ensures id in s.nodes && !s.nodes[id].tombstoned
    ensures s.nodes[id].bridgePath.Some? && s.nodes[id].bridgePath.value in Names(files)
  {
    var e :| e in files && VerdictIn(st, s.nodes, e) == Update && ExistingId(s.nodes, e.path.name) == Some(id);
    UpdateHasRow(st, s, e);
  }

  lemma MintedShape(st: Settings, s: State, files: seq<Entry>, now: int, row: Row)
    requires MintedBy(st, s.nodes, files, now, row)
    ensures !row.tombstoned && !row.redacted && row.channel != AgentDerived && row.createdAt == now
    ensures row.bridgePath.Some? && row.bridgePath.value in Names(files)
    ensures row.sourceRef == Some("memory:" + Stem(row.bridgePath.value))
    ensures row.contentHash == Some(st.hash(row.content))
  {
    var e :| e in files && Writes(VerdictIn(st, s.nodes, e)) && row == MintedRow(st, e, ExistingRow(s.nodes, e.path.name), now);
    MintedFor(st, e, ExistingRow(s.nodes, e.path.name), now);
  }

  /** An import kills exactly the superseded and the swept rows, and leaves every
      other old row as it was. */
  lemma ImportRowFate(st: Settings, s: State, files: seq<Entry>, now: int, id: nat)
    requires Counted(s) && Healing.DistinctNames(files)
    ensures var t := Imported(st, s, files, now).nodes;
      && (id in s.nodes ==>
        id in t && t[id] == if SupersededBy(st, s.nodes, files, id) then Kill(s.nodes[id], now, SUPERSEDED)
                            else if id in Gone(s.nodes, Names(files)) then Kill(s.nodes[id], now, SOURCE_REMOVED)
                            else s.nodes[id])
      && (id in t && id !in s.nodes ==> MintedBy(st, s.nodes, files, now, t[id]))
  {
    RowFate(st, s, files, now, id);
    SweepUnaffectedByFiles(st, s, files, now);
    var u := AfterFiles(st, s, files, now);
    if id in u.nodes && id !in s.nodes { MintedShape(st, s, files, now, u.nodes[id]); }
    if SupersededBy(st, s.nodes, files, id) { SupersededIsLive(st, s, files, id); }
    hide AfterFiles, SupersededBy, MintedBy;
  }

  /** Live rows that stand for files. */
  ghost function LiveFileRows(nodes: map<nat, Row>): set<nat> {
    set id | id in nodes && nodes[id].bridgePath.Some? && !nodes[id].tombstoned
  }

  /** The old live file rows, minus the ids reported dead, plus the ids reported new,
      are the new live file rows. */
  lemma LiveFileRowsAccounted(st: Settings, s: State, files: seq<Entry>, now: int)
    requires Counted(s) && Healing.DistinctNames(files)
    ensures var t := Imported(st, s, files, now).nodes;
      LiveFileRows(t) == LiveFileRows(s.nodes) - Killed(s.nodes, t) + (t.Keys - s.nodes.Keys)
  {
    var t := Imported(st, s, files, now).nodes;
    hide Imported, MintedBy, SupersededBy;
    forall id ensures id in LiveFileRows(t) <==> id in LiveFileRows(s.nodes) - Killed(s.nodes, t) + (t.Keys - s.nodes.Keys) {
      ImportRowFate(st, s, files, now, id);
      if id in t && id !in s.nodes { MintedShape(st, s, files, now, t[id]); }
    }
  }

  // ----- the follow-up on swept nodes

  ghost predicate DescendsFromAny(s: State, swept: seq<nat>, x: nat) {
    exists nid :: nid in swept && Descends(s, nid, x)
  }

  /** The follow-up cascade kills exactly the live agent-derived descendants of the
      swept nodes, and changes nothing else. */
  lemma {:induction false} CascadeKillsDerivedDescendants(s: State, swept: seq<nat>, now: int, x: nat)
    requires x in s.nodes
    ensures var t := CascadeAll(s, swept, now);
      && t.edges == s.edges && t.nextId == s.nextId && t.nodes.Keys == s.nodes.Keys
      && (if !s.nodes[x].tombstoned && s.nodes[x].channel == AgentDerived && DescendsFromAny(s, swept, x)
          then t.nodes[x].tombstoned && t.nodes[x] ==
            s.nodes[x].(tombstoned := true, tombstonedAt := Some(now), revokeReason := t.nodes[x].revokeReason)
          else t.nodes[x] == s.nodes[x])
  {
    if swept != [] {
      var n := |swept| - 1;
      CascadeKillsDerivedDescendants(s, swept[..n], now, x);
      assert swept == swept[..n] + [swept[n]];
      assert swept[n] in swept;
    }
  }

  /** Staleness reaches every descendant of a swept node and tombstones none. */
  lemma {:induction false} StalenessKillsNothing(s: State, swept: seq<nat>, now: int, x: nat)
    requires x in s.nodes
    ensures var t := StaleAll(s, swept, now);
      && t.edges == s.edges && t.nextId == s.nextId && t.nodes.Keys == s.nodes.Keys
      && t.nodes[x].stale == (s.nodes[x].stale || DescendsFromAny(s, swept, x))
      && t.nodes[x] == s.nodes[x].(stale := t.nodes[x].stale, staleAt := t.nodes[x].staleAt, staleReason := t.nodes[x].staleReason)
      && (s.nodes[x].stale ==> t.nodes[x] == s.nodes[x])
  {
    if swept != [] {
      var n := |swept| - 1;
      StalenessKillsNothing(s, swept[..n], now, x);
      assert swept == swept[..n] + [swept[n]];
      assert swept[n] in swept;
    }
  }
}
