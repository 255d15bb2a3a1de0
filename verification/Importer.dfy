/** The reconciling importer (memsom/bridge/bridge_import.py): the memory directory
    mirrored into the store, one live node per file. */
module Importer {
  import opened Base
  import opened Closure
  import opened Dag
  import opened MemoryTree
  import opened Filing
  import Healing
  import Ordering

  const SUPERSEDED := Reason.Text("superseded by bridge reimport")
  const SOURCE_REMOVED := Reason.Text("source file removed (bridge reconcile)")

  // ----- the queries

  /** Live nodes stored for one file name. */
  function LiveSet(nodes: map<nat, Row>, rel: string): set<nat> {
    set id | id in nodes && nodes[id].bridgePath == Some(rel) && !nodes[id].tombstoned
  }

  ghost predicate IsNewest(nodes: map<nat, Row>, rel: string, id: nat) {
    id in LiveSet(nodes, rel) && forall x | x in LiveSet(nodes, rel) :: x <= id
  }

  lemma {:induction false} HasNewest(s: set<nat>) returns (m: nat)
    requires s != {}
    ensures m in s && forall x | x in s :: x <= m
  {
    var x :| x in s;
    if s == {x} {
      m := x;
    } else {
      assert s - {x} != {};
      m := HasNewest(s - {x});
      assert forall y | y in s :: y == x || y in s - {x};
      if m < x { m := x; }
    }
  }

  /** ORDER BY id DESC LIMIT 1 over the live nodes of a file name. */
  ghost function ExistingId(nodes: map<nat, Row>, rel: string): (r: Option<nat>)
    ensures r.None? <==> LiveSet(nodes, rel) == {}
    ensures r.Some? ==> IsNewest(nodes, rel, r.value)
  {
    if LiveSet(nodes, rel) == {} then None
    else
      var m := HasNewestId(nodes, rel);
      Some(m)
  }

  ghost function HasNewestId(nodes: map<nat, Row>, rel: string): (m: nat)
    requires LiveSet(nodes, rel) != {}
    ensures IsNewest(nodes, rel, m)
  {
    assert exists m :: IsNewest(nodes, rel, m) by { var m := HasNewest(LiveSet(nodes, rel)); assert IsNewest(nodes, rel, m); }
    var m :| IsNewest(nodes, rel, m);
    m
  }

  ghost function ExistingRow(nodes: map<nat, Row>, rel: string): Option<Row> {
    var id := ExistingId(nodes, rel);
    if id.Some? then Some(nodes[id.value]) else None
  }

  /** SQLite's LIKE folds ASCII case. */
  predicate RefersTo(ref: Option<string>, prefix: string) {
    ref.Some? && StartsWith(Lower(ref.value), prefix)
  }

  predicate IsLiveMemory(r: Row) {
    !r.tombstoned && RefersTo(r.sourceRef, "memory:")
  }

  /** Live file-backed rows the sweep compares with the directory. */
  predicate Sweepable(r: Row) {
    IsLiveMemory(r) && !RefersTo(r.sourceRef, "memory:literal:") && r.bridgePath.Some?
  }

  function Gone(nodes: map<nat, Row>, present: set<string>): set<nat> {
    set id | id in nodes && Sweepable(nodes[id]) && nodes[id].bridgePath.value !in present
  }

  function Names(files: seq<Entry>): set<string> {
    set e | e in files :: e.path.name
  }

  // ----- the effect of one file, of all files, of the sweep

  /** Ids are handed out in order and never reused. */
  ghost predicate Counted(s: State) {
    forall id | id in s.nodes :: id < s.nextId
  }

  /** What one file does to the store. */
  ghost function FileStep(st: Settings, s: State, e: Entry, now: int): State {
    var id := ExistingId(s.nodes, e.path.name);
    var row := ExistingRow(s.nodes, e.path.name);
    match VerdictFor(st, e, row)
    case Refuse => s
    case Skip => s
    case Create => Inserted(s, MintedRow(st, e, row, now))
    case Update => Inserted(Superseded(s, id.value, now), MintedRow(st, e, row, now))
  }

  ghost function AfterFiles(st: Settings, s: State, files: seq<Entry>, now: int): State {
    if files == [] then s
    else FileStep(st, AfterFiles(st, s, files[..|files| - 1], now), files[|files| - 1], now)
  }

  ghost function AfterSweep(s: State, present: set<string>, now: int): State {
    s.(nodes := map id | id in s.nodes ::
      if id in Gone(s.nodes, present) then Kill(s.nodes[id], now, SOURCE_REMOVED) else s.nodes[id])
  }

  /** One swept node's cascade: its live agent-derived descendants. */
  ghost function CascadeOne(s: State, nid: nat, path: string, now: int): State {
    s.(nodes := map x | x in s.nodes ::
      if Dooms(s, nid, x) && s.nodes[x].channel == AgentDerived then Kill(s.nodes[x], now, SweepCascade(nid, path))
      else s.nodes[x])
  }

  ghost function PathOf(s: State, nid: nat): string {
    if nid in s.nodes then Filing.Text(s.nodes[nid].bridgePath) else ""
  }

  ghost function CascadeAll(s: State, swept: seq<nat>, now: int): State {
    if swept == [] then s
    else
      var n := |swept| - 1;
      CascadeOne(CascadeAll(s, swept[..n], now), swept[n], PathOf(s, swept[n]), now)
  }

  /** mark_stale_cascade: stale, not dead; the first staleness wins. */
  ghost predicate GoesStale(s: State, nid: nat, x: nat) {
    x in s.nodes && Descends(s, nid, x) && !s.nodes[x].stale
  }

  ghost function StaleOne(s: State, nid: nat, path: string, now: int): State {
    s.(nodes := map x | x in s.nodes ::
      if GoesStale(s, nid, x) then
        s.nodes[x].(stale := true, staleAt := Some(now),
                    staleReason := Some(if x == nid then SweepCascade(nid, path) else CascadeFrom(nid)))
      else s.nodes[x])
  }

  ghost function StaleAll(s: State, swept: seq<nat>, now: int): State {
    if swept == [] then s
    else
      var n := |swept| - 1;
      StaleOne(StaleAll(s, swept[..n], now), swept[n], PathOf(s, swept[n]), now)
  }

  // ----- the counters

  datatype Stats = Stats(total: nat, created: nat, updated: nat, skipped: nat, tombstoned: nat,
                         swept: nat, refused: nat, dedup: nat, quarantined: nat, born: nat)

  function Tallied(stats: Stats, v: Verdict, born: bool): Stats {
    var s := if born then stats.(born := stats.born + 1) else stats;
    match v
    case Refuse => s.(refused := s.refused + 1)
    case Skip => s.(skipped := s.skipped + 1)
    case Create => s.(created := s.created + 1)
    case Update => s.(updated := s.updated + 1, tombstoned := s.tombstoned + 1)
  }

  ghost function VerdictIn(st: Settings, nodes: map<nat, Row>, e: Entry): Verdict {
    VerdictFor(st, e, ExistingRow(nodes, e.path.name))
  }

  ghost function BornIn(st: Settings, nodes: map<nat, Row>, e: Entry): bool {
    MetaFor(st, e, ExistingRow(nodes, e.path.name)).pending.Some?
  }

  /** The file counters as the directory and the store stand before the run. */
  ghost function Tally(st: Settings, nodes: map<nat, Row>, files: seq<Entry>, start: Stats): Stats {
    if files == [] then start
    else
      var e := files[|files| - 1];
      Tallied(Tally(st, nodes, files[..|files| - 1], start), VerdictIn(st, nodes, e), BornIn(st, nodes, e))
  }

  function StartStats(disk: Disk): Stats {
    Stats(|MemoryFiles(disk)|, 0, 0, 0, 0, 0, 0, HealCounts(disk).dedup, HealCounts(disk).quarantined, 0)
  }

  ghost function ExpectedStats(st: Settings, nodes: map<nat, Row>, disk: Disk): Stats {
    var files := MemoryFiles(disk);
    Tally(st, nodes, files, StartStats(disk)).(swept := |Gone(nodes, Names(files))|)
  }

  // ----- files do not interfere with each other

  lemma ExistingUnique(nodes: map<nat, Row>, rel: string, id: nat)
    requires IsNewest(nodes, rel, id)
    ensures ExistingId(nodes, rel) == Some(id)
  {
  }

  /** Two tables that agree on the live rows of a name give the same lookup. */
  lemma SameLookup(a: map<nat, Row>, b: map<nat, Row>, rel: string)
    requires LiveSet(a, rel) == LiveSet(b, rel)
    requires forall id | id in LiveSet(a, rel) :: a[id] == b[id]
    ensures ExistingId(a, rel) == ExistingId(b, rel) && ExistingRow(a, rel) == ExistingRow(b, rel)
  {
    var x := ExistingId(a, rel);
    if x.Some? {
      assert IsNewest(b, rel, x.value);
      ExistingUnique(b, rel, x.value);
    }
  }

  ghost predicate SameFor(a: map<nat, Row>, b: map<nat, Row>, rel: string) {
    LiveSet(a, rel) == LiveSet(b, rel) && forall id | id in LiveSet(a, rel) :: a[id] == b[id]
  }

  lemma MintedFor(st: Settings, e: Entry, existing: Option<Row>, now: int)
    ensures var r := MintedRow(st, e, existing, now);
      && r.bridgePath == Some(e.path.name) && !r.tombstoned && !r.redacted && !r.stale
      && r.content == StampedFor(st, e, existing) && r.contentHash == Some(st.hash(r.content))
      && r.createdAt == now && r.sourceRef == Some("memory:" + Stem(e.path.name))
      && r.channel != AgentDerived
      && r.forget == if existing.Some? then existing.value.forget else FRESH_FORGET
  {
  }

  lemma InsertFrame(s: State, row: Row, rel: string)
    requires Counted(s)
    ensures Counted(Inserted(s, row))
    ensures row.bridgePath != Some(rel) ==> SameFor(Inserted(s, row).nodes, s.nodes, rel)
  {
    var t := Inserted(s, row);
    if row.bridgePath != Some(rel) {
      forall x ensures x in LiveSet(t.nodes, rel) <==> x in LiveSet(s.nodes, rel) { }
    }
  }

  ghost function Superseded(s: State, id: nat, now: int): State
    requires id in s.nodes
  {
    s.(nodes := s.nodes[id := Kill(s.nodes[id], now, SUPERSEDED)])
  }

  lemma SupersedeFrame(s: State, id: nat, now: int, rel: string)
    requires Counted(s) && id in s.nodes
    ensures Counted(Superseded(s, id, now))
    ensures s.nodes[id].bridgePath != Some(rel) ==> SameFor(Superseded(s, id, now).nodes, s.nodes, rel)
  {
    var t := Superseded(s, id, now);
    if s.nodes[id].bridgePath != Some(rel) {
      forall x ensures x in LiveSet(t.nodes, rel) <==> x in LiveSet(s.nodes, rel) { }
    }
  }

  lemma FileStepFrame(st: Settings, s: State, e: Entry, now: int, rel: string)
    requires Counted(s)
    ensures Counted(FileStep(st, s, e, now))
    ensures rel != e.path.name ==> SameFor(FileStep(st, s, e, now).nodes, s.nodes, rel)
  {
    hide VerdictFor, MintedRow, LiveSet;
    var id := ExistingId(s.nodes, e.path.name);
    var row := ExistingRow(s.nodes, e.path.name);
    var minted := MintedRow(st, e, row, now);
    MintedFor(st, e, row, now);
    match VerdictFor(st, e, row) {
      case Refuse =>
      case Skip =>
      case Create => InsertFrame(s, minted, rel);
      case Update =>
        UpdateHasRow(st, s, e);
        SupersedeFrame(s, id.value, now, rel);
        InsertFrame(Superseded(s, id.value, now), minted, rel);
    }
  }

  lemma UpdateHasRow(st: Settings, s: State, e: Entry)
    requires VerdictIn(st, s.nodes, e) != Create
    ensures ExistingId(s.nodes, e.path.name).Some?
    ensures ExistingId(s.nodes, e.path.name).value in s.nodes
    ensures s.nodes[ExistingId(s.nodes, e.path.name).value].bridgePath == Some(e.path.name)
    ensures !s.nodes[ExistingId(s.nodes, e.path.name).value].tombstoned
  {
  }

  lemma {:induction false} AfterFilesFrame(st: Settings, s: State, files: seq<Entry>, now: int, rel: string)
    requires Counted(s)
    ensures Counted(AfterFiles(st, s, files, now))
    ensures (forall e | e in files :: e.path.name != rel) ==> SameFor(AfterFiles(st, s, files, now).nodes, s.nodes, rel)
  {
    if files != [] {
      var n := |files| - 1;
      AfterFilesFrame(st, s, files[..n], now, rel);
      FileStepFrame(st, AfterFiles(st, s, files[..n], now), files[n], now, rel);
      assert files[n] in files;
    }
  }

  /** A file is judged as if it came first, wherever it stands in the list. */
  lemma JudgedIndependently(st: Settings, s: State, files: seq<Entry>, i: nat, now: int)
    requires Counted(s) && Healing.DistinctNames(files) && i < |files|
    ensures ExistingId(AfterFiles(st, s, files[..i], now).nodes, files[i].path.name) == ExistingId(s.nodes, files[i].path.name)
    ensures ExistingRow(AfterFiles(st, s, files[..i], now).nodes, files[i].path.name) == ExistingRow(s.nodes, files[i].path.name)
  {
    AfterFilesFrame(st, s, files[..i], now, files[i].path.name);
    SameLookup(AfterFiles(st, s, files[..i], now).nodes, s.nodes, files[i].path.name);
  }

  // ----- the sweep finds the same rows in a dry run

  /** What a run of files may do to one row: nothing, or touch a row of one of its names. */
  ghost predicate RowAfter(a: map<nat, Row>, b: map<nat, Row>, names: set<string>, id: nat) {
    && (id in a ==> id in b)
    && (id in b ==>
      || (id in a && a[id] == b[id])
      || (b[id].bridgePath.Some? && b[id].bridgePath.value in names && (id in a ==> a[id].bridgePath == b[id].bridgePath)))
  }

  lemma FileStepRow(st: Settings, s: State, e: Entry, now: int, id: nat)
    requires Counted(s)
    ensures RowAfter(s.nodes, FileStep(st, s, e, now).nodes, {e.path.name}, id)
  {
    hide VerdictFor, MintedRow, LiveSet;
    MintedFor(st, e, ExistingRow(s.nodes, e.path.name), now);
    if VerdictIn(st, s.nodes, e) != Create { UpdateHasRow(st, s, e); }
  }

  lemma {:induction false} AfterFilesRow(st: Settings, s: State, files: seq<Entry>, now: int, id: nat)
    requires Counted(s)
    ensures RowAfter(s.nodes, AfterFiles(st, s, files, now).nodes, Names(files), id)
  {
    if files != [] {
      var n := |files| - 1;
      AfterFilesRow(st, s, files[..n], now, id);
      AfterFilesFrame(st, s, files[..n], now, "");
      FileStepRow(st, AfterFiles(st, s, files[..n], now), files[n], now, id);
      hide FileStep;
      assert files[n] in files;
      assert files[n].path.name in Names(files);
      assert forall e | e in files[..n] :: e in files;
    }
  }

  lemma SweepUnaffectedByFiles(st: Settings, s: State, files: seq<Entry>, now: int)
    requires Counted(s)
    ensures Gone(AfterFiles(st, s, files, now).nodes, Names(files)) == Gone(s.nodes, Names(files))
  {
    var t := AfterFiles(st, s, files, now);
    forall id ensures id in Gone(t.nodes, Names(files)) <==> id in Gone(s.nodes, Names(files)) {
      AfterFilesRow(st, s, files, now, id);
    }
  }

  // ----- the importer itself

  method LiveNodeForPath(nodes: map<nat, Row>, rel: string) returns (r: Option<nat>)
    ensures r == ExistingId(nodes, rel)
  {
    var rest := LiveSet(nodes, rel);
    r := None;
    while rest != {}
      invariant rest <= LiveSet(nodes, rel)
      invariant r.None? ==> rest == LiveSet(nodes, rel)
      invariant r.Some? ==> r.value in LiveSet(nodes, rel)
      invariant forall x | x in LiveSet(nodes, rel) && x !in rest :: r.Some? && x <= r.value
      decreases rest
    {
      var x :| x in rest;
      if r.None? || r.value < x { r := Some(x); }
      rest := rest - {x};
    }
    if r.Some? { ExistingUnique(nodes, rel, r.value); }
  }

  /** One pass of the file loop. A dry run judges the file and writes nothing. */
  method ImportFile(store: Store, st: Settings, e: Entry, now: int, dryRun: bool)
    returns (v: Verdict, born: bool, dead: Option<nat>, minted: Option<nat>)
    modifies store
    ensures v == VerdictIn(st, old(store.nodes), e) && born == BornIn(st, old(store.nodes), e)
    ensures store.Snapshot() == if dryRun then old(store.Snapshot()) else FileStep(st, old(store.Snapshot()), e, now)
    ensures dead == if !dryRun && v == Update then ExistingId(old(store.nodes), e.path.name) else None
    ensures minted == if !dryRun && (v == Create || v == Update) then Some(old(store.nextId)) else None
  {
    hide VerdictFor, MetaFor, MintedRow, LiveSet, FileStep, VerdictIn, BornIn, ExistingId;
    var id := LiveNodeForPath(store.nodes, e.path.name);
    FileStepIs(st, store.Snapshot(), e, id, now);
    var row := if id.Some? then Some(store.nodes[id.value]) else None;
    v, born := VerdictFor(st, e, row), MetaFor(st, e, row).pending.Some?;
    dead, minted := None, None;
    if !dryRun && (v == Create || v == Update) {
      if v == Update {
        store.nodes := store.nodes[id.value := Kill(row.value, now, SUPERSEDED)];
        dead := id;
      }
      minted := Some(store.nextId);
      store.nodes := store.nodes[store.nextId := MintedRow(st, e, row, now)];
      store.nextId := store.nextId + 1;
    }
  }

  /** FileStep, told from the node that was found. */
  lemma FileStepIs(st: Settings, s: State, e: Entry, id: Option<nat>, now: int)
    requires id == ExistingId(s.nodes, e.path.name)
    ensures id.Some? ==> id.value in s.nodes
    ensures var row := if id.Some? then Some(s.nodes[id.value]) else None;
      var v := VerdictFor(st, e, row);
      && v == VerdictIn(st, s.nodes, e) && MetaFor(st, e, row).pending.Some? == BornIn(st, s.nodes, e)
      && (v == Update ==> id.Some?)
      && FileStep(st, s, e, now) ==
        if v == Refuse || v == Skip then s
        else
          var nodes := if v == Update then s.nodes[id.value := Kill(row.value, now, SUPERSEDED)] else s.nodes;
          State(nodes[s.nextId := MintedRow(st, e, row, now)], s.edges, s.nextId + 1)
  {
    hide VerdictFor, MetaFor, MintedRow, LiveSet;
    ExistingInTable(s.nodes, e.path.name);
    if VerdictIn(st, s.nodes, e) != Create { UpdateHasRow(st, s, e); }
  }

  lemma ExistingInTable(nodes: map<nat, Row>, rel: string)
    ensures ExistingId(nodes, rel).Some? ==> ExistingId(nodes, rel).value in nodes
  {
  }

  /** Rows alive in `a` and dead in `b`. */
  ghost function Killed(a: map<nat, Row>, b: map<nat, Row>): set<nat> {
    set x | x in a && x in b && !a[x].tombstoned && b[x].tombstoned
  }

  ghost function RefusedPaths(st: Settings, nodes: map<nat, Row>, files: seq<Entry>): set<Path> {
    set e | e in files && VerdictIn(st, nodes, e) == Refuse :: e.path
  }

  /** The loop's bookkeeping: `t` is the store after the files in `done`, and the two
      lists hold the ids minted and the ids killed since `s`. */
  ghost predicate Reached(st: Settings, s: State, t: State, done: seq<Entry>, now: int, dryRun: bool,
                          newIds: seq<nat>, deadIds: seq<nat>) {
    if dryRun then t == s && newIds == [] && deadIds == []
    else
      && t == AfterFiles(st, s, done, now)
      && s.nodes.Keys <= t.nodes.Keys
      && Ids(newIds) == t.nodes.Keys - s.nodes.Keys
      && Ids(deadIds) == Killed(s.nodes, t.nodes)
  }

  lemma ReachedJudges(st: Settings, s: State, t: State, files: seq<Entry>, i: nat, now: int, dryRun: bool,
                      newIds: seq<nat>, deadIds: seq<nat>)
    requires Counted(s) && Healing.DistinctNames(files) && i < |files|
    requires Reached(st, s, t, files[..i], now, dryRun, newIds, deadIds)
    ensures Counted(t)
    ensures ExistingId(t.nodes, files[i].path.name) == ExistingId(s.nodes, files[i].path.name)
    ensures ExistingRow(t.nodes, files[i].path.name) == ExistingRow(s.nodes, files[i].path.name)
    ensures VerdictIn(st, t.nodes, files[i]) == VerdictIn(st, s.nodes, files[i])
    ensures BornIn(st, t.nodes, files[i]) == BornIn(st, s.nodes, files[i])
  {
    if !dryRun {
      AfterFilesFrame(st, s, files[..i], now, "");
      JudgedIndependently(st, s, files, i, now);
    }
  }

  function Listed(o: Option<nat>): seq<nat> {
    if o.Some? then [o.value] else []
  }

  lemma ReachedStep(st: Settings, s: State, t: State, files: seq<Entry>, i: nat, now: int,
                    newIds: seq<nat>, deadIds: seq<nat>, dead: Option<nat>, minted: Option<nat>)
    requires Counted(s) && Healing.DistinctNames(files) && i < |files|
    requires Reached(st, s, t, files[..i], now, false, newIds, deadIds)
    requires var v := VerdictIn(st, s.nodes, files[i]);
      && dead == (if v == Update then ExistingId(s.nodes, files[i].path.name) else None)
      && minted == (if v == Create || v == Update then Some(t.nextId) else None)
    ensures Reached(st, s, FileStep(st, t, files[i], now), files[..i + 1], now, false,
      newIds + Listed(minted), deadIds + Listed(dead))
  {
    hide VerdictFor, MintedRow, LiveSet, FileStep, ExistingId, AfterFiles, VerdictIn, Healing.DistinctNames, Killed;
    var e := files[i];
    ReachedJudges(st, s, t, files, i, now, false, newIds, deadIds);
    StepChanges(st, t, e, now);
    if VerdictIn(st, s.nodes, e) != Create { UpdateHasRow(st, s, e); }
    AfterFilesExtends(st, s, files, i, now);
    KilledStep(s.nodes, t.nodes, FileStep(st, t, e, now).nodes, dead, minted);
    IdsAppend(newIds, minted);
    IdsAppend(deadIds, dead);
  }

  lemma AfterFilesExtends(st: Settings, s: State, files: seq<Entry>, i: nat, now: int)
    requires i < |files|
    ensures AfterFiles(st, s, files[..i + 1], now) == FileStep(st, AfterFiles(st, s, files[..i], now), files[i], now)
  {
    assert files[..i + 1][..i] == files[..i];
    hide FileStep;
  }

  lemma IdsAppend(q: seq<nat>, o: Option<nat>)
    ensures Ids(q + Listed(o)) == Ids(q) + (if o.Some? then {o.value} else {})
  {
  }

  lemma KilledStep(a: map<nat, Row>, b: map<nat, Row>, c: map<nat, Row>, dead: Option<nat>, minted: Option<nat>)
    requires a.Keys <= b.Keys && c.Keys == b.Keys + (if minted.Some? then {minted.value} else {})
    requires minted.Some? ==> minted.value !in b
    requires dead.Some? ==> dead.value in a && !a[dead.value].tombstoned && c[dead.value].tombstoned
    requires forall x | x in b :: (dead != Some(x) ==> c[x] == b[x])
    ensures Killed(a, c) == Killed(a, b) + (if dead.Some? then {dead.value} else {})
  {
  }

  /** What one file changes in the table: the killed predecessor and the minted row. */
  lemma StepChanges(st: Settings, s: State, e: Entry, now: int)
    requires Counted(s)
    ensures var t := FileStep(st, s, e, now);
      var v := VerdictIn(st, s.nodes, e);
      var id := ExistingId(s.nodes, e.path.name);
      && t.nodes.Keys == s.nodes.Keys + (if v == Create || v == Update then {s.nextId} else {})
      && (forall x | x in s.nodes ::
        t.nodes[x] == (if v == Update && id == Some(x) then Kill(s.nodes[x], now, SUPERSEDED) else s.nodes[x]))
      && (v == Create || v == Update ==> t.nodes[s.nextId] == MintedRow(st, e, ExistingRow(s.nodes, e.path.name), now))
      && t.edges == s.edges
      && t.nextId == if v == Create || v == Update then s.nextId + 1 else s.nextId
  {
    hide VerdictFor, MintedRow, LiveSet;
    if VerdictIn(st, s.nodes, e) != Create { UpdateHasRow(st, s, e); }
  }

  lemma RefusedAppend(st: Settings, nodes: map<nat, Row>, files: seq<Entry>, i: nat, locked: set<Path>)
    requires i < |files|
    ensures RefusedPaths(st, nodes, files[..i + 1]) - locked == (RefusedPaths(st, nodes, files[..i]) - locked) +
      (if VerdictIn(st, nodes, files[i]) == Refuse && files[i].path !in locked then {files[i].path} else {})
  {
    hide VerdictIn;
    assert files[..i + 1] == files[..i] + [files[i]];
    forall p ensures p in RefusedPaths(st, nodes, files[..i + 1]) <==>
      p in RefusedPaths(st, nodes, files[..i]) || (VerdictIn(st, nodes, files[i]) == Refuse && p == files[i].path)
    {
      if VerdictIn(st, nodes, files[i]) == Refuse {
        assert files[i] in files[..i + 1];
      }
    }
  }

  /** The directory after the files in `done`: the refused ones that could be
      unlinked are gone. */
  ghost predicate DiskAfter(st: Settings, nodes: map<nat, Row>, disk0: Disk, disk: Disk, done: seq<Entry>,
                            dryRun: bool, locked: set<Path>) {
    disk == if dryRun then disk0 else Filtered(disk0, RefusedPaths(st, nodes, done) - locked)
  }

  /** Unlinking the resurfaced file of a redacted node; a failing unlink is ignored. */
  method SettleFile(dir: MemoryDir, v: Verdict, st: Settings, files: seq<Entry>, i: nat, dryRun: bool, locked: set<Path>,
                    ghost nodes: map<nat, Row>, ghost disk0: Disk)
    requires i < |files| && v == VerdictIn(st, nodes, files[i])
    requires DiskAfter(st, nodes, disk0, dir.disk, files[..i], dryRun, locked)
    modifies dir
    ensures dir.shelf == old(dir.shelf)
    ensures DiskAfter(st, nodes, disk0, dir.disk, files[..i + 1], dryRun, locked)
  {
    RefusedAppend(st, nodes, files, i, locked);
    ghost var before := RefusedPaths(st, nodes, files[..i]) - locked;
    hide VerdictIn, Filtered, RefusedPaths;
    if !dryRun {
      if v == Refuse && files[i].path !in locked {
        FilteredTwice(disk0, before, {files[i].path});
        dir.disk := Filtered(dir.disk, {files[i].path});
      } else {
        assert before + {} == before;
      }
    }
  }

  /** The file loop. */
  method ImportFiles(store: Store, dir: MemoryDir, st: Settings, files: seq<Entry>, now: int, dryRun: bool,
                     locked: set<Path>, start: Stats)
    returns (stats: Stats, newIds: seq<nat>, deadIds: seq<nat>)
    requires Counted(store.Snapshot()) && Healing.DistinctNames(files)
    modifies store, dir
    ensures Reached(st, old(store.Snapshot()), store.Snapshot(), files, now, dryRun, newIds, deadIds)
    ensures stats == Tally(st, old(store.nodes), files, start)
    ensures dir.shelf == old(dir.shelf)
    ensures DiskAfter(st, old(store.nodes), old(dir.disk), dir.disk, files, dryRun, locked)
  {
    ghost var s := store.Snapshot();
    stats, newIds, deadIds := start, [], [];
    NothingReached(st, s, dir.disk, now, dryRun, locked, start);
    assert files[..0] == [];
    for i := 0 to |files|
      invariant Reached(st, s, store.Snapshot(), files[..i], now, dryRun, newIds, deadIds)
      invariant stats == Tally(st, s.nodes, files[..i], start)
      invariant dir.shelf == old(dir.shelf)
      invariant DiskAfter(st, s.nodes, old(dir.disk), dir.disk, files[..i], dryRun, locked)
    {
      hide *;
      ghost var t := store.Snapshot();
      ReachedJudges(st, s, t, files, i, now, dryRun, newIds, deadIds);
      var v, born, dead, minted := ImportFile(store, st, files[i], now, dryRun);
      SettleFile(dir, v, st, files, i, dryRun, locked, s.nodes, old(dir.disk));
      TallyAppend(st, s.nodes, files, i, start);
      stats := Tallied(stats, v, born);
      if dryRun {
        ReachedDry(st, s, t, files, i, now, newIds, deadIds);
      } else {
        ReachedStep(st, s, t, files, i, now, newIds, deadIds, dead, minted);
      }
      newIds, deadIds := newIds + Listed(minted), deadIds + Listed(dead);
    }
    assert files[..|files|] == files;
  }

  lemma NothingReached(st: Settings, s: State, disk: Disk, now: int, dryRun: bool, locked: set<Path>, start: Stats)
    ensures Reached(st, s, s, [], now, dryRun, [], [])
    ensures DiskAfter(st, s.nodes, disk, disk, [], dryRun, locked)
    ensures Tally(st, s.nodes, [], start) == start
  {
    assert RefusedPaths(st, s.nodes, []) - locked == {};
    FilteredNone(disk, {});
  }

  lemma TallyAppend(st: Settings, nodes: map<nat, Row>, files: seq<Entry>, i: nat, start: Stats)
    requires i < |files|
    ensures Tally(st, nodes, files[..i + 1], start) ==
      Tallied(Tally(st, nodes, files[..i], start), VerdictIn(st, nodes, files[i]), BornIn(st, nodes, files[i]))
  {
    assert files[..i + 1][..i] == files[..i];
    hide VerdictIn, BornIn;
  }

  lemma ReachedDry(st: Settings, s: State, t: State, files: seq<Entry>, i: nat, now: int, newIds: seq<nat>, deadIds: seq<nat>)
    requires i < |files| && Reached(st, s, t, files[..i], now, true, newIds, deadIds)
    ensures Reached(st, s, t, files[..i + 1], now, true, newIds + Listed(None), deadIds + Listed(None))
  {
    assert newIds + [] == newIds && deadIds + [] == deadIds;
  }

  // ----- after the files: sweep, cascade, staleness

  /** Tombstone the live file-backed rows whose file is not present, in id order. */
  method Sweep(store: Store, present: set<string>, now: int, dryRun: bool) returns (swept: seq<nat>)
    modifies store
    ensures Ordering.Lists(swept, Gone(old(store.nodes), present), IdKey(old(store.nodes)))
    ensures store.Snapshot() == if dryRun then old(store.Snapshot()) else AfterSweep(old(store.Snapshot()), present, now)
  {
    var gone := Gone(store.nodes, present);
    swept := Ordering.OrderBy(gone, IdKey(store.nodes));
    if !dryRun {
      store.nodes := map id | id in store.nodes ::
        if id in gone then Kill(store.nodes[id], now, SOURCE_REMOVED) else store.nodes[id];
    }
  }

  /** The cascade of every swept node, then their staleness. */
  method FollowUp(store: Store, swept: seq<nat>, now: int) returns (staled: nat)
    modifies store
    ensures store.Snapshot() == StaleAll(CascadeAll(old(store.Snapshot()), swept, now), swept, now)
    ensures staled == StaleCount(CascadeAll(old(store.Snapshot()), swept, now), swept, now)
  {
    ghost var s := store.Snapshot();
    for i := 0 to |swept|
      invariant store.Snapshot() == CascadeAll(s, swept[..i], now)
    {
      hide CascadeOne;
      CascadeKeepsPaths(s, swept[..i], now);
      TombstoneDerived(store, swept[i], Filing.Text(RowPath(store.nodes, swept[i])), now);
      assert swept[..i + 1][..i] == swept[..i];
    }
    assert swept[..|swept|] == swept;
    ghost var c := store.Snapshot();
    staled := 0;
    for i := 0 to |swept|
      invariant store.Snapshot() == StaleAll(c, swept[..i], now)
      invariant staled == StaleCount(c, swept[..i], now)
    {
      hide StaleOne, Staled;
      StaleKeepsPaths(c, swept[..i], now);
      var n := MarkStaleCascade(store, swept[i], Filing.Text(RowPath(store.nodes, swept[i])), now);
      staled := staled + n;
      assert swept[..i + 1][..i] == swept[..i];
    }
  }

  function RowPath(nodes: map<nat, Row>, id: nat): Option<string> {
    if id in nodes then nodes[id].bridgePath else None
  }

  ghost function Staled(s: State, nid: nat): set<nat> {
    set x | x in s.nodes && GoesStale(s, nid, x)
  }

  ghost function StaleCount(s: State, swept: seq<nat>, now: int): nat {
    if swept == [] then 0
    else
      var n := |swept| - 1;
      StaleCount(s, swept[..n], now) + |Staled(StaleAll(s, swept[..n], now), swept[n])|
  }

  /** Tombstone the live agent-derived rows the swept node reaches. */
  method TombstoneDerived(store: Store, nid: nat, path: string, now: int)
    modifies store
    ensures store.Snapshot() == CascadeOne(old(store.Snapshot()), nid, path, now)
  {
    var reached := RecursiveUnion(Down(store.edges), {nid});
    assert forall x | x in store.nodes && !store.nodes[x].tombstoned :: x in reached <==> Dooms(store.Snapshot(), nid, x);
    store.nodes := map x | x in store.nodes ::
      if x in reached && !store.nodes[x].tombstoned && store.nodes[x].channel == AgentDerived then
        Kill(store.nodes[x], now, SweepCascade(nid, path))
      else store.nodes[x];
  }

  /** mark_stale_cascade for one swept node: the number of rows newly stale. */
  method MarkStaleCascade(store: Store, nid: nat, path: string, now: int) returns (n: nat)
    modifies store
    ensures store.Snapshot() == StaleOne(old(store.Snapshot()), nid, path, now)
    ensures n == |Staled(old(store.Snapshot()), nid)|
  {
    var reached := RecursiveUnion(Down(store.edges), {nid});
    var marked := set x | x in store.nodes && x in reached && !store.nodes[x].stale;
    assert forall x | x in store.nodes :: x in marked <==> GoesStale(store.Snapshot(), nid, x);
    assert marked == Staled(store.Snapshot(), nid);
    n := |marked|;
    store.nodes := map x | x in store.nodes ::
      if x in marked then
        store.nodes[x].(stale := true, staleAt := Some(now),
                        staleReason := Some(if x == nid then SweepCascade(nid, path) else CascadeFrom(nid)))
      else store.nodes[x];
  }

  /** What the follow-up leaves alone in every row. */
  ghost predicate SameBut(a: State, b: State) {
    && a.edges == b.edges && a.nextId == b.nextId && a.nodes.Keys == b.nodes.Keys
    && forall x | x in a.nodes ::
      a.nodes[x].bridgePath == b.nodes[x].bridgePath && a.nodes[x].channel == b.nodes[x].channel
  }

  lemma {:induction false} CascadeKeepsPaths(s: State, swept: seq<nat>, now: int)
    ensures SameBut(s, CascadeAll(s, swept, now))
  {
    if swept != [] { CascadeKeepsPaths(s, swept[..|swept| - 1], now); }
  }

  lemma {:induction false} StaleKeepsPaths(s: State, swept: seq<nat>, now: int)
    ensures SameBut(s, StaleAll(s, swept, now))
  {
    if swept != [] { StaleKeepsPaths(s, swept[..|swept| - 1], now); }
  }

  // ----- import_memory_dir

  /** The store after an applied import, before the follow-up on swept nodes. */
  ghost function Imported(st: Settings, s: State, files: seq<Entry>, now: int): State {
    AfterSweep(AfterFiles(st, s, files, now), Names(files), now)
  }

  ghost predicate HasLiveMemory(nodes: map<nat, Row>) {
    exists id :: id in nodes && IsLiveMemory(nodes[id])
  }

  /** The import is not refused: an empty directory is, against a store with live memories. */
  ghost predicate Runnable(nodes: map<nat, Row>, files: seq<Entry>) {
    files == [] ==> !HasLiveMemory(nodes)
  }

  lemma SweptListing(a: map<nat, Row>, b: map<nat, Row>, present: set<string>, swept: seq<nat>)
    requires Gone(a, present) == Gone(b, present)
    requires Ordering.Lists(swept, Gone(b, present), IdKey(b))
    ensures Ordering.Lists(swept, Gone(a, present), IdKey(a)) && |swept| == |Gone(a, present)|
  {
    hide Sweepable;
    assert forall i | 0 <= i < |swept| :: swept[i] in swept && swept[i] in Gone(a, present);
    forall i, j | 0 <= i < j < |swept| ensures Ordering.Before(IdKey(a), swept[i], swept[j]) {
      assert Ordering.Before(IdKey(b), swept[i], swept[j]);
    }
    Ordering.ListingLength(swept, Gone(a, present), IdKey(a));
  }

  /** The two id lists of a run say exactly what was minted and what was tombstoned. */
  lemma SweepKills(st: Settings, s: State, files: seq<Entry>, now: int, newIds: seq<nat>, deadIds: seq<nat>, swept: seq<nat>)
    requires Counted(s) && Reached(st, s, AfterFiles(st, s, files, now), files, now, false, newIds, deadIds)
    requires Ordering.Lists(swept, Gone(s.nodes, Names(files)), IdKey(s.nodes))
    ensures Ids(newIds) == Imported(st, s, files, now).nodes.Keys - s.nodes.Keys
    ensures Ids(deadIds + swept) == Killed(s.nodes, Imported(st, s, files, now).nodes)
  {
    SweepUnaffectedByFiles(st, s, files, now);
    hide AfterFiles;
  }

  datatype Outcome =
    | Refused
    | Done(stats: Stats, staled: nat, newIds: seq<nat>, deadIds: seq<nat>, swept: seq<nat>)

  /** import_memory_dir. The counters are the same function of the store and the
      directory whether or not anything is written; a dry run leaves both as they
      were; an empty directory against a non-empty store is refused. */
  method ImportMemoryDir(store: Store, dir: MemoryDir, st: Settings, now: int, dryRun: bool, locked: set<Path>)
    returns (r: Outcome)
    requires Counted(store.Snapshot()) && DistinctPaths(dir.disk)
    modifies store, dir
    ensures r.Refused? <==> !Runnable(old(store.nodes), MemoryFiles(old(dir.disk)))
    ensures dryRun || r.Refused? ==>
      store.Snapshot() == old(store.Snapshot()) && dir.disk == old(dir.disk) && dir.shelf == old(dir.shelf)
    ensures r.Done? ==> r.stats == ExpectedStats(st, old(store.nodes), old(dir.disk))
    ensures r.Done? ==> Ordering.Lists(r.swept, Gone(old(store.nodes), Names(MemoryFiles(old(dir.disk)))), IdKey(old(store.nodes)))
    ensures r.Done? && !dryRun ==>
      var files := MemoryFiles(old(dir.disk));
      var done := Imported(st, old(store.Snapshot()), files, now);
      && store.Snapshot() == StaleAll(CascadeAll(done, r.swept, now), r.swept, now)
      && r.staled == StaleCount(CascadeAll(done, r.swept, now), r.swept, now)
      && Ids(r.newIds) == done.nodes.Keys - old(store.nodes.Keys)
      && Ids(r.deadIds) == Killed(old(store.nodes), done.nodes)
      && dir.disk == Filtered(Healed(old(dir.disk)), RefusedPaths(st, old(store.nodes), files) - locked)
      && dir.shelf == Shelved(Walk(old(dir.disk)), old(dir.shelf), HealDrops(old(dir.disk)))
  {
    ghost var s := store.Snapshot();
    ghost var disk0 := dir.disk;
    Healing.HealKeepsTheFileList(dir.disk, dir.shelf);
    Healing.FileListIsOnePerName(dir.disk);
    var heal := dir.Heal(dryRun);
    var files := MemoryFiles(dir.disk);
    assert files == MemoryFiles(disk0);
    if files == [] && exists id | id in store.nodes :: IsLiveMemory(store.nodes[id]) {
      Healing.NoFilesNothingToHeal(disk0, old(dir.shelf));
      return Refused;
    }
    var start := Stats(|files|, 0, 0, 0, 0, 0, 0, heal.dedup, heal.quarantined, 0);
    var stats, newIds, deadIds := ImportFiles(store, dir, st, files, now, dryRun, locked, start);
    var present := Names(files);
    ghost var afterFiles := store.Snapshot();
    SweepUnaffectedByFiles(st, s, files, now);
    var swept := Sweep(store, present, now, dryRun);
    SweptListing(s.nodes, afterFiles.nodes, present, swept);
    stats := stats.(swept := |swept|);
    var staled := 0;
    if !dryRun {
      SweepKills(st, s, files, now, newIds, deadIds, swept);
      deadIds := deadIds + swept;
      staled := FollowUp(store, swept, now);
    }
    r := Done(stats, staled, newIds, deadIds, swept);
  }
}
