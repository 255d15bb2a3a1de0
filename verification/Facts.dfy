/** Reading facts back from the history the importer builds (memsom/bridge/facts.py). */
module Facts {
  import opened Base
  import opened Frontmatter
  import opened Dag
  import opened MemoryTree
  import opened Filing
  import opened Importer
  import opened Reconciled
  import opened Reimport
  import DagRuns
  import Healing
  import Literals
  import Ordering

  datatype Version = Version(nid: nat, value: Option<string>, unit: Option<string>, createdAt: int,
                             tombstoned: bool, tombstonedAt: Option<int>, revokeReason: Option<Reason>)

  /** What a reference is displayed as. */
  datatype Display =
    | Current(text: string)
    | Was(text: string, old_: string, asOf: int)
    | Retired(text: string, at: Option<int>, why: Option<Reason>)

  predicate IsFact(n: Note) {
    Get(TopLevel(n.lines), "type") == Some("fact")
  }

  /** The rows of one fact: its path, not redacted, typed as a fact. */
  function FactRows(nodes: map<nat, Row>, stem: string): set<nat> {
    set id | id in nodes && nodes[id].bridgePath == Some(stem + ".md") && !nodes[id].redacted && IsFact(nodes[id].content)
  }

  function VersionOf(id: nat, r: Row): Version {
    var fm := TopLevel(r.content.lines);
    Version(id, Get(fm, "value"), Get(fm, "unit"), r.createdAt, r.tombstoned, r.tombstonedAt, r.revokeReason)
  }

  function Nids(vs: seq<Version>): (ids: seq<nat>)
    ensures |ids| == |vs| && forall i | 0 <= i < |vs| :: ids[i] == vs[i].nid
  {
    seq(|vs|, i requires 0 <= i < |vs| => vs[i].nid)
  }

  /** `vs` is the history of a fact: every version once, oldest first. */
  ghost predicate History(nodes: map<nat, Row>, stem: string, vs: seq<Version>) {
    && Ordering.Lists(Nids(vs), FactRows(nodes, stem), IdKey(nodes))
    && forall i | 0 <= i < |vs| :: vs[i].nid in nodes && vs[i] == VersionOf(vs[i].nid, nodes[vs[i].nid])
  }

  /** fact_versions. */
  method FactVersions(store: Store, stem: string) returns (vs: seq<Version>)
    ensures History(store.nodes, stem, vs)
    ensures forall i | 0 <= i < |vs| :: vs[i].nid in store.nodes && IsVersion(store.nodes, stem, vs[i].nid) && Records(vs[i], store.nodes[vs[i].nid])
    ensures forall id | IsVersion(store.nodes, stem, id) :: exists i :: 0 <= i < |vs| && vs[i].nid == id
    ensures forall i, j | 0 <= i < j < |vs| :: vs[i].nid < vs[j].nid
  {
    var rows := set id | id in store.nodes && store.nodes[id].bridgePath == Some(stem + ".md") && !store.nodes[id].redacted;
    var ids := Ordering.OrderBy(rows, IdKey(store.nodes));
    vs := [];
    for i := 0 to |ids|
      invariant Collected(store.nodes, ids, i, vs)
    {
      assert ids[i] in rows;
      hide *;
      Collect(store.nodes, ids, i, vs);
      if IsFact(store.nodes[ids[i]].content) {
        vs := vs + [VersionOf(ids[i], store.nodes[ids[i]])];
      }
    }
    CollectedAll(store.nodes, ids, vs, stem);
    HistoryRecords(store.nodes, stem, vs);
  }

  /** The row is a version of the fact: of its file, not redacted, and typed so at the top
      level of its frontmatter. */
  predicate IsVersion(nodes: map<nat, Row>, stem: string, id: nat) {
    && id in nodes && nodes[id].bridgePath == Some(stem + ".md") && !nodes[id].redacted
    && (var fm := TopLevel(nodes[id].content.lines); "type" in fm && fm["type"] == "fact")
  }

  /** A version shows what its row holds. */
  predicate Records(v: Version, r: Row) {
    var fm := TopLevel(r.content.lines);
    && (v.value.Some? <==> "value" in fm) && (v.value.Some? ==> v.value.value == fm["value"])
    && (v.unit.Some? <==> "unit" in fm) && (v.unit.Some? ==> v.unit.value == fm["unit"])
    && v.createdAt == r.createdAt && v.tombstoned == r.tombstoned
    && v.tombstonedAt == r.tombstonedAt && v.revokeReason == r.revokeReason
  }

  lemma HistoryRecords(nodes: map<nat, Row>, stem: string, vs: seq<Version>)
    requires History(nodes, stem, vs)
    ensures forall i | 0 <= i < |vs| :: vs[i].nid in nodes && IsVersion(nodes, stem, vs[i].nid) && Records(vs[i], nodes[vs[i].nid])
    ensures forall id | IsVersion(nodes, stem, id) :: exists i :: 0 <= i < |vs| && vs[i].nid == id
    ensures forall i, j | 0 <= i < j < |vs| :: vs[i].nid < vs[j].nid
  {
    forall i | 0 <= i < |vs| ensures vs[i].nid in nodes && IsVersion(nodes, stem, vs[i].nid) && Records(vs[i], nodes[vs[i].nid]) {
      assert Nids(vs)[i] in FactRows(nodes, stem);
    }
    forall id | IsVersion(nodes, stem, id) ensures exists i :: 0 <= i < |vs| && vs[i].nid == id {
      assert id in FactRows(nodes, stem);
      assert id in Nids(vs);
    }
    forall i, j | 0 <= i < j < |vs| ensures vs[i].nid < vs[j].nid {
      assert Ordering.Before(IdKey(nodes), Nids(vs)[i], Nids(vs)[j]);
    }
  }

  /** The loop of fact_versions after `i` rows. */
  ghost predicate Collected(nodes: map<nat, Row>, ids: seq<nat>, i: nat, vs: seq<Version>)
    requires i <= |ids|
  {
    && (forall id :: id in Nids(vs) <==> id in ids[..i] && id in nodes && IsFact(nodes[id].content))
    && (forall j, k | 0 <= j < k < |vs| :: vs[j].nid < vs[k].nid)
    && (forall j | 0 <= j < |vs| :: vs[j].nid in nodes && vs[j] == VersionOf(vs[j].nid, nodes[vs[j].nid]))
  }

  lemma Collect(nodes: map<nat, Row>, ids: seq<nat>, i: nat, vs: seq<Version>)
    requires i < |ids| && ids[i] in nodes && (forall j, k | 0 <= j < k < |ids| :: ids[j] < ids[k])
    requires Collected(nodes, ids, i, vs)
    ensures var id := ids[i];
      Collected(nodes, ids, i + 1, if IsFact(nodes[id].content) then vs + [VersionOf(id, nodes[id])] else vs)
  {
    hide IsFact;
    var id := ids[i];
    assert ids[..i + 1] == ids[..i] + [id];
    if IsFact(nodes[id].content) {
      forall j | 0 <= j < |vs| ensures vs[j].nid < id {
        assert Nids(vs)[j] in ids[..i];
      }
      assert Nids(vs + [VersionOf(id, nodes[id])]) == Nids(vs) + [id];
    }
  }

  lemma CollectedAll(nodes: map<nat, Row>, ids: seq<nat>, vs: seq<Version>, stem: string)
    requires Collected(nodes, ids, |ids|, vs)
    requires forall id :: id in ids <==> id in nodes && nodes[id].bridgePath == Some(stem + ".md") && !nodes[id].redacted
    ensures History(nodes, stem, vs)
  {
    hide IsFact, VersionOf;
    assert ids[..|ids|] == ids;
  }

  // ----- resolution

  function Fmt(v: Version): string {
    if v.value.None? then ""
    else if Truthy(v.unit) then v.value.value + " " + v.unit.value
    else v.value.value
  }

  /** The first live version. */
  function FirstLive(vs: seq<Version>): (i: nat)
    ensures i <= |vs|
    ensures forall j | 0 <= j < i :: vs[j].tombstoned
    ensures i < |vs| ==> !vs[i].tombstoned
  {
    if vs == [] || !vs[0].tombstoned then 0 else 1 + FirstLive(vs[1..])
  }

  /** The newest version created at or before `t`, else the first. */
  function AsOf(vs: seq<Version>, t: int): (i: nat)
    requires vs != []
    ensures i < |vs|
    ensures vs[i].createdAt <= t ==> forall j | i < j < |vs| :: vs[j].createdAt > t
    ensures vs[i].createdAt > t ==> i == 0 && forall j | 0 <= j < |vs| :: vs[j].createdAt > t
    decreases |vs|
  {
    var n := |vs| - 1;
    if vs[n].createdAt <= t then n
    else if n == 0 then 0
    else AsOf(vs[..n], t)
  }

  /** resolve_ref over a history; None leaves the raw link. */
  function Resolve(vs: seq<Version>, asOf: Option<int>): Option<Display> {
    if vs == [] then None
    else
      var live := FirstLive(vs);
      if live == |vs| then
        var last := vs[|vs| - 1];
        if Fmt(last) == "" then None
        else
          Some(Retired(Fmt(last), last.tombstonedAt, if last.revokeReason == Some(SOURCE_REMOVED) then None else last.revokeReason))
      else
        var cur := Fmt(vs[live]);
        if cur == "" then None
        else if asOf.None? then Some(Current(cur))
        else
          var at := vs[AsOf(vs, asOf.value)];
          if at.nid != vs[live].nid && Fmt(at) != "" && Fmt(at) != cur then Some(Was(cur, Fmt(at), asOf.value))
          else Some(Current(cur))
  }

  /** How a value is displayed: with its unit behind it, if it has one that is not empty. */
  predicate IsText(text: string, value: Option<string>, unit: Option<string>) {
    && (value.None? ==> text == "")
    && (value.Some? && unit.Some? && unit.value != "" ==> text == value.value + " " + unit.value)
    && (value.Some? && (unit.None? || unit.value == "") ==> text == value.value)
  }

  lemma FmtIsText(v: Version)
    ensures IsText(Fmt(v), v.value, v.unit)
  {
  }

  /** What a history resolves to, case by case. With no live version the last one is shown
      as retired, with the reason unless it is the plain removal of the file; otherwise the
      first live one is shown, and nothing where its text is empty. */
  lemma ResolvesTo(vs: seq<Version>, live: nat, text: string)
    requires live <= |vs| && (forall j | 0 <= j < live :: vs[j].tombstoned) && (live < |vs| ==> !vs[live].tombstoned)
    requires vs != [] && IsText(text, (if live < |vs| then vs[live] else vs[|vs| - 1]).value, (if live < |vs| then vs[live] else vs[|vs| - 1]).unit)
    ensures text == "" ==> forall asOf :: Resolve(vs, asOf) == None
    ensures text != "" && live < |vs| ==> Resolve(vs, None) == Some(Current(text))
    ensures text != "" && live == |vs| ==>
      forall asOf :: Resolve(vs, asOf) == Some(Retired(text, vs[|vs| - 1].tombstonedAt,
        if vs[|vs| - 1].revokeReason == Some(Text("source file removed (bridge reconcile)")) then None else vs[|vs| - 1].revokeReason))
  {
    FmtIsText(if live < |vs| then vs[live] else vs[|vs| - 1]);
    assert FirstLive(vs) == live;
  }

  /** A fact has one history. */
  lemma HistoryIsUnique(nodes: map<nat, Row>, stem: string, vs: seq<Version>, ws: seq<Version>)
    requires History(nodes, stem, vs) && History(nodes, stem, ws)
    ensures vs == ws
  {
    Ordering.ListingUnique(Nids(vs), Nids(ws), FactRows(nodes, stem), IdKey(nodes));
    forall i | 0 <= i < |vs| ensures vs[i] == ws[i] {
      assert Nids(vs)[i] == Nids(ws)[i];
    }
  }

  /** resolve_ref: what the fact's history resolves to. */
  method ResolveRef(store: Store, stem: string, asOf: Option<int>) returns (r: Option<Display>)
    ensures exists vs :: History(store.nodes, stem, vs)
    ensures forall vs | History(store.nodes, stem, vs) :: r == Resolve(vs, asOf)
  {
    var versions := FactVersions(store, stem);
    forall vs | History(store.nodes, stem, vs) ensures vs == versions {
      HistoryIsUnique(store.nodes, stem, vs, versions);
    }
    r := Resolve(versions, asOf);
  }

  // ----- the runs that build the history

  /** An import of the files, an import of the index lines, or any step of the DAG that
      does not redact. */
  datatype Step =
    | Import(files: seq<Entry>, st: Settings, swept: seq<nat>, now: int)
    | Mirror(wanted: Literals.Wanted, hash: Note -> int, at: int)
    | Other(step: DagRuns.Step)

  ghost predicate Next(s: State, step: Step, t: State) {
    match step
    case Import(files, st, swept, now) =>
      && Healing.DistinctNames(files) && (forall e | e in files :: Split(e)) && Runnable(s.nodes, files)
      && Ordering.Lists(swept, Gone(s.nodes, Names(files)), IdKey(s.nodes))
      && t == AfterImport(st, s, files, swept, now)
    case Mirror(w, hash, now) => Literals.Proper(w) && t == Literals.Mirrored(s, w, hash, now)
    case Other(dag) => (dag.Mark? ==> !dag.redacted) && DagRuns.Next(s, dag, t)
  }

  /** No clock reading of the run is earlier than one before it, and one content hash is used. */
  ghost predicate IsRun(hash: Note -> int, steps: seq<Step>, trace: seq<State>) {
    && |trace| == |steps| + 1 && trace[0] == EMPTY
    && (forall i | 0 <= i < |steps| :: Next(trace[i], steps[i], trace[i + 1]))
    && (forall i, j | 0 <= i < j < |steps| && steps[i].Import? && steps[j].Import? :: steps[i].now <= steps[j].now)
    && (forall i | 0 <= i < |steps| && steps[i].Import? :: steps[i].st.hash == hash)
    && (forall i | 0 <= i < |steps| && steps[i].Mirror? :: steps[i].hash == hash)
  }

  /** What holds between the rows of one path, by `now`. */
  ghost predicate Chain(hash: Note -> int, s: State) {
    && Counted(s)
    && (forall a | a in s.nodes && s.nodes[a].bridgePath.Some? ::
      && !s.nodes[a].redacted && s.nodes[a].channel != AgentDerived
      && s.nodes[a].contentHash == Some(hash(s.nodes[a].content))
      && s.nodes[a].sourceRef == Some("memory:" + Stem(s.nodes[a].bridgePath.value)))
    && (forall a, b | a in s.nodes && b in s.nodes && a < b && SamePath(s.nodes[a], s.nodes[b]) ::
      s.nodes[a].tombstoned && s.nodes[a].createdAt <= s.nodes[b].createdAt)
  }

  predicate SamePath(a: Row, b: Row) {
    a.bridgePath.Some? && a.bridgePath == b.bridgePath
  }

  ghost predicate CreatedBy(s: State, now: int) {
    forall a | a in s.nodes && s.nodes[a].bridgePath.Some? :: s.nodes[a].createdAt <= now
  }

  lemma ChainGivesOneLive(hash: Note -> int, s: State)
    requires Chain(hash, s)
    ensures OneLivePerPath(s.nodes)
  {
    forall rel ensures OneLive(s.nodes, rel) {
      forall a, b | a in LiveSet(s.nodes, rel) && b in LiveSet(s.nodes, rel) ensures a == b {
        assert SamePath(s.nodes[a], s.nodes[b]) && SamePath(s.nodes[b], s.nodes[a]);
      }
    }
  }

  // ----- one step

  /** A row keeps what a version shows; once dead, its death record too. */
  ghost predicate Kept(a: Row, b: Row) {
    && b.content == a.content && b.bridgePath == a.bridgePath && b.createdAt == a.createdAt && b.redacted == a.redacted
    && b.channel == a.channel && b.contentHash == a.contentHash && b.sourceRef == a.sourceRef
    && (a.tombstoned ==> b.tombstoned && b.tombstonedAt == a.tombstonedAt && b.revokeReason == a.revokeReason)
  }

  /** Old rows are kept, and new ones have larger ids. */
  ghost predicate Grows(s: State, t: State) {
    && (forall id | id in s.nodes :: id in t.nodes && Kept(s.nodes[id], t.nodes[id]))
    && (forall id | id in t.nodes && id !in s.nodes :: s.nextId <= id)
  }

  lemma ImportGrows(s: State, files: seq<Entry>, st: Settings, swept: seq<nat>, now: int)
    requires Counted(s) && Healing.DistinctNames(files)
    ensures Grows(s, AfterImport(st, s, files, swept, now))
    ensures Counted(AfterImport(st, s, files, swept, now))
  {
    var t := Imported(st, s, files, now);
    var u := AfterImport(st, s, files, swept, now);
    ImportKeepsTable(st, s, files, now);
    NewIdsAreLarger(st, s, files, now);
    CascadeKeepsPaths(t, swept, now);
    StaleKeepsPaths(CascadeAll(t, swept, now), swept, now);
    hide Imported, CascadeAll, StaleAll, Kept;
    forall id | id in s.nodes ensures id in u.nodes && Kept(s.nodes[id], u.nodes[id]) {
      ImportKeepsRow(s, files, st, swept, now, id);
    }
  }

  lemma ImportKeepsRow(s: State, files: seq<Entry>, st: Settings, swept: seq<nat>, now: int, id: nat)
    requires Counted(s) && Healing.DistinctNames(files) && id in s.nodes
    ensures var u := AfterImport(st, s, files, swept, now).nodes;
      id in u && Kept(s.nodes[id], u[id])
  {
    var t := Imported(st, s, files, now);
    var c := CascadeAll(t, swept, now);
    ImportRowFate(st, s, files, now, id);
    if SupersededBy(st, s.nodes, files, id) { SupersededIsLive(st, s, files, id); }
    GoneIsLive(s.nodes, Names(files));
    hide Imported, CascadeAll, StaleAll, SupersededBy, MintedBy, Gone;
    CascadeKillsDerivedDescendants(t, swept, now, id);
    StalenessKillsNothing(c, swept, now, id);
  }

  lemma GoneIsLive(nodes: map<nat, Row>, present: set<string>)
    ensures forall id | id in Gone(nodes, present) :: id in nodes && !nodes[id].tombstoned
  {
  }

  lemma {:induction false} NewIdsAreLarger(st: Settings, s: State, files: seq<Entry>, now: int)
    requires Counted(s)
    ensures forall id | id in Imported(st, s, files, now).nodes && id !in s.nodes :: s.nextId <= id
  {
    NewFileIdsAreLarger(st, s, files, now);
    hide AfterFiles;
  }

  lemma {:induction false} NewFileIdsAreLarger(st: Settings, s: State, files: seq<Entry>, now: int)
    requires Counted(s)
    ensures forall id | id in AfterFiles(st, s, files, now).nodes && id !in s.nodes :: s.nextId <= id
  {
    if files != [] {
      var n := |files| - 1;
      NewFileIdsAreLarger(st, s, files[..n], now);
      CountsUp(st, s, files[..n], now);
      AfterFilesFrame(st, s, files[..n], now, "");
      StepChanges(st, AfterFiles(st, s, files[..n], now), files[n], now);
      hide FileStep, VerdictFor, MintedRow;
    }
  }

  /** No file row is added, and those that are there are kept. */
  ghost predicate KeepsFileRows(s: State, t: State) {
    && Counted(t)
    && (forall id | id in s.nodes && s.nodes[id].bridgePath.Some? :: id in t.nodes && Kept(s.nodes[id], t.nodes[id]))
    && (forall id | id in t.nodes && t.nodes[id].bridgePath.Some? :: id in s.nodes && s.nodes[id].bridgePath.Some?)
  }

  lemma OtherGrows(s: State, step: DagRuns.Step, t: State)
    requires Counted(s) && (step.Mark? ==> !step.redacted) && DagRuns.Next(s, step, t)
    requires forall a | a in s.nodes :: s.nodes[a].bridgePath.Some? ==> !s.nodes[a].redacted
    ensures KeepsFileRows(s, t)
  {
  }

  lemma MirrorGrows(s: State, w: Literals.Wanted, hash: Note -> int, now: int)
    requires Counted(s) && Literals.Proper(w)
    ensures KeepsFileRows(s, Literals.Mirrored(s, w, hash, now))
  {
    var u := Literals.Mirrored(s, w, hash, now);
    Literals.CountedAfter(s, w, hash, now);
    Literals.MirroredHaveNoFile(s, w, hash, now);
    hide Literals.Mirrored, Literals.Loses;
    forall id | id in s.nodes ensures id in u.nodes && Kept(s.nodes[id], u.nodes[id]) {
      Literals.LiteralRowFate(s, w, hash, now, id);
      Literals.LosersAreLive(s.nodes, w.notes, id);
    }
  }

  lemma StepKeepsFileRows(hash: Note -> int, s: State, step: Step, t: State)
    requires Chain(hash, s) && Next(s, step, t) && !step.Import?
    ensures KeepsFileRows(s, t)
  {
    hide DagRuns.Next, SamePath, Literals.Mirrored, Literals.Proper, KeepsFileRows;
    if step.Mirror? {
      MirrorGrows(s, step.wanted, step.hash, step.at);
    } else {
      OtherGrows(s, step.step, t);
    }
  }

  lemma ImportKeepsChain(hash: Note -> int, s: State, files: seq<Entry>, st: Settings, swept: seq<nat>, now: int)
    requires Chain(hash, s) && CreatedBy(s, now) && Healing.DistinctNames(files) && st.hash == hash
    ensures Chain(hash, AfterImport(st, s, files, swept, now)) && CreatedBy(AfterImport(st, s, files, swept, now), now)
  {
    var u := AfterImport(st, s, files, swept, now);
    ChainGivesOneLive(hash, s);
    ImportKeepsOneLivePerPath(st, s, files, now);
    ImportGrows(s, files, st, swept, now);
    hide AfterImport, SamePath, OneLivePerPath, Chain;
    forall a | a in u.nodes && u.nodes[a].bridgePath.Some? ensures FileRow(hash, s, u, a, now) {
      ImportedFileRow(hash, s, files, st, swept, now, a);
    }
    forall a, b | a in u.nodes && b in u.nodes && a < b && SamePath(u.nodes[a], u.nodes[b])
      ensures u.nodes[a].tombstoned && u.nodes[a].createdAt <= u.nodes[b].createdAt
    {
      ChainPair(hash, s, files, st, swept, now, a, b);
    }
    ChainFrom(hash, u);
  }

  lemma ChainFrom(hash: Note -> int, s: State)
    requires Counted(s)
    requires forall a | a in s.nodes && s.nodes[a].bridgePath.Some? ::
      && !s.nodes[a].redacted && s.nodes[a].channel != AgentDerived
      && s.nodes[a].contentHash == Some(hash(s.nodes[a].content))
      && s.nodes[a].sourceRef == Some("memory:" + Stem(s.nodes[a].bridgePath.value))
    requires forall a, b | a in s.nodes && b in s.nodes && a < b && SamePath(s.nodes[a], s.nodes[b]) ::
      s.nodes[a].tombstoned && s.nodes[a].createdAt <= s.nodes[b].createdAt
    ensures Chain(hash, s)
  {
  }

  /** A file row of `u`: well kept, made at `now` when it is new, and alive then. */
  ghost predicate FileRow(hash: Note -> int, s: State, u: State, a: nat, now: int)
    requires a in u.nodes && u.nodes[a].bridgePath.Some?
  {
    var r := u.nodes[a];
    && !r.redacted && r.channel != AgentDerived && r.contentHash == Some(hash(r.content)) && r.createdAt <= now
    && r.sourceRef == Some("memory:" + Stem(r.bridgePath.value))
    && (a !in s.nodes ==> !r.tombstoned && r.createdAt == now)
    && (a in s.nodes ==> s.nodes[a].bridgePath == r.bridgePath)
  }

  lemma ImportedFileRow(hash: Note -> int, s: State, files: seq<Entry>, st: Settings, swept: seq<nat>, now: int, a: nat)
    requires Chain(hash, s) && CreatedBy(s, now) && Healing.DistinctNames(files) && st.hash == hash
    requires var u := AfterImport(st, s, files, swept, now); a in u.nodes && u.nodes[a].bridgePath.Some?
    ensures FileRow(hash, s, AfterImport(st, s, files, swept, now), a, now)
    ensures var t, u := Imported(st, s, files, now), AfterImport(st, s, files, swept, now);
      a in t.nodes && t.nodes[a].bridgePath == u.nodes[a].bridgePath && t.nodes[a].tombstoned == u.nodes[a].tombstoned
  {
    var t := Imported(st, s, files, now);
    var c := CascadeAll(t, swept, now);
    ImportGrows(s, files, st, swept, now);
    CascadeKeepsPaths(t, swept, now);
    StaleKeepsPaths(c, swept, now);
    hide Imported, CascadeAll, StaleAll, SupersededBy, MintedBy, Gone, SamePath;
    ImportRowFate(st, s, files, now, a);
    CascadeKillsDerivedDescendants(t, swept, now, a);
    StalenessKillsNothing(c, swept, now, a);
    if a !in s.nodes { MintedShape(st, s, files, now, t.nodes[a]); }
  }

  lemma ChainPair(hash: Note -> int, s: State, files: seq<Entry>, st: Settings, swept: seq<nat>, now: int, a: nat, b: nat)
    requires Chain(hash, s) && CreatedBy(s, now) && Healing.DistinctNames(files) && st.hash == hash
    requires OneLivePerPath(Imported(st, s, files, now).nodes)
    requires var u := AfterImport(st, s, files, swept, now);
      a in u.nodes && b in u.nodes && a < b && SamePath(u.nodes[a], u.nodes[b])
    ensures var u := AfterImport(st, s, files, swept, now);
      u.nodes[a].tombstoned && u.nodes[a].createdAt <= u.nodes[b].createdAt
  {
    var u := AfterImport(st, s, files, swept, now);
    var t := Imported(st, s, files, now);
    ImportGrows(s, files, st, swept, now);
    ImportedFileRow(hash, s, files, st, swept, now, a);
    ImportedFileRow(hash, s, files, st, swept, now, b);
    hide AfterImport, Imported;
    if a in s.nodes && b in s.nodes {
      assert SamePath(s.nodes[a], s.nodes[b]);
    } else {
      var rel := u.nodes[a].bridgePath.value;
      assert OneLive(t.nodes, rel);
      assert b !in s.nodes;
      assert b in LiveSet(t.nodes, rel);
      assert a in LiveSet(t.nodes, rel) ==> a == b;
    }
  }

  lemma OtherKeepsChain(hash: Note -> int, s: State, t: State)
    requires Chain(hash, s) && KeepsFileRows(s, t)
    ensures Chain(hash, t) && forall now :: CreatedBy(s, now) ==> CreatedBy(t, now)
  {
    forall a, b | a in t.nodes && b in t.nodes && a < b && SamePath(t.nodes[a], t.nodes[b])
      ensures t.nodes[a].tombstoned && t.nodes[a].createdAt <= t.nodes[b].createdAt
    {
      assert SamePath(s.nodes[a], s.nodes[b]);
    }
  }

  lemma EmptyChain(hash: Note -> int)
    ensures Chain(hash, EMPTY) && forall now :: CreatedBy(EMPTY, now)
  {
  }

  lemma LaterClock(s: State, now: int)
    requires CreatedBy(s, now)
    ensures forall later | now <= later :: CreatedBy(s, later)
  {
  }

  lemma {:induction false} RunKeepsChain(hash: Note -> int, steps: seq<Step>, trace: seq<State>, i: nat)
    requires IsRun(hash, steps, trace) && i <= |steps|
    ensures Chain(hash, trace[i])
    ensures forall j | i <= j < |steps| && steps[j].Import? :: CreatedBy(trace[i], steps[j].now)
  {
    EmptyChain(hash);
    hide Chain, DagRuns.Next, CreatedBy, AfterImport, KeepsFileRows, Literals.Mirrored;
    if i > 0 {
      var s, t, step := trace[i - 1], trace[i], steps[i - 1];
      RunKeepsChain(hash, steps, trace, i - 1);
      assert Next(s, step, t);
      if step.Import? {
        ImportKeepsChain(hash, s, step.files, step.st, step.swept, step.now);
        LaterClock(t, step.now);
      } else {
        StepKeepsFileRows(hash, s, step, t);
        OtherKeepsChain(hash, s, t);
      }
    }
  }

  lemma {:induction false} RunKeepsFiled(hash: Note -> int, steps: seq<Step>, trace: seq<State>, i: nat)
    requires IsRun(hash, steps, trace) && i <= |steps|
    ensures Filed(trace[i].nodes)
  {
    if i == 0 {
      assert trace[0].nodes == map[];
    } else {
      assert Next(trace[i - 1], steps[i - 1], trace[i]);
      hide *;
      RunKeepsFiled(hash, steps, trace, i - 1);
      RunKeepsChain(hash, steps, trace, i - 1);
      StepKeepsFiled(hash, trace[i - 1], steps[i - 1], trace[i]);
    }
  }

  lemma StepKeepsFiled(hash: Note -> int, s: State, step: Step, t: State)
    requires Chain(hash, s) && Filed(s.nodes) && Next(s, step, t)
    ensures Filed(t.nodes)
  {
    hide Filed, Chain, DagRuns.Next, Literals.Mirrored, Literals.Proper, Imported, Gone, CascadeAll, StaleAll, KeepsFileRows;
    if step.Import? {
      CountedInChain(hash, s);
      ImportKeepsFiled(step.st, s, step.files, step.now);
      FollowUpKeepsFiled(Imported(step.st, s, step.files, step.now), step.swept, step.now);
    } else {
      StepKeepsFileRows(hash, s, step, t);
      OtherKeepsFiled(s, t);
    }
  }

  lemma CountedInChain(hash: Note -> int, s: State)
    requires Chain(hash, s)
    ensures Counted(s)
  {
  }

  lemma FollowUpKeepsFiled(t: State, swept: seq<nat>, now: int)
    requires Filed(t.nodes)
    ensures Filed(StaleAll(CascadeAll(t, swept, now), swept, now).nodes)
  {
    var c := CascadeAll(t, swept, now);
    var u := StaleAll(c, swept, now);
    CascadeKeepsPaths(t, swept, now);
    StaleKeepsPaths(c, swept, now);
    hide CascadeAll, StaleAll, HeldMeansUnsectioned;
    forall id | id in LiveFileRows(u.nodes)
      ensures u.nodes[id].channel != AgentDerived && HeldMeansUnsectioned(TopLevel(u.nodes[id].content.lines))
    {
      CascadeKillsDerivedDescendants(t, swept, now, id);
      StalenessKillsNothing(c, swept, now, id);
      assert id in LiveFileRows(t.nodes);
    }
  }

  lemma OtherKeepsFiled(s: State, t: State)
    requires Filed(s.nodes) && KeepsFileRows(s, t)
    ensures Filed(t.nodes)
  {
    hide HeldMeansUnsectioned;
    forall id | id in LiveFileRows(t.nodes)
      ensures t.nodes[id].channel != AgentDerived && HeldMeansUnsectioned(TopLevel(t.nodes[id].content.lines))
    {
      assert id in LiveFileRows(s.nodes);
    }
  }

  // ----- histories

  lemma {:induction false} ListingPrefix(p: seq<nat>, a: set<nat>, ka: map<nat, int>, q: seq<nat>, b: set<nat>, kb: map<nat, int>)
    requires Ordering.Lists(p, a, ka) && Ordering.Lists(q, b, kb) && a <= b
    requires (forall x | x in ka :: ka[x] == 0) && (forall x | x in kb :: kb[x] == 0)
    requires forall x, y | x in a && y in b && y !in a :: x < y
    ensures |p| <= |q| && q[..|p|] == p
    decreases |p|
  {
    if p != [] {
      assert p[0] in a && p[0] in q;
      assert q[0] in q && q[0] in b;
      assert q[0] == p[0];
      Ordering.ListingTail(p, a, ka);
      Ordering.ListingTail(q, b, kb);
      ListingPrefix(p[1..], a - {p[0]}, ka, q[1..], b - {q[0]}, kb);
      assert p == [p[0]] + p[1..] && q == [q[0]] + q[1..];
      assert q[..|p|] == [q[0]] + q[1..][..|p| - 1];
    }
  }

  /** A version that is listed again: the same value and date; its death record may
      be added once and never changes. */
  ghost predicate SameVersion(v: Version, w: Version) {
    && w.nid == v.nid && w.value == v.value && w.unit == v.unit && w.createdAt == v.createdAt
    && (v.tombstoned ==> w == v)
  }

  /** Over every run, a fact's versions are append-only. */
  lemma VersionsAreAppendOnly(hash: Note -> int, steps: seq<Step>, trace: seq<State>, i: nat, stem: string,
                              vs: seq<Version>, ws: seq<Version>)
    requires IsRun(hash, steps, trace) && i < |steps|
    requires History(trace[i].nodes, stem, vs) && History(trace[i + 1].nodes, stem, ws)
    ensures |vs| <= |ws| && forall k | 0 <= k < |vs| :: SameVersion(vs[k], ws[k])
  {
    var s, t, step := trace[i], trace[i + 1], steps[i];
    RunKeepsChain(hash, steps, trace, i);
    FactRowsGrow(hash, s, step, t, stem);
    ListingPrefix(Nids(vs), FactRows(s.nodes, stem), IdKey(s.nodes), Nids(ws), FactRows(t.nodes, stem), IdKey(t.nodes));
    forall k | 0 <= k < |vs| ensures SameVersion(vs[k], ws[k]) {
      assert Nids(ws)[..|vs|][k] == Nids(vs)[k];
      assert vs[k].nid in Nids(vs);
      assert vs[k].nid in FactRows(s.nodes, stem);
    }
  }

  lemma FactRowsGrow(hash: Note -> int, s: State, step: Step, t: State, stem: string)
    requires Chain(hash, s) && Next(s, step, t)
    ensures FactRows(s.nodes, stem) <= FactRows(t.nodes, stem)
    ensures forall x | x in FactRows(s.nodes, stem) :: Kept(s.nodes[x], t.nodes[x])
    ensures forall x, y | x in FactRows(s.nodes, stem) && y in FactRows(t.nodes, stem) && y !in FactRows(s.nodes, stem) :: x < y
  {
    if step.Import? {
      ImportGrows(s, step.files, step.st, step.swept, step.now);
      hide AfterImport, SamePath, IsFact;
      assert Grows(s, t);
    } else {
      StepKeepsFileRows(hash, s, step, t);
      hide DagRuns.Next, SamePath, IsFact, Literals.Mirrored;
    }
  }

  /** At most one version is live, and it is the newest. */
  lemma LiveVersionIsNewest(hash: Note -> int, steps: seq<Step>, trace: seq<State>, i: nat, stem: string, vs: seq<Version>)
    requires IsRun(hash, steps, trace) && i <= |steps| && History(trace[i].nodes, stem, vs)
    ensures forall k | 0 <= k < |vs| - 1 :: vs[k].tombstoned
    ensures forall j, k | 0 <= j < k < |vs| :: vs[j].createdAt <= vs[k].createdAt
  {
    var s := trace[i];
    RunKeepsChain(hash, steps, trace, i);
    forall j, k | 0 <= j < k < |vs| ensures vs[j].tombstoned && vs[j].createdAt <= vs[k].createdAt {
      assert Ordering.Before(IdKey(s.nodes), Nids(vs)[j], Nids(vs)[k]);
      assert vs[j].nid in Nids(vs) && vs[k].nid in Nids(vs);
      assert SamePath(s.nodes[vs[j].nid], s.nodes[vs[k].nid]);
    }
    forall k | 0 <= k < |vs| - 1 ensures vs[k].tombstoned {
      assert vs[k + 1].nid in Nids(vs) || k + 1 == |vs|;
    }
  }

  // ----- how long a history stands

  /** The step writes or retires a row of `rel`: an import that writes a file of that name
      or finds it gone, an import of the lines that takes its live row for a literal's, or a
      revocation that reaches that row. */
  ghost predicate Touches(s: State, step: Step, rel: string) {
    match step
    case Import(files, st, swept, now) =>
      || (exists e :: e in files && e.path.name == rel && Writes(VerdictIn(st, s.nodes, e)))
      || (exists id :: id in Gone(s.nodes, Names(files)) && id in LiveSet(s.nodes, rel))
    case Mirror(w, _, _) => exists id :: id in LiveSet(s.nodes, rel) && Literals.Loses(s.nodes, w.notes, id)
    case Other(dag) => dag.Revoke? && exists id :: id in LiveSet(s.nodes, rel) && Dooms(s, dag.seed, id)
  }

  ghost predicate Untouched(steps: seq<Step>, trace: seq<State>, i: nat, j: nat, rel: string)
    requires |trace| == |steps| + 1 && j <= |steps|
  {
    forall m | i <= m < j :: !Touches(trace[m], steps[m], rel)
  }

  /** Row `x` stands for `rel` in both states or in neither, with one death record. */
  ghost predicate StandsAs(s: State, t: State, rel: string, x: nat) {
    && ((x in s.nodes && s.nodes[x].bridgePath == Some(rel)) <==> (x in t.nodes && t.nodes[x].bridgePath == Some(rel)))
    && (x in s.nodes && s.nodes[x].bridgePath == Some(rel) ==>
      && x in t.nodes && Kept(s.nodes[x], t.nodes[x])
      && (t.nodes[x].tombstoned ==> s.nodes[x].tombstoned)
      && t.nodes[x].tombstonedAt == s.nodes[x].tombstonedAt && t.nodes[x].revokeReason == s.nodes[x].revokeReason)
  }

  lemma ImportLetsStand(hash: Note -> int, s: State, files: seq<Entry>, st: Settings, swept: seq<nat>, now: int, rel: string, x: nat)
    requires Chain(hash, s) && Healing.DistinctNames(files)
    requires !Touches(s, Step.Import(files, st, swept, now), rel)
    ensures StandsAs(s, AfterImport(st, s, files, swept, now), rel, x)
  {
    var t := Imported(st, s, files, now);
    var c := CascadeAll(t, swept, now);
    CountedInChain(hash, s);
    ImportTableIs(s, files, st, swept, now);
    ImportRowFate(st, s, files, now, x);
    NotSuperseded(s, files, st, swept, now, rel, x);
    NotGone(s, files, st, swept, now, rel, x);
    if x in s.nodes { ImportKeepsRow(s, files, st, swept, now, x); }
    hide Imported, CascadeAll, StaleAll, SupersededBy, MintedBy, SamePath, Gone, Touches;
    if x in t.nodes {
      CascadeKillsDerivedDescendants(t, swept, now, x);
      StalenessKillsNothing(c, swept, now, x);
    }
  }

  lemma ImportTableIs(s: State, files: seq<Entry>, st: Settings, swept: seq<nat>, now: int)
    ensures AfterImport(st, s, files, swept, now).nodes.Keys == Imported(st, s, files, now).nodes.Keys
  {
    var t := Imported(st, s, files, now);
    CascadeKeepsPaths(t, swept, now);
    StaleKeepsPaths(CascadeAll(t, swept, now), swept, now);
    hide Imported, CascadeAll, StaleAll;
  }

  lemma NotGone(s: State, files: seq<Entry>, st: Settings, swept: seq<nat>, now: int, rel: string, x: nat)
    requires !Touches(s, Step.Import(files, st, swept, now), rel)
    ensures x in Gone(s.nodes, Names(files)) ==> s.nodes[x].bridgePath != Some(rel)
  {
    hide VerdictIn, Writes, Gone;
    GoneIsLive(s.nodes, Names(files));
    assert x in Gone(s.nodes, Names(files)) && s.nodes[x].bridgePath == Some(rel) ==> x in LiveSet(s.nodes, rel);
  }

  lemma NotSuperseded(s: State, files: seq<Entry>, st: Settings, swept: seq<nat>, now: int, rel: string, x: nat)
    requires !Touches(s, Step.Import(files, st, swept, now), rel)
    ensures SupersededBy(st, s.nodes, files, x) ==> x in s.nodes && s.nodes[x].bridgePath != Some(rel)
    ensures forall row | MintedBy(st, s.nodes, files, now, row) :: row.bridgePath != Some(rel)
  {
    hide Gone;
    if SupersededBy(st, s.nodes, files, x) {
      var e :| e in files && VerdictIn(st, s.nodes, e) == Update && ExistingId(s.nodes, e.path.name) == Some(x);
      UpdateHasRow(st, s, e);
    }
    forall row | MintedBy(st, s.nodes, files, now, row) ensures row.bridgePath != Some(rel) {
      var e :| e in files && Writes(VerdictIn(st, s.nodes, e)) && row == MintedRow(st, e, ExistingRow(s.nodes, e.path.name), now);
      MintedFor(st, e, ExistingRow(s.nodes, e.path.name), now);
    }
  }

  lemma OtherLetsStand(s: State, step: DagRuns.Step, t: State, rel: string, x: nat)
    requires Counted(s) && (step.Mark? ==> !step.redacted) && DagRuns.Next(s, step, t)
    requires forall a | a in s.nodes :: s.nodes[a].bridgePath.Some? ==> !s.nodes[a].redacted
    requires !Touches(s, Step.Other(step), rel)
    ensures StandsAs(s, t, rel, x)
  {
    OtherGrows(s, step, t);
    if step.Revoke? && x in s.nodes && s.nodes[x].bridgePath == Some(rel) && !s.nodes[x].tombstoned {
      assert x in LiveSet(s.nodes, rel);
    }
  }

  lemma MirrorLetsStand(s: State, w: Literals.Wanted, hash: Note -> int, now: int, rel: string, x: nat)
    requires Counted(s) && Literals.Proper(w) && !Touches(s, Step.Mirror(w, hash, now), rel)
    ensures StandsAs(s, Literals.Mirrored(s, w, hash, now), rel, x)
  {
    MirrorGrows(s, w, hash, now);
    hide Literals.Mirrored, Literals.Loses;
    if x in s.nodes {
      Literals.LiteralRowFate(s, w, hash, now, x);
      Literals.LosersAreLive(s.nodes, w.notes, x);
      assert s.nodes[x].bridgePath == Some(rel) && !s.nodes[x].tombstoned ==> x in LiveSet(s.nodes, rel);
    }
  }

  lemma HistoryStands(s: State, t: State, stem: string, vs: seq<Version>)
    requires forall x :: StandsAs(s, t, stem + ".md", x)
    ensures History(s.nodes, stem, vs) <==> History(t.nodes, stem, vs)
  {
    hide IsFact;
    forall x
      ensures x in FactRows(s.nodes, stem) <==> x in FactRows(t.nodes, stem)
      ensures x in FactRows(s.nodes, stem) ==> VersionOf(x, s.nodes[x]) == VersionOf(x, t.nodes[x])
    {
      assert StandsAs(s, t, stem + ".md", x);
    }
    SameRowsSameHistory(s.nodes, t.nodes, stem, vs);
    SameRowsSameHistory(t.nodes, s.nodes, stem, vs);
  }

  lemma SameRowsSameHistory(a: map<nat, Row>, b: map<nat, Row>, stem: string, vs: seq<Version>)
    requires FactRows(a, stem) == FactRows(b, stem)
    requires forall x | x in FactRows(a, stem) :: VersionOf(x, a[x]) == VersionOf(x, b[x])
    ensures History(a, stem, vs) ==> History(b, stem, vs)
  {
    hide IsFact, VersionOf;
    if History(a, stem, vs) {
      forall i | 0 <= i < |vs| ensures vs[i].nid in b && vs[i] == VersionOf(vs[i].nid, b[vs[i].nid]) {
        assert Nids(vs)[i] in FactRows(a, stem);
      }
      forall i, j | 0 <= i < j < |vs| ensures Ordering.Before(IdKey(b), Nids(vs)[i], Nids(vs)[j]) {
        assert Nids(vs)[i] in FactRows(a, stem) && Nids(vs)[j] in FactRows(a, stem);
        assert Ordering.Before(IdKey(a), Nids(vs)[i], Nids(vs)[j]);
      }
    }
  }

  lemma StepLetsStand(hash: Note -> int, s: State, step: Step, t: State, stem: string, vs: seq<Version>)
    requires Chain(hash, s) && Next(s, step, t) && !Touches(s, step, stem + ".md")
    ensures History(s.nodes, stem, vs) <==> History(t.nodes, stem, vs)
  {
    hide Touches, History, AfterImport, StandsAs, DagRuns.Next, SamePath, Literals.Mirrored;
    forall x ensures StandsAs(s, t, stem + ".md", x) {
      if step.Import? {
        ImportLetsStand(hash, s, step.files, step.st, step.swept, step.now, stem + ".md", x);
      } else if step.Mirror? {
        MirrorLetsStand(s, step.wanted, step.hash, step.at, stem + ".md", x);
      } else {
        OtherLetsStand(s, step.step, t, stem + ".md", x);
      }
    }
    HistoryStands(s, t, stem, vs);
  }

  /** A fact's history stands through every run of steps that do not touch its path. */
  lemma {:induction false} HistoryLasts(hash: Note -> int, steps: seq<Step>, trace: seq<State>, i: nat, j: nat,
                                        stem: string, vs: seq<Version>)
    requires IsRun(hash, steps, trace) && i <= j <= |steps| && Untouched(steps, trace, i, j, stem + ".md")
    ensures History(trace[i].nodes, stem, vs) <==> History(trace[j].nodes, stem, vs)
    decreases j
  {
    if i < j {
      assert Next(trace[j - 1], steps[j - 1], trace[j]);
      assert !Touches(trace[j - 1], steps[j - 1], stem + ".md");
      assert Untouched(steps, trace, i, j - 1, stem + ".md");
      hide *;
      HistoryLasts(hash, steps, trace, i, j - 1, stem, vs);
      RunKeepsChain(hash, steps, trace, j - 1);
      StepLetsStand(hash, trace[j - 1], steps[j - 1], trace[j], stem, vs);
    }
  }

  // ----- what a reference shows

  /** As of a time, the note is added exactly when the version in force then (the
      newest created by then, else the first) displays something else that is not
      empty; that the two versions differ need not be tested separately. */
  lemma WasIffItShowedSomethingElse(nodes: map<nat, Row>, stem: string, vs: seq<Version>, asOf: int)
    requires History(nodes, stem, vs)
    requires vs != [] && FirstLive(vs) < |vs| && Fmt(vs[FirstLive(vs)]) != ""
    ensures var cur, before := Fmt(vs[FirstLive(vs)]), Fmt(vs[AsOf(vs, asOf)]);
      && (Resolve(vs, Some(asOf)) == Some(Was(cur, before, asOf)) <==> before != "" && before != cur)
      && (before == "" || before == cur ==> Resolve(vs, Some(asOf)) == Some(Current(cur)))
  {
    var live, at := vs[FirstLive(vs)], vs[AsOf(vs, asOf)];
    assert live == VersionOf(live.nid, nodes[live.nid]) && at == VersionOf(at.nid, nodes[at.nid]);
  }

  lemma FactFieldsSurviveStamping(st: Settings, e: Entry, existing: Option<Row>)
    requires Split(e)
    ensures var n := StampedFor(st, e, existing);
      && Get(TopLevel(n.lines), "type") == Get(TopLevel(e.file.raw.lines), "type")
      && Get(TopLevel(n.lines), "value") == Get(TopLevel(e.file.raw.lines), "value")
      && Get(TopLevel(n.lines), "unit") == Get(TopLevel(e.file.raw.lines), "unit")
  {
    var m := MetaFor(st, e, existing);
    var kv := StampsFor(m, e.path.dir);
    StampsDistinct(m, e.path.dir);
    forall k | k in {"type", "value", "unit"} ensures k !in StampedKeys(kv) {
      assert |k| < 7;
      assert |"section"| == 7 && |"index_title"| == 11 && |"index_hook"| == 10 && |"memory_subdir"| == 13 && |"index_pending"| == 13;
    }
    StampReadBack(e.file.raw, kv, "type");
    StampReadBack(e.file.raw, kv, "value");
    StampReadBack(e.file.raw, kv, "unit");
  }

  ghost predicate Injective(hash: Note -> int) {
    forall a, b :: hash(a) == hash(b) ==> a == b
  }

  /** The node of a file just imported holds what the file stamps to, and it alone is live. */
  lemma ImportedNode(hash: Note -> int, s: State, files: seq<Entry>, st: Settings, swept: seq<nat>, now: int, k: nat) returns (id: nat)
    requires Chain(hash, s) && Filed(s.nodes) && CreatedBy(s, now) && Healing.DistinctNames(files) && st.hash == hash
    requires Injective(hash) && k < |files| && forall e | e in files :: Split(e)
    ensures var u := AfterImport(st, s, files, swept, now).nodes;
      && LiveSet(u, files[k].path.name) == {id}
      && u[id].content == StampedFor(st, files[k], ExistingRow(s.nodes, files[k].path.name))
  {
    var e := files[k];
    var t := Imported(st, s, files, now);
    var u := AfterImport(st, s, files, swept, now).nodes;
    ChainGivesOneLive(hash, s);
    NotRefused(hash, s, st, e);
    EveryFileHasItsNode(st, s, files, now, k);
    ImportKeepsFiled(st, s, files, now);
    FollowUpKeepsFiles(t, swept, now, e.path.name);
    ImportKeepsChain(hash, s, files, st, swept, now);
    hide Imported, StaleAll, CascadeAll, VerdictIn, StampedFor, SamePath, ExistingRow, AfterImport;
    id :| LiveSet(t.nodes, e.path.name) == {id} &&
      t.nodes[id].contentHash == Some(st.hash(StampedFor(st, e, ExistingRow(s.nodes, e.path.name))));
    assert id in LiveSet(t.nodes, e.path.name) && id in LiveSet(u, e.path.name);
    assert hash(u[id].content) == hash(StampedFor(st, e, ExistingRow(s.nodes, e.path.name)));
  }

  lemma NotRefused(hash: Note -> int, s: State, st: Settings, e: Entry)
    requires Chain(hash, s)
    ensures VerdictIn(st, s.nodes, e) != Refuse
  {
    hide StampedFor, SamePath;
  }

  /** A history with a live row of its path ends in it; without one, nothing is live. */
  lemma LiveIsLast(nodes: map<nat, Row>, stem: string, vs: seq<Version>, id: nat)
    requires History(nodes, stem, vs) && LiveSet(nodes, stem + ".md") == {id}
    requires forall k | 0 <= k < |vs| - 1 :: vs[k].tombstoned
    ensures id in FactRows(nodes, stem) ==>
      vs != [] && vs[|vs| - 1] == VersionOf(id, nodes[id]) && FirstLive(vs) == |vs| - 1
    ensures id !in FactRows(nodes, stem) ==> FirstLive(vs) == |vs|
  {
    hide IsFact;
    forall k | 0 <= k < |vs| && !vs[k].tombstoned ensures vs[k].nid == id {
      assert vs[k].nid in Nids(vs);
      assert vs[k].nid in LiveSet(nodes, stem + ".md");
    }
    if id in FactRows(nodes, stem) {
      var k :| 0 <= k < |vs| && Nids(vs)[k] == id;
      assert id in LiveSet(nodes, stem + ".md");
    } else {
      forall k | 0 <= k < |vs| ensures vs[k].tombstoned { assert vs[k].nid in Nids(vs); }
    }
  }

  /** What a reference shows while `vs` is the history of a fact whose file was
      imported: the value the file gives at the top level of its frontmatter, if it
      declares itself a fact there; if not, never a current value. */
  ghost predicate ShowsFile(raw: Note, vs: seq<Version>) {
    var fm := TopLevel(raw.lines);
    if "type" in fm && fm["type"] == "fact" then
      && vs != [] && vs[|vs| - 1].value == Get(fm, "value") && vs[|vs| - 1].unit == Get(fm, "unit")
      && exists text | IsText(text, Get(fm, "value"), Get(fm, "unit")) :: Resolve(vs, None) == if text == "" then None else Some(Current(text))
    else Resolve(vs, None).None? || Resolve(vs, None).value.Retired?
  }

  /** From an import on, until a step touches the path, the reference shows what the
      imported file says. */
  lemma ReferenceShowsTheImportedValue(hash: Note -> int, steps: seq<Step>, trace: seq<State>, i: nat, j: nat, k: nat,
                                       stem: string, vs: seq<Version>)
    requires IsRun(hash, steps, trace) && Injective(hash) && i < j <= |steps| && steps[i].Import?
    requires k < |steps[i].files| && steps[i].files[k].path.name == stem + ".md"
    requires Untouched(steps, trace, i + 1, j, stem + ".md") && History(trace[j].nodes, stem, vs)
    ensures ShowsFile(steps[i].files[k].file.raw, vs)
  {
    hide *;
    HistoryLasts(hash, steps, trace, i + 1, j, stem, vs);
    ShowsTheImportedValueAtOnce(hash, steps, trace, i, k, stem, vs);
  }

  lemma ShowsTheImportedValueAtOnce(hash: Note -> int, steps: seq<Step>, trace: seq<State>, i: nat, k: nat,
                                    stem: string, vs: seq<Version>)
    requires IsRun(hash, steps, trace) && Injective(hash) && i < |steps| && steps[i].Import?
    requires k < |steps[i].files| && steps[i].files[k].path.name == stem + ".md"
    requires History(trace[i + 1].nodes, stem, vs)
    ensures ShowsFile(steps[i].files[k].file.raw, vs)
  {
    var s, step := trace[i], steps[i];
    var e := step.files[k];
    RunKeepsChain(hash, steps, trace, i);
    RunKeepsChain(hash, steps, trace, i + 1);
    RunKeepsFiled(hash, steps, trace, i);
    LiveVersionIsNewest(hash, steps, trace, i + 1, stem, vs);
    assert Next(s, step, trace[i + 1]);
    var id := ImportedNode(hash, s, step.files, step.st, step.swept, step.now, k);
    FactFieldsSurviveStamping(step.st, e, ExistingRow(s.nodes, e.path.name));
    hide *;
    ShownByItsNode(hash, trace[i + 1], e.file.raw, stem, vs, id);
  }

  /** The one live row of a path holds the fields of `raw`. */
  lemma ShownByItsNode(hash: Note -> int, s: State, raw: Note, stem: string, vs: seq<Version>, id: nat)
    requires Chain(hash, s) && History(s.nodes, stem, vs) && LiveSet(s.nodes, stem + ".md") == {id}
    requires forall k | 0 <= k < |vs| - 1 :: vs[k].tombstoned
    requires id in s.nodes && forall key | key in {"type", "value", "unit"} ::
      Get(TopLevel(s.nodes[id].content.lines), key) == Get(TopLevel(raw.lines), key)
    ensures ShowsFile(raw, vs)
  {
    LiveIsLast(s.nodes, stem, vs, id);
    hide Chain, SamePath, History;
    assert id in LiveSet(s.nodes, stem + ".md");
    UnredactedInChain(hash, s, id);
    if vs != [] {
      FmtIsText(vs[|vs| - 1]);
      assert IsText(Fmt(vs[|vs| - 1]), vs[|vs| - 1].value, vs[|vs| - 1].unit);
    }
  }

  lemma UnredactedInChain(hash: Note -> int, s: State, id: nat)
    requires Chain(hash, s) && id in s.nodes && s.nodes[id].bridgePath.Some?
    ensures !s.nodes[id].redacted
  {
  }

  /** The condition is the top level's: a fact whose keys the stamper nested under
      `metadata:` is filed as a fact by the importer and not read as one here. */
  lemma NestedFactIsNotRead(m: Line)
    requires IsMeta(m) && m.value == ""
    ensures var lines := [m, Pair(Child, "type", "fact"), Pair(Child, "value", "5")];
      && Get(Flat(lines), "type") == Some("fact") && Get(Flat(lines), "value") == Some("5")
      && !IsFact(Note(true, lines, ""))
  {
    var lines := [m, Pair(Child, "type", "fact"), Pair(Child, "value", "5")];
    assert IsMeta(lines[0]);
    assert FirstMeta(lines) == 0;
    var c := [Pair(Child, "type", "fact"), Pair(Child, "value", "5")];
    assert lines[1..] == c;
    NestedBlock(c);
    hide BlockLength, FirstMeta, Lifted;
    assert c[..2] == c && c[2..] == [] && lines[..0] + c[2..] == [];
    assert Flatten(lines) == lines[..0] + Lifted(c, TopKeys([])) + [];
    assert Flatten(lines) == [Pair(Top, "type", "fact"), Pair(Top, "value", "5")];
    ReadTwo(Pair(Top, "type", "fact"), Pair(Top, "value", "5"));
    TopLevelAppend([m], c);
    ReadTwo(c[0], c[1]);
    assert lines == [m] + c;
    assert [m][..0] == [];
  }

  lemma ReadTwo(a: Line, b: Line)
    requires a.Pair? && b.Pair? && a.key != b.key
    ensures TopLevel([a, b]) ==
      (if a.indent.Top? then map[a.key := a.value] else map[]) + (if b.indent.Top? then map[b.key := b.value] else map[])
  {
    assert [b] == [b] + [] && [a, b] == [a] + ([b] + []);
    TopLevelAt(b, []);
    TopLevelAt(a, [b]);
  }

  lemma NestedBlock(c: seq<Line>)
    requires c == [Pair(Child, "type", "fact"), Pair(Child, "value", "5")]
    ensures BlockLength(c) == 2 && FirstMeta([]) == 0 && TopKeys([]) == {}
    ensures Lifted(c, {}) == [Pair(Top, "type", "fact"), Pair(Top, "value", "5")]
  {
    assert c[1..] == [Pair(Child, "value", "5")] && c[1..][1..] == [];
    assert Lifted(c[1..], {} + {"type"}) == [Pair(Top, "value", "5")];
  }

  /** Once the file is gone the last known value stays on display, flagged with the
      time of the import that noticed, until a step touches the path. */
  lemma VanishedFactIsRetired(hash: Note -> int, steps: seq<Step>, trace: seq<State>, i: nat, j: nat, stem: string,
                              vs: seq<Version>, ws: seq<Version>, asOf: Option<int>)
    requires IsRun(hash, steps, trace) && i < j <= |steps| && steps[i].Import?
    requires stem + ".md" !in Names(steps[i].files) && !LiteralStem(stem + ".md")
    requires History(trace[i].nodes, stem, vs) && vs != [] && !vs[|vs| - 1].tombstoned
    requires Untouched(steps, trace, i + 1, j, stem + ".md") && History(trace[j].nodes, stem, ws)
    ensures |ws| == |vs|
    ensures Resolve(ws, asOf) ==
      if Fmt(vs[|vs| - 1]) == "" then None else Some(Retired(Fmt(vs[|vs| - 1]), Some(steps[i].now), None))
  {
    hide *;
    HistoryLasts(hash, steps, trace, i + 1, j, stem, ws);
    VanishedFactIsRetiredAtOnce(hash, steps, trace, i, stem, vs, ws, asOf);
  }

  lemma VanishedFactIsRetiredAtOnce(hash: Note -> int, steps: seq<Step>, trace: seq<State>, i: nat, stem: string,
                                    vs: seq<Version>, ws: seq<Version>, asOf: Option<int>)
    requires IsRun(hash, steps, trace) && i < |steps| && steps[i].Import?
    requires stem + ".md" !in Names(steps[i].files) && !LiteralStem(stem + ".md")
    requires History(trace[i].nodes, stem, vs) && vs != [] && !vs[|vs| - 1].tombstoned
    requires History(trace[i + 1].nodes, stem, ws)
    ensures |ws| == |vs|
    ensures Resolve(ws, asOf) ==
      if Fmt(vs[|vs| - 1]) == "" then None else Some(Retired(Fmt(vs[|vs| - 1]), Some(steps[i].now), None))
  {
    hide AfterImport, Chain, SamePath, IsFact, Resolve, LiteralStem;
    var s, t, step := trace[i], trace[i + 1], steps[i];
    var id := vs[|vs| - 1].nid;
    RunKeepsChain(hash, steps, trace, i);
    VersionsAreAppendOnly(hash, steps, trace, i, stem, vs, ws);
    LiveVersionIsNewest(hash, steps, trace, i + 1, stem, ws);
    assert Next(s, step, t);
    assert id in Nids(vs);
    VanishedRow(hash, s, step.files, step.st, step.swept, step.now, stem, id);
    hide IsRun, Next;
    Ordering.ListingLength(Nids(vs), FactRows(s.nodes, stem), IdKey(s.nodes));
    Ordering.ListingLength(Nids(ws), FactRows(t.nodes, stem), IdKey(t.nodes));
    ResolveRetired(ws, asOf, steps[i].now);
  }

  lemma ResolveRetired(ws: seq<Version>, asOf: Option<int>, now: int)
    requires ws != [] && forall k | 0 <= k < |ws| :: ws[k].tombstoned
    requires ws[|ws| - 1].tombstonedAt == Some(now) && ws[|ws| - 1].revokeReason == Some(SOURCE_REMOVED)
    ensures Resolve(ws, asOf) ==
      if Fmt(ws[|ws| - 1]) == "" then None else Some(Retired(Fmt(ws[|ws| - 1]), Some(now), None))
  {
  }

  lemma VanishedRow(hash: Note -> int, s: State, files: seq<Entry>, st: Settings, swept: seq<nat>, now: int, stem: string, id: nat)
    requires Chain(hash, s) && Healing.DistinctNames(files)
    requires stem + ".md" !in Names(files) && !LiteralStem(stem + ".md")
    requires id in FactRows(s.nodes, stem) && !s.nodes[id].tombstoned
    ensures var u := AfterImport(st, s, files, swept, now).nodes;
      && FactRows(u, stem) == FactRows(s.nodes, stem)
      && u[id].tombstoned && u[id].tombstonedAt == Some(now) && u[id].revokeReason == Some(SOURCE_REMOVED)
  {
    var t := Imported(st, s, files, now);
    var c := CascadeAll(t, swept, now);
    var u := AfterImport(st, s, files, swept, now);
    ImportGrows(s, files, st, swept, now);
    MemoryRef(Stem(stem + ".md"));
    CascadeKeepsPaths(t, swept, now);
    StaleKeepsPaths(c, swept, now);
    ImportRowFate(st, s, files, now, id);
    CascadeKillsDerivedDescendants(t, swept, now, id);
    StalenessKillsNothing(c, swept, now, id);
    if SupersededBy(st, s.nodes, files, id) { SupersededIsLive(st, s, files, id); }
    assert id in Gone(s.nodes, Names(files));
    hide Imported, CascadeAll, StaleAll, SupersededBy, MintedBy, SamePath, IsFact;
    forall x ensures x in FactRows(u.nodes, stem) <==> x in FactRows(s.nodes, stem) {
      if x in u.nodes && x !in s.nodes {
        ImportRowFate(st, s, files, now, x);
        MintedShape(st, s, files, now, t.nodes[x]);
      }
    }
  }

  // ----- the directory, seen from the store

  /** Right after an import the live file rows are the directory's files: each present
      file has exactly one, and a file that is not there has none, unless its stem
      begins with `literal:`. */
  lemma LiveFileRowsAreTheFiles(hash: Note -> int, steps: seq<Step>, trace: seq<State>, i: nat, rel: string)
    requires IsRun(hash, steps, trace) && Injective(hash) && i < |steps| && steps[i].Import?
    ensures rel in Names(steps[i].files) ==> |LiveSet(trace[i + 1].nodes, rel)| == 1
    ensures rel !in Names(steps[i].files) && LiveSet(trace[i + 1].nodes, rel) != {} ==> LiteralStem(rel)
  {
    var s, step := trace[i], steps[i];
    RunKeepsChain(hash, steps, trace, i);
    RunKeepsFiled(hash, steps, trace, i);
    assert Next(s, step, trace[i + 1]);
    hide IsRun, AfterImport, Chain, Filed, SamePath, CreatedBy, LiteralStem;
    if rel in Names(step.files) {
      var k :| 0 <= k < |step.files| && step.files[k].path.name == rel;
      var id := ImportedNode(hash, s, step.files, step.st, step.swept, step.now, k);
    } else if LiveSet(trace[i + 1].nodes, rel) != {} {
      var id :| id in LiveSet(trace[i + 1].nodes, rel);
      PresentOrLiteral(hash, s, step.files, step.st, step.swept, step.now, id);
    }
  }

  lemma PresentOrLiteral(hash: Note -> int, s: State, files: seq<Entry>, st: Settings, swept: seq<nat>, now: int, id: nat)
    requires Chain(hash, s) && CreatedBy(s, now) && Healing.DistinctNames(files) && st.hash == hash
    requires id in LiveFileRows(AfterImport(st, s, files, swept, now).nodes)
    ensures var rel := AfterImport(st, s, files, swept, now).nodes[id].bridgePath.value;
      rel in Names(files) || LiteralStem(rel)
  {
    var t, u := Imported(st, s, files, now), AfterImport(st, s, files, swept, now);
    ImportGrows(s, files, st, swept, now);
    ImportRowFate(st, s, files, now, id);
    ImportedFileRow(hash, s, files, st, swept, now, id);
    var rel := u.nodes[id].bridgePath.value;
    MemoryRef(Stem(rel));
    hide Imported, AfterImport, SupersededBy, MintedBy, SamePath, CreatedBy, FileRow;
    if id in s.nodes {
      assert id !in Gone(s.nodes, Names(files));
    } else {
      MintedShape(st, s, files, now, t.nodes[id]);
    }
  }

  /** The lines of the index retire no file row but one whose stem begins with `literal:`. */
  lemma MirrorTouchesLiteralStemsOnly(hash: Note -> int, steps: seq<Step>, trace: seq<State>, i: nat, rel: string)
    requires IsRun(hash, steps, trace) && i < |steps| && steps[i].Mirror? && Touches(trace[i], steps[i], rel)
    ensures LiteralStem(rel)
  {
    var s, w := trace[i].nodes, steps[i].wanted;
    RunKeepsChain(hash, steps, trace, i);
    var id :| id in LiveSet(s, rel) && Literals.Loses(s, w.notes, id);
    MemoryRef(Stem(rel));
    hide IsRun, SamePath;
    assert s[id].sourceRef == Some("memory:" + Stem(rel));
  }

  /** In every run, a live file row whose file an import does not find stays alive through
      it if and only if the file's stem begins with `literal:`. */
  lemma VanishedRowSurvivesIff(hash: Note -> int, steps: seq<Step>, trace: seq<State>, i: nat, id: nat)
    requires IsRun(hash, steps, trace) && i < |steps| && steps[i].Import?
    requires id in LiveFileRows(trace[i].nodes) && trace[i].nodes[id].bridgePath.value !in Names(steps[i].files)
    ensures id in trace[i + 1].nodes
    ensures !trace[i + 1].nodes[id].tombstoned <==> LiteralStem(trace[i].nodes[id].bridgePath.value)
  {
    RunKeepsChain(hash, steps, trace, i);
    assert Next(trace[i], steps[i], trace[i + 1]);
    hide IsRun, AfterImport, Chain, LiteralStem;
    RowOutlivesItsFileIff(hash, trace[i], steps[i].files, steps[i].st, steps[i].swept, steps[i].now, id);
  }

  lemma RowOutlivesItsFileIff(hash: Note -> int, s: State, files: seq<Entry>, st: Settings, swept: seq<nat>, now: int, id: nat)
    requires Chain(hash, s) && Healing.DistinctNames(files)
    requires id in LiveFileRows(s.nodes) && s.nodes[id].bridgePath.value !in Names(files)
    ensures var u := AfterImport(st, s, files, swept, now).nodes;
      id in u && (!u[id].tombstoned <==> LiteralStem(s.nodes[id].bridgePath.value))
  {
    var t := Imported(st, s, files, now);
    var c := CascadeAll(t, swept, now);
    MemoryRef(Stem(s.nodes[id].bridgePath.value));
    ImportRowFate(st, s, files, now, id);
    CascadeKeepsPaths(t, swept, now);
    CascadeKillsDerivedDescendants(t, swept, now, id);
    StalenessKillsNothing(c, swept, now, id);
    if SupersededBy(st, s.nodes, files, id) { SupersededIsLive(st, s, files, id); }
    hide Imported, CascadeAll, StaleAll, SupersededBy, MintedBy, SamePath;
  }
}
