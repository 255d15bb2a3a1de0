/** import_all (memsom/bridge/bridge_import.py): the files, then the lines of the index; and
    what a second run over an unchanged directory and index does. */
module ImportAll {
  import opened Base
  import opened Frontmatter
  import opened Dag
  import opened MemoryTree
  import opened Filing
  import opened Importer
  import opened Reconciled
  import opened Reimport
  import opened Literals
  import Facts
  import Healing
  import Ordering

  /** The store after both halves; without an index the second does nothing. */
  ghost function AllImported(st: Settings, s: State, files: seq<Entry>, swept: seq<nat>, w: Option<Wanted>, now: int, then_: int): State
    requires w.Some? ==> Proper(w.value)
  {
    var u := AfterImport(st, s, files, swept, now);
    if w.None? then u else Mirrored(u, w.value, st.hash, then_)
  }

  function WantedOf(index: Option<seq<Literals.Line>>, digest: string -> string): Option<Wanted> {
    if index.None? then None else Some(Want(index.value, digest))
  }

  /** import_all, up to the edges it adds between notes: a refusal of the files stops it. */
  method ImportBoth(store: Store, dir: MemoryDir, st: Settings, index: Option<seq<Literals.Line>>, digest: string -> string,
      now: int, then_: int, dryRun: bool, locked: set<Path>) returns (r: Outcome, lits: LineStats)
    requires Counted(store.Snapshot()) && DistinctPaths(dir.disk)
    modifies store, dir
    ensures r.Refused? <==> !Runnable(old(store.nodes), MemoryFiles(old(dir.disk)))
    ensures dryRun || r.Refused? ==>
      store.Snapshot() == old(store.Snapshot()) && dir.disk == old(dir.disk) && dir.shelf == old(dir.shelf)
    ensures var w := WantedOf(index, digest); w.Some? ==> Proper(w.value)
    ensures r.Done? && !dryRun ==>
      store.Snapshot() == AllImported(st, old(store.Snapshot()), MemoryFiles(old(dir.disk)), r.swept, WantedOf(index, digest), now, then_)
    ensures r.Done? && !dryRun && index.Some? ==>
      lits == Literals.ExpectedStats(AfterImport(st, old(store.Snapshot()), MemoryFiles(old(dir.disk)), r.swept, now).nodes,
                                     Want(index.value, digest))
  {
    hide AfterImport, Imported, AllImported, WantedOf, Proper, Want, Mirrored, Healed, Shelved, RefusedPaths, MemoryFiles, Counted;
    hide Literals.ExpectedStats, Importer.ExpectedStats, StaleAll, CascadeAll, Killed, Gone, DistinctPaths, HasLiveMemory;
    ghost var s := store.Snapshot();
    ghost var files := MemoryFiles(dir.disk);
    Healing.FileListIsOnePerName(dir.disk);
    IndexIsProper(index, digest);
    lits := LineStats(0, 0, 0, 0, 0);
    r := ImportMemoryDir(store, dir, st, now, dryRun, locked);
    if r.Refused? {
      return;
    }
    ghost var u := store.Snapshot();
    AfterTheFiles(st, s, files, r.swept, now);
    lits := ImportLiterals(store, index, digest, st.hash, then_, dryRun);
    AfterBoth(st, s, files, r.swept, index, digest, now, then_);
  }

  lemma IndexIsProper(index: Option<seq<Literals.Line>>, digest: string -> string)
    ensures var w := WantedOf(index, digest); w.Some? ==> Proper(w.value)
  {
    hide Want, Proper;
    if index.Some? { WantIsProper(index.value, digest); }
  }

  lemma AfterTheFiles(st: Settings, s: State, files: seq<Entry>, swept: seq<nat>, now: int)
    requires Counted(s) && Healing.DistinctNames(files)
    ensures AfterImport(st, s, files, swept, now) == StaleAll(CascadeAll(Imported(st, s, files, now), swept, now), swept, now)
    ensures Counted(AfterImport(st, s, files, swept, now))
  {
    var t := Imported(st, s, files, now);
    ImportKeepsTable(st, s, files, now);
    CascadeKeepsPaths(t, swept, now);
    StaleKeepsPaths(CascadeAll(t, swept, now), swept, now);
    hide Imported, CascadeAll, StaleAll;
  }

  lemma AfterBoth(st: Settings, s: State, files: seq<Entry>, swept: seq<nat>, index: Option<seq<Literals.Line>>, digest: string -> string,
      now: int, then_: int)
    requires var w := WantedOf(index, digest); w.Some? ==> Proper(w.value)
    ensures var u := AfterImport(st, s, files, swept, now);
      AllImported(st, s, files, swept, WantedOf(index, digest), now, then_) ==
        if index.None? then u else Mirrored(u, Want(index.value, digest), st.hash, then_)
  {
    hide AfterImport, Mirrored, Want, Proper;
  }

  // ----- the file half of the second run

  /** What the first half leaves for the second run: every file is current, no row is swept. */
  ghost predicate Settled(st: Settings, u: State, files: seq<Entry>) {
    && Counted(u) && OneLivePerPath(u.nodes) && Gone(u.nodes, Names(files)) == {}
    && forall e | e in files :: VerdictIn(st, u.nodes, e) == Skip
  }

  lemma FirstHalfSettles(st: Settings, s: State, files: seq<Entry>, swept: seq<nat>, now: int)
    requires Counted(s) && Healing.DistinctNames(files) && OneLivePerPath(s.nodes) && Filed(s.nodes)
    requires forall e | e in files :: Split(e) && VerdictIn(st, s.nodes, e) != Refuse
    ensures Settled(st, AfterImport(st, s, files, swept, now), files)
  {
    var t := Imported(st, s, files, now);
    var u := AfterImport(st, s, files, swept, now);
    AfterTheFiles(st, s, files, swept, now);
    SecondRunSkipsAll(st, s, files, swept, now);
    SecondRunSweepsNothing(st, s, files, swept, now);
    ImportKeepsFiled(st, s, files, now);
    ImportKeepsOneLivePerPath(st, s, files, now);
    hide AfterImport, Imported, VerdictIn, Gone, Filed, Healing.DistinctNames, LiveSet;
    forall rel ensures Reconciled.OneLive(u.nodes, rel) {
      FollowUpKeepsFiles(t, swept, now, rel);
      assert Reconciled.OneLive(t.nodes, rel);
    }
  }

  /** The lines of the index take a file's node for one of their own. */
  ghost predicate Taken(u: State, w: Wanted, e: Entry) {
    var id := ExistingId(u.nodes, e.path.name);
    id.Some? && Loses(u.nodes, w.notes, id.value)
  }

  /** The live rows of a path after the lines: those before that do not lose theirs. */
  lemma PathAfterLines(u: State, w: Wanted, hash: Note -> int, then_: int, rel: string)
    requires Counted(u) && Proper(w)
    ensures var v := Mirrored(u, w, hash, then_).nodes;
      && (forall id :: id in LiveSet(v, rel) <==> id in LiveSet(u.nodes, rel) && !Loses(u.nodes, w.notes, id))
      && (forall id | id in LiveSet(v, rel) :: v[id] == u.nodes[id])
  {
    var v := Mirrored(u, w, hash, then_).nodes;
    MirroredHaveNoFile(u, w, hash, then_);
    hide Mirrored, Loses, Proper;
    forall id
      ensures id in LiveSet(v, rel) <==> id in LiveSet(u.nodes, rel) && !Loses(u.nodes, w.notes, id)
      ensures id in LiveSet(v, rel) ==> v[id] == u.nodes[id]
    {
      if id in u.nodes { LiteralRowFate(u, w, hash, then_, id); }
    }
  }

  lemma FileAfterLines(st: Settings, u: State, files: seq<Entry>, w: Wanted, then_: int, e: Entry)
    requires Settled(st, u, files) && Proper(w) && e in files
    ensures var v := Mirrored(u, w, st.hash, then_).nodes;
      VerdictIn(st, v, e) == if Taken(u, w, e) then Create else Skip
  {
    var v := Mirrored(u, w, st.hash, then_).nodes;
    var rel := e.path.name;
    PathAfterLines(u, w, st.hash, then_, rel);
    hide Mirrored, Loses, Proper, StampedFor, Gone;
    assert Reconciled.OneLive(u.nodes, rel);
    var id := ExistingId(u.nodes, rel);
    assert VerdictIn(st, u.nodes, e) == Skip;
    assert id.Some? && id.value in LiveSet(u.nodes, rel);
    if Taken(u, w, e) {
      assert LiveSet(v, rel) == {};
    } else {
      SameLookup(v, u.nodes, rel);
    }
  }

  lemma NothingGoneAfterLines(st: Settings, u: State, files: seq<Entry>, w: Wanted, then_: int)
    requires Settled(st, u, files) && Proper(w)
    ensures Gone(Mirrored(u, w, st.hash, then_).nodes, Names(files)) == {}
  {
    var v := Mirrored(u, w, st.hash, then_).nodes;
    hide Mirrored, Loses, Proper, VerdictIn, OneLivePerPath;
    MirroredHaveNoFile(u, w, st.hash, then_);
    forall id ensures id !in Gone(v, Names(files)) {
      if id in u.nodes {
        LiteralRowFate(u, w, st.hash, then_, id);
        assert id !in Gone(u.nodes, Names(files));
      }
    }
  }

  /** The second file import changes nothing exactly if the lines took no file's node. */
  lemma SecondFilesIff(st: Settings, u: State, files: seq<Entry>, w: Wanted, then_: int, later: int)
    requires Settled(st, u, files) && Proper(w) && Healing.DistinctNames(files)
    ensures var v := Mirrored(u, w, st.hash, then_);
      && Counted(v)
      && ((forall e | e in files :: !Taken(u, w, e)) ==> AfterImport(st, v, files, [], later) == v)
      && ((exists e :: e in files && Taken(u, w, e)) ==>
           exists id :: id in AfterImport(st, v, files, [], later).nodes && id !in v.nodes)
  {
    var v := Mirrored(u, w, st.hash, then_);
    CountedAfter(u, w, st.hash, then_);
    NothingGoneAfterLines(st, u, files, w, then_);
    NoFollowUp(st, v, files, later);
    hide AfterImport, Mirrored, Taken, Settled, VerdictIn, Proper, AfterFiles, LiveSet, Healing.DistinctNames;
    forall e | e in files ensures VerdictIn(st, v.nodes, e) == if Taken(u, w, e) then Create else Skip {
      FileAfterLines(st, u, files, w, then_, e);
    }
    if e :| e in files && Taken(u, w, e) {
      OneLiveAfterLines(st, u, files, w, then_);
      var i :| 0 <= i < |files| && files[i] == e;
      CreatesARow(st, v, files, later, i);
    } else {
      AllSkippedChangesNothing(st, v, files, later);
    }
  }

  lemma CreatesARow(st: Settings, v: State, files: seq<Entry>, later: int, i: nat)
    requires Counted(v) && Healing.DistinctNames(files) && OneLivePerPath(v.nodes) && i < |files|
    requires VerdictIn(st, v.nodes, files[i]) == Create
    ensures exists id :: id in Imported(st, v, files, later).nodes && id !in v.nodes
  {
    EveryFileHasItsNode(st, v, files, later, i);
    var t := Imported(st, v, files, later).nodes;
    hide Imported, VerdictIn;
    var id :| LiveSet(t, files[i].path.name) == {id} && id !in v.nodes;
    assert id in LiveSet(t, files[i].path.name);
  }

  lemma OneLiveAfterLines(st: Settings, u: State, files: seq<Entry>, w: Wanted, then_: int)
    requires Settled(st, u, files) && Proper(w)
    ensures OneLivePerPath(Mirrored(u, w, st.hash, then_).nodes)
  {
    hide Mirrored, Loses, Proper, VerdictIn, LiveSet;
    forall rel ensures Reconciled.OneLive(Mirrored(u, w, st.hash, then_).nodes, rel) {
      PathAfterLines(u, w, st.hash, then_, rel);
      assert Reconciled.OneLive(u.nodes, rel);
    }
  }

  lemma NoFollowUp(st: Settings, v: State, files: seq<Entry>, later: int)
    requires Counted(v) && Gone(v.nodes, Names(files)) == {}
    ensures AfterImport(st, v, files, [], later) == Imported(st, v, files, later)
    ensures Imported(st, v, files, later) == AfterFiles(st, v, files, later)
  {
    SweepUnaffectedByFiles(st, v, files, later);
    NothingGone(AfterFiles(st, v, files, later), Names(files), later);
    hide AfterFiles, Gone;
  }

  // ----- the whole second run

  /** No reference without a line had several live nodes when the lines were imported. */
  ghost predicate NoLeftovers(u: State, w: Wanted) {
    forall ref | IsLiteral(Some(ref)) && ref !in w.notes :: AtMostOne(LiveRef(u.nodes, ref))
  }

  /** A row that is there stays there, dead or alive. */
  lemma LinesDropNoRow(s: State, w: Wanted, hash: Note -> int, then_: int, id: nat)
    requires Counted(s) && Proper(w) && id in s.nodes
    ensures id in Mirrored(s, w, hash, then_).nodes
  {
    hide Mirrored, Loses;
    LiteralRowFate(s, w, hash, then_, id);
  }

  /** Both halves of the second run change nothing exactly if the lines took no file's node
      and left none of their own over. */
  lemma SecondRunIff(st: Settings, u: State, files: seq<Entry>, w: Wanted, then_: int, later: int, latest: int)
    requires Settled(st, u, files) && Proper(w) && Healing.DistinctNames(files)
    ensures var v := Mirrored(u, w, st.hash, then_);
      AllImported(st, v, files, [], Some(w), later, latest) == v <==> (forall e | e in files :: !Taken(u, w, e)) && NoLeftovers(u, w)
  {
    var v := Mirrored(u, w, st.hash, then_);
    var x := AfterImport(st, v, files, [], later);
    SecondFilesIff(st, u, files, w, then_, later);
    SecondImportIsANoopIff(u, w, st.hash, then_, latest);
    AfterTheFiles(st, v, files, [], later);
    hide AfterImport, Mirrored, Taken, Settled, Proper, Healing.DistinctNames;
    if e :| e in files && Taken(u, w, e) {
      var id :| id in x.nodes && id !in v.nodes;
      LinesDropNoRow(x, w, st.hash, latest, id);
    }
  }

  /** The second run is refused exactly if the directory is empty and the index is not: the
      nodes of the lines are live memories too. */
  lemma SecondRunIsRefusedIff(st: Settings, s: State, files: seq<Entry>, w: Wanted, now: int, then_: int)
    requires Counted(s) && Healing.DistinctNames(files) && Runnable(s.nodes, files) && Proper(w)
    ensures var u := AfterImport(st, s, files, [], now);
      Runnable(Mirrored(u, w, st.hash, then_).nodes, files) <==> (files == [] ==> w.order == [])
  {
    var u := AfterImport(st, s, files, [], now);
    var v := Mirrored(u, w, st.hash, then_);
    hide Mirrored, AfterImport, HasLiveMemory;
    AfterTheFiles(st, s, files, [], now);
    if files == [] {
      NoMemoryBefore(st, s, now);
      if w.order == [] {
        NoMemoryAfter(u, w, st.hash, then_);
      } else {
        LinesAreMemories(u, w, st.hash, then_);
      }
    }
  }

  lemma NoMemoryBefore(st: Settings, s: State, now: int)
    requires Counted(s) && !HasLiveMemory(s.nodes)
    ensures AfterImport(st, s, [], [], now) == s
  {
    hide IsLiveMemory;
    assert Gone(s.nodes, {}) == {} by {
      forall id ensures id !in Gone(s.nodes, {}) { SweepableIsLive(s.nodes, id); }
    }
    assert Names([]) == {};
    NoFollowUp(st, s, [], now);
    hide AfterImport, Imported, Gone;
  }

  lemma SweepableIsLive(nodes: map<nat, Row>, id: nat)
    ensures id in Gone(nodes, {}) ==> id in nodes && IsLiveMemory(nodes[id])
  {
  }

  lemma NoMemoryAfter(u: State, w: Wanted, hash: Note -> int, then_: int)
    requires Counted(u) && Proper(w) && w.order == [] && !HasLiveMemory(u.nodes)
    ensures !HasLiveMemory(Mirrored(u, w, hash, then_).nodes)
  {
    var v := Mirrored(u, w, hash, then_);
    assert v.nodes.Keys == u.nodes.Keys;
    hide Mirrored, Loses, RefersTo;
    forall id | id in v.nodes ensures !IsLiveMemory(v.nodes[id]) {
      LiteralRowFate(u, w, hash, then_, id);
      assert !IsLiveMemory(u.nodes[id]);
    }
  }

  lemma LinesAreMemories(u: State, w: Wanted, hash: Note -> int, then_: int)
    requires Counted(u) && Proper(w) && w.order != []
    ensures HasLiveMemory(Mirrored(u, w, hash, then_).nodes)
  {
    var v := Mirrored(u, w, hash, then_).nodes;
    var ref := w.order[0];
    assert ref in w.order;
    LinesAreCurrent(u, w, hash, then_);
    LiteralIsMemory(ref);
    hide Mirrored, Proper, IsLiteral;
    assert VerdictOn(v, ref, w.notes[ref]) == Unchanged;
    var id := LiveId(v, ref).value;
    assert id in LiveRef(v, ref);
    hide RefersTo;
    assert IsLiveMemory(v[id]);
  }

  lemma LiteralIsMemory(ref: string)
    ensures IsLiteral(Some(ref)) ==> RefersTo(Some(ref), "memory:")
  {
    assert "memory:literal:"[..7] == "memory:";
    assert IsLiteral(Some(ref)) ==> Lower(ref)[..15][..7] == "memory:";
  }

  /** import_all again, over the same directory and index, changes nothing if and only if it
      is not refused (the directory has a file, or the index no line of its own), the lines
      took no present file's node, and no reference without a line had several live nodes. */
  lemma SecondImportAllIff(st: Settings, s: State, files: seq<Entry>, swept: seq<nat>, w: Wanted, now: int, then_: int,
      again: seq<nat>, later: int, latest: int)
    requires Counted(s) && Healing.DistinctNames(files) && OneLivePerPath(s.nodes) && Filed(s.nodes) && Proper(w)
    requires Runnable(s.nodes, files) && forall e | e in files :: Split(e) && VerdictIn(st, s.nodes, e) != Refuse
    requires Ordering.Lists(swept, Gone(s.nodes, Names(files)), IdKey(s.nodes))
    requires var v := AllImported(st, s, files, swept, Some(w), now, then_);
      Ordering.Lists(again, Gone(v.nodes, Names(files)), IdKey(v.nodes))
    ensures var u, v := AfterImport(st, s, files, swept, now), AllImported(st, s, files, swept, Some(w), now, then_);
      Runnable(v.nodes, files) && AllImported(st, v, files, again, Some(w), later, latest) == v <==>
        (files == [] ==> w.order == []) && (forall e | e in files :: !Taken(u, w, e)) && NoLeftovers(u, w)
  {
    var u, v := AfterImport(st, s, files, swept, now), AllImported(st, s, files, swept, Some(w), now, then_);
    BothHalves(st, s, files, swept, w, now, then_);
    FirstHalfSettles(st, s, files, swept, now);
    NothingGoneAfterLines(st, u, files, w, then_);
    Ordering.ListingLength(again, Gone(v.nodes, Names(files)), IdKey(v.nodes));
    SecondRunIff(st, u, files, w, then_, later, latest);
    if files == [] {
      NothingSwept(s, swept);
      SecondRunIsRefusedIff(st, s, files, w, now, then_);
    }
    hide *;
    assert again == [];
    AlwaysRunnable(v.nodes, files);
  }

  lemma BothHalves(st: Settings, s: State, files: seq<Entry>, swept: seq<nat>, w: Wanted, now: int, then_: int)
    requires Proper(w)
    ensures AllImported(st, s, files, swept, Some(w), now, then_) == Mirrored(AfterImport(st, s, files, swept, now), w, st.hash, then_)
  {
    hide AfterImport, Mirrored, Proper;
  }

  lemma AlwaysRunnable(nodes: map<nat, Row>, files: seq<Entry>)
    ensures files != [] ==> Runnable(nodes, files)
  {
  }

  lemma NothingSwept(s: State, swept: seq<nat>)
    requires Runnable(s.nodes, []) && Ordering.Lists(swept, Gone(s.nodes, Names([])), IdKey(s.nodes))
    ensures swept == []
  {
    hide IsLiveMemory;
    assert Names([]) == {};
    forall id ensures id !in Gone(s.nodes, {}) { SweepableIsLive(s.nodes, id); }
    hide Gone;
    assert Gone(s.nodes, {}) == {};
    Ordering.ListingLength(swept, {}, IdKey(s.nodes));
  }

  // ----- in terms of stems

  /** The lines take a file's node exactly if its stem begins with `literal:`, no later live
      row has its reference, and no line asks for that reference and its content. */
  lemma TakenIff(u: State, w: Wanted, e: Entry, id: nat)
    requires ExistingId(u.nodes, e.path.name) == Some(id) && u.nodes[id].sourceRef == Some("memory:" + Stem(e.path.name))
    ensures var ref := "memory:" + Stem(e.path.name);
      Taken(u, w, e) <==>
        && LiteralStem(e.path.name)
        && (!exists x :: x in LiveRef(u.nodes, ref) && id < x)
        && !(ref in w.notes && u.nodes[id].content == w.notes[ref])
  {
    var ref := "memory:" + Stem(e.path.name);
    MemoryRef(Stem(e.path.name));
    assert id in LiveSet(u.nodes, e.path.name);
    LastIff(u.nodes, ref, id);
    hide LiveId, RefersTo;
  }

  /** The file import leaves no more live rows of a literal reference than there were, if no
      file's stem begins with `literal:`; and then the lines take no file's node. */
  lemma PlainStems(st: Settings, s: State, files: seq<Entry>, swept: seq<nat>, w: Wanted, now: int)
    requires Facts.Chain(st.hash, s) && Facts.CreatedBy(s, now) && Healing.DistinctNames(files)
    requires Literals.OneLive(s.nodes) && forall e | e in files :: !LiteralStem(e.path.name)
    ensures var u := AfterImport(st, s, files, swept, now);
      NoLeftovers(u, w) && forall e | e in files :: !Taken(u, w, e)
  {
    var u := AfterImport(st, s, files, swept, now);
    Facts.ImportGrows(s, files, st, swept, now);
    hide AfterImport, Facts.Chain, LiteralStem, IsLiteral, Loses, Facts.FileRow, Facts.CreatedBy, Healing.DistinctNames;
    forall ref | IsLiteral(Some(ref)) ensures LiveRef(u.nodes, ref) <= LiveRef(s.nodes, ref) {
      forall id | id in LiveRef(u.nodes, ref) ensures id in s.nodes {
        if id !in s.nodes { NewRowIsPlain(st, s, files, swept, now, id); }
      }
    }
    forall e | e in files ensures !Taken(u, w, e) {
      FileIsPlain(st, s, files, swept, now, w, e);
    }
  }

  lemma NewRowIsPlain(st: Settings, s: State, files: seq<Entry>, swept: seq<nat>, now: int, id: nat)
    requires Counted(s) && Healing.DistinctNames(files) && forall e | e in files :: !LiteralStem(e.path.name)
    requires id in AfterImport(st, s, files, swept, now).nodes && id !in s.nodes
    ensures !IsLiteral(AfterImport(st, s, files, swept, now).nodes[id].sourceRef)
  {
    var t := Imported(st, s, files, now);
    CascadeKeepsPaths(t, swept, now);
    StaleKeepsPaths(CascadeAll(t, swept, now), swept, now);
    ImportRowFate(st, s, files, now, id);
    MintedShape(st, s, files, now, t.nodes[id]);
    CascadeKillsDerivedDescendants(t, swept, now, id);
    StalenessKillsNothing(CascadeAll(t, swept, now), swept, now, id);
    MemoryRef(Stem(t.nodes[id].bridgePath.value));
    hide Imported, CascadeAll, StaleAll, MintedBy, RefersTo;
  }

  lemma FileIsPlain(st: Settings, s: State, files: seq<Entry>, swept: seq<nat>, now: int, w: Wanted, e: Entry)
    requires Facts.Chain(st.hash, s) && Facts.CreatedBy(s, now) && Healing.DistinctNames(files) && !LiteralStem(e.path.name)
    ensures !Taken(AfterImport(st, s, files, swept, now), w, e)
  {
    var u := AfterImport(st, s, files, swept, now);
    var id := ExistingId(u.nodes, e.path.name);
    MemoryRef(Stem(e.path.name));
    hide AfterImport, Facts.Chain, Facts.CreatedBy, Healing.DistinctNames, RefersTo, LiveId;
    if id.Some? { Facts.ImportedFileRow(st.hash, s, files, st, swept, now, id.value); }
  }

  /** So from any state a run leaves, with at most one live node for each literal reference,
      importing a directory without such stems twice is importing it once, unless it is
      empty and the index is not: then the second run is refused. */
  lemma ImportAllTwiceIff(st: Settings, s: State, files: seq<Entry>, swept: seq<nat>, w: Wanted, now: int, then_: int,
      again: seq<nat>, later: int, latest: int)
    requires Facts.Chain(st.hash, s) && Facts.CreatedBy(s, now) && Filed(s.nodes) && Literals.OneLive(s.nodes)
    requires Healing.DistinctNames(files) && Proper(w) && Runnable(s.nodes, files)
    requires forall e | e in files :: Split(e) && !LiteralStem(e.path.name)
    requires Ordering.Lists(swept, Gone(s.nodes, Names(files)), IdKey(s.nodes))
    requires var v := AllImported(st, s, files, swept, Some(w), now, then_);
      Ordering.Lists(again, Gone(v.nodes, Names(files)), IdKey(v.nodes))
    ensures var v := AllImported(st, s, files, swept, Some(w), now, then_);
      Runnable(v.nodes, files) && AllImported(st, v, files, again, Some(w), later, latest) == v <==> (files == [] ==> w.order == [])
  {
    hide *;
    Facts.ChainGivesOneLive(st.hash, s);
    Facts.CountedInChain(st.hash, s);
    forall e | e in files ensures VerdictIn(st, s.nodes, e) != Refuse {
      Facts.NotRefused(st.hash, s, st, e);
    }
    PlainStems(st, s, files, swept, w, now);
    SecondImportAllIff(st, s, files, swept, w, now, then_, again, later, latest);
  }

  /** The refused second run: a fresh store, an empty directory and an index of one line. */
  lemma EmptyDirectoryIsRefusedTheSecondTime(st: Settings, w: Wanted, now: int, then_: int)
    requires Proper(w) && w.order != []
    ensures Runnable(EMPTY.nodes, [])
    ensures !Runnable(AllImported(st, EMPTY, [], [], Some(w), now, then_).nodes, [])
  {
    BothHalves(st, EMPTY, [], [], w, now, then_);
    hide AllImported, Proper;
    SecondRunIsRefusedIff(st, EMPTY, [], w, now, then_);
  }
}
