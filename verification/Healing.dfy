/** What healing duplicate memory files leaves behind. */
module Healing {
  import opened Base
  import opened Frontmatter
  import opened MemoryTree
  import Lex

  lemma {:induction false} WalkOfFiltered(d: seq<Entry>, drop: set<Path>)
    ensures Walk(Filtered(d, drop)) == Filtered(Walk(d), drop)
  {
    if d != [] {
      WalkOfFiltered(d[1..], drop);
      var rest := Filtered(d[1..], drop);
      if d[0].path !in drop {
        assert Filtered(d, drop) == [d[0]] + rest;
        assert ([d[0]] + rest)[1..] == rest;
      } else {
        assert Filtered(d, drop) == rest;
      }
      if Walked(d[0].path) {
        assert ([d[0]] + Walk(d[1..]))[1..] == Walk(d[1..]);
        assert Walk(d) == [d[0]] + Walk(d[1..]);
      } else {
        assert Walk(d) == Walk(d[1..]);
      }
    }
  }

  lemma {:induction false} FilteredDistinct(d: seq<Entry>, drop: set<Path>)
    requires DistinctPaths(d)
    ensures DistinctPaths(Filtered(d, drop))
  {
    if d != [] {
      assert DistinctPaths(d[1..]);
      FilteredDistinct(d[1..], drop);
      FilteredMembers(d[1..], drop);
      assert forall e | e in d[1..] :: e.path != d[0].path;
    }
  }

  lemma {:induction false} WalkDistinct(d: Disk)
    requires DistinctPaths(d)
    ensures DistinctPaths(Walk(d))
  {
    if d != [] {
      assert DistinctPaths(d[1..]);
      WalkDistinct(d[1..]);
      WalkMembers(d[1..]);
      assert forall e | e in d[1..] :: e.path != d[0].path;
    }
  }

  lemma SamePathSameEntry(w: seq<Entry>, a: Entry, b: Entry)
    requires DistinctPaths(w) && a in w && b in w && a.path == b.path
    ensures a == b
  {
    var i :| 0 <= i < |w| && w[i] == a;
    var j :| 0 <= j < |w| && w[j] == b;
  }

  /** The canonical copies of a walk, in walk order. */
  function Canonical(w: seq<Entry>): seq<Entry> {
    Filtered(w, LoserPaths(w))
  }

  lemma CanonicalMembers(w: seq<Entry>, e: Entry)
    requires DistinctPaths(w)
    ensures e in Canonical(w) <==> e in w && e == Keep(w, e.path.name)
  {
    FilteredMembers(w, LoserPaths(w));
    if e in w {
      if e.path in LoserPaths(w) {
        var x :| x in w && IsLoser(w, x) && x.path == e.path;
        SamePathSameEntry(w, x, e);
      }
      if e.path == Keep(w, e.path.name).path { SamePathSameEntry(w, e, Keep(w, e.path.name)); }
    }
  }

  /** Each name has its kept copy among the canonical ones, and no other. */
  lemma KeepIsCanonical(w: seq<Entry>, e: Entry)
    requires DistinctPaths(w) && e in w
    ensures Keep(w, e.path.name) in Canonical(w)
  {
    CanonicalMembers(w, Keep(w, e.path.name));
  }

  lemma {:induction false} AllDropsMembers(w: seq<Entry>, keeps: seq<Entry>, e: Entry)
    ensures e in AllDrops(w, keeps) <==> exists k :: k in keeps && e in Drops(w, k)
  {
    if keeps != [] {
      var n := |keeps| - 1;
      AllDropsMembers(w, keeps[..n], e);
      assert keeps == keeps[..n] + [keeps[n]];
    }
  }

  lemma SortMembers(q: seq<Entry>, e: Entry)
    ensures e in SortByName(q) <==> e in q
  {
    assert e in multiset(SortByName(q)) <==> e in multiset(q);
  }

  /** Healing drops exactly the walked entries that are not their name's canonical copy. */
  lemma DropsAreTheLosers(disk: Disk, e: Entry)
    requires DistinctPaths(disk)
    ensures e in HealDrops(disk) <==> IsLoser(Walk(disk), e)
  {
    var w := Walk(disk);
    WalkDistinct(disk);
    AllDropsMembers(w, MemoryFiles(disk), e);
    if e in HealDrops(disk) {
      var k :| k in MemoryFiles(disk) && e in Drops(w, k);
      SortMembers(Canonical(w), k);
      CanonicalMembers(w, k);
      DropsNamed(w, k);
    }
    if IsLoser(w, e) {
      var k := Keep(w, e.path.name);
      KeepIsCanonical(w, e);
      SortMembers(Canonical(w), k);
      CopiesMembers(w, k.path.name);
      FilteredMembers(Copies(w, k.path.name), {k.path});
    }
  }

  lemma HealedWalk(disk: Disk)
    requires DistinctPaths(disk)
    ensures Walk(Healed(disk)) == Canonical(Walk(disk))
  {
    forall p ensures p in Paths(HealDrops(disk)) <==> p in LoserPaths(Walk(disk)) {
      if p in Paths(HealDrops(disk)) {
        var e :| e in HealDrops(disk) && e.path == p;
        DropsAreTheLosers(disk, e);
      }
      if p in LoserPaths(Walk(disk)) {
        var e :| e in Walk(disk) && IsLoser(Walk(disk), e) && e.path == p;
        DropsAreTheLosers(disk, e);
      }
    }
    assert Paths(HealDrops(disk)) == LoserPaths(Walk(disk));
    WalkOfFiltered(disk, LoserPaths(Walk(disk)));
  }

  /** After healing, the walked tree holds exactly the canonical copy of each name. */
  lemma HealLeavesOneCopyPerName(disk: Disk, e: Entry)
    requires DistinctPaths(disk)
    ensures e in Walk(Healed(disk)) <==> e in Walk(disk) && e == Keep(Walk(disk), e.path.name)
  {
    WalkDistinct(disk);
    HealedWalk(disk);
    CanonicalMembers(Walk(disk), e);
  }

  /** Files the walk does not look at stay where they are. */
  lemma HealIgnoresOtherFiles(disk: Disk, e: Entry)
    requires DistinctPaths(disk) && e in disk && !Walked(e.path)
    ensures e in Healed(disk)
  {
    FilteredMembers(disk, Paths(HealDrops(disk)));
    if e.path in Paths(HealDrops(disk)) {
      var x :| x in HealDrops(disk) && x.path == e.path;
      DropsAreTheLosers(disk, x);
      WalkMembers(disk);
      assert x in Walk(disk);
    }
  }

  lemma CanonicalIsCanonical(w: seq<Entry>)
    requires DistinctPaths(w)
    ensures Canonical(Canonical(w)) == Canonical(w)
  {
    var c := Canonical(w);
    FilteredDistinct(w, LoserPaths(w));
    forall e | e in c ensures !IsLoser(c, e) {
      CanonicalMembers(w, e);
      CanonicalMembers(w, Keep(c, e.path.name));
    }
    assert LoserPaths(c) == {};
    FilteredNone(c, {});
  }

  lemma NonEmptyHasMember(q: seq<Entry>)
    requires q != []
    ensures exists e :: e in q
  {
    assert q[0] in q;
  }

  lemma SecondHealDropsNothing(disk: Disk)
    requires DistinctPaths(disk)
    ensures HealDrops(Healed(disk)) == []
  {
    var w, h := Walk(disk), Healed(disk);
    WalkDistinct(disk);
    HealedWalk(disk);
    FilteredDistinct(disk, Paths(HealDrops(disk)));
    FilteredDistinct(w, LoserPaths(w));
    CanonicalIsCanonical(w);
    forall e ensures e !in HealDrops(h) {
      DropsAreTheLosers(h, e);
      CanonicalMembers(Walk(h), e);
    }
    if HealDrops(h) != [] {
      NonEmptyHasMember(HealDrops(h));
    }
  }

  /** The importer sees the same files before and after healing, which is why a dry
      run may skip it; a second healing drops nothing and moves nothing. */
  lemma HealKeepsTheFileList(disk: Disk, shelf: Shelf)
    requires DistinctPaths(disk)
    ensures MemoryFiles(Healed(disk)) == MemoryFiles(disk)
    ensures HealCounts(Healed(disk)) == HealStats(0, 0)
    ensures Healed(Healed(disk)) == Healed(disk)
    ensures Shelved(Walk(Healed(disk)), shelf, HealDrops(Healed(disk))) == shelf
  {
    WalkDistinct(disk);
    HealedWalk(disk);
    CanonicalIsCanonical(Walk(disk));
    SecondHealDropsNothing(disk);
    assert Paths([]) == {};
    FilteredNone(Healed(disk), {});
  }

  lemma NoFilesNothingToHeal(disk: Disk, shelf: Shelf)
    requires MemoryFiles(disk) == []
    ensures Healed(disk) == disk && Shelved(Walk(disk), shelf, HealDrops(disk)) == shelf
  {
    assert HealDrops(disk) == [];
    assert Paths([]) == {};
    FilteredNone(disk, {});
  }

  // ----- what survives

  predicate Quarantined(w: seq<Entry>, e: Entry) {
    ActionFor(w, e.path.name).Quarantine?
  }

  /** No two quarantined copies of different content share a quarantine file name. */
  predicate NoClash(w: seq<Entry>, drops: seq<Entry>) {
    forall i, j | 0 <= i < j < |drops| && Quarantined(w, drops[i]) && Into(w, drops[j], Dest(drops[i])) ::
      drops[i].file.raw == drops[j].file.raw
  }

  predicate Stored(w: seq<Entry>, shelf: Shelf, e: Entry) {
    Dest(e) in shelf && shelf[Dest(e)].raw == e.file.raw
  }

  predicate Into(w: seq<Entry>, e: Entry, d: (string, int)) {
    Quarantined(w, e) && Dest(e) == d
  }

  /** A quarantine name holds what was moved there last, or what it held before. */
  lemma {:induction false} ShelvedAt(w: seq<Entry>, shelf: Shelf, drops: seq<Entry>, d: (string, int)) returns (last: int)
    ensures -1 <= last < |drops|
    ensures last == -1 ==> forall i | 0 <= i < |drops| :: !Into(w, drops[i], d)
    ensures last == -1 && d in shelf ==> d in Shelved(w, shelf, drops) && Shelved(w, shelf, drops)[d] == shelf[d]
    ensures last >= 0 ==>
      drops[last] in drops && IsLastInto(w, drops, last, d) && d in Shelved(w, shelf, drops) && Shelved(w, shelf, drops)[d] == drops[last].file
  {
    last := -1;
    if drops != [] {
      var n := |drops| - 1;
      ShelvedStep(w, shelf, drops, d);
      hide *;
      if Into(w, drops[n], d) {
        last := n;
        LastOfAll(w, drops, d);
      } else {
        last := ShelvedAt(w, shelf, drops[..n], d);
        assert forall i | 0 <= i < n :: drops[..n][i] == drops[i];
        StillLast(w, drops, last, d);
      }
    }
  }

  lemma LastOfAll(w: seq<Entry>, drops: seq<Entry>, d: (string, int))
    requires drops != [] && Into(w, drops[|drops| - 1], d)
    ensures IsLastInto(w, drops, |drops| - 1, d)
  {
  }

  lemma StillLast(w: seq<Entry>, drops: seq<Entry>, i: int, d: (string, int))
    requires drops != [] && !Into(w, drops[|drops| - 1], d) && i < |drops| - 1
    ensures i >= 0 && IsLastInto(w, drops[..|drops| - 1], i, d) ==> IsLastInto(w, drops, i, d)
  {
    hide Into;
    var n := |drops| - 1;
    assert forall j | 0 <= j < n :: drops[..n][j] == drops[j];
  }

  lemma ShelvedStep(w: seq<Entry>, shelf: Shelf, drops: seq<Entry>, d: (string, int))
    requires drops != []
    ensures var n := |drops| - 1;
      var after, before := Shelved(w, shelf, drops), Shelved(w, shelf, drops[..n]);
      if Into(w, drops[n], d) then d in after && after[d] == drops[n].file
      else (d in after <==> d in before) && (d in after ==> after[d] == before[d])
  {
  }

  /** Quarantine keeps the content of every copy moved into it if and only if no two
      of them with different content have the same name and modification time. */
  lemma QuarantineKeepsAllIff(w: seq<Entry>, shelf: Shelf, drops: seq<Entry>)
    ensures NoClash(w, drops) <==>
      forall e | e in drops && Quarantined(w, e) :: Stored(w, Shelved(w, shelf, drops), e)
  {
    if NoClash(w, drops) { NoClashKeepsAll(w, shelf, drops); }
    if forall e | e in drops && Quarantined(w, e) :: Stored(w, Shelved(w, shelf, drops), e) { KeptMeansNoClash(w, shelf, drops); }
  }

  lemma NoClashKeepsAll(w: seq<Entry>, shelf: Shelf, drops: seq<Entry>)
    requires NoClash(w, drops)
    ensures forall e | e in drops && Quarantined(w, e) :: Stored(w, Shelved(w, shelf, drops), e)
  {
    var after := Shelved(w, shelf, drops);
    hide Shelved;
    forall e | e in drops && Quarantined(w, e) ensures Stored(w, after, e) {
      var last := ShelvedAt(w, shelf, drops, Dest(e));
      var i :| 0 <= i < |drops| && drops[i] == e;
      assert Into(w, drops[i], Dest(e));
    }
  }

  lemma KeptMeansNoClash(w: seq<Entry>, shelf: Shelf, drops: seq<Entry>)
    requires forall e | e in drops && Quarantined(w, e) :: Stored(w, Shelved(w, shelf, drops), e)
    ensures NoClash(w, drops)
  {
    var after := Shelved(w, shelf, drops);
    hide Shelved;
    forall i, j | 0 <= i < j < |drops| && Quarantined(w, drops[i]) && Into(w, drops[j], Dest(drops[i]))
      ensures drops[i].file.raw == drops[j].file.raw
    {
      assert Stored(w, after, drops[i]) && Stored(w, after, drops[j]);
    }
  }

  /** Nothing the walk saw is lost under that condition: its content is in the tree or in
      quarantine. */
  lemma HealLosesNoContent(disk: Disk, shelf: Shelf, e: Entry)
    requires DistinctPaths(disk) && e in Walk(disk)
    requires NoClash(Walk(disk), HealDrops(disk))
    ensures (exists k :: k in Walk(Healed(disk)) && k.file.raw == e.file.raw) ||
            Stored(Walk(disk), Shelved(Walk(disk), shelf, HealDrops(disk)), e)
  {
    var w := Walk(disk);
    var k := Keep(w, e.path.name);
    WalkDistinct(disk);
    HealedWalk(disk);
    KeepIsCanonical(w, e);
    QuarantineKeepsAllIff(w, shelf, HealDrops(disk));
    DropsAreTheLosers(disk, e);
    if IsCanonical(w, e) {
      SamePathSameEntry(w, e, k);
    } else if !Quarantined(w, e) {
      CopiesMembers(w, e.path.name);
      assert e in Copies(w, e.path.name) && k in Copies(w, e.path.name);
      assert k.file.raw == e.file.raw;
    }
  }

  /** A quarantine name that is in use is overwritten: what it held before stays exactly if
      no copy is moved to that name, or the last one that is has the same content. */
  lemma ShelfKeptIff(w: seq<Entry>, shelf: Shelf, drops: seq<Entry>, d: (string, int))
    requires d in shelf
    ensures d in Shelved(w, shelf, drops)
    ensures Shelved(w, shelf, drops)[d].raw == shelf[d].raw <==>
      forall i | 0 <= i < |drops| && IsLastInto(w, drops, i, d) :: drops[i].file.raw == shelf[d].raw
  {
    var last := ShelvedAt(w, shelf, drops, d);
    hide Shelved, Into;
    if last >= 0 {
      assert forall i | 0 <= i < |drops| && IsLastInto(w, drops, i, d) :: i == last;
    }
  }

  /** Of the copies moved to `d`, number `i` is the last. */
  predicate IsLastInto(w: seq<Entry>, drops: seq<Entry>, i: nat, d: (string, int))
    requires i < |drops|
  {
    Into(w, drops[i], d) && forall j | i < j < |drops| :: !Into(w, drops[j], d)
  }

  /** Without a clash the last copy stands for all of them. */
  lemma ShelfKeptWithoutClashIff(w: seq<Entry>, shelf: Shelf, drops: seq<Entry>, d: (string, int))
    requires NoClash(w, drops) && d in shelf
    ensures d in Shelved(w, shelf, drops)
    ensures Shelved(w, shelf, drops)[d].raw == shelf[d].raw <==>
      forall e | e in drops && Into(w, e, d) :: e.file.raw == shelf[d].raw
  {
    ShelfKeptIff(w, shelf, drops, d);
    var last := ShelvedAt(w, shelf, drops, d);
    hide Shelved, Quarantined;
    if last >= 0 {
      assert IsLastInto(w, drops, last, d);
      forall i | 0 <= i < |drops| && Into(w, drops[i], d) ensures drops[i].file.raw == drops[last].file.raw {
        SameInto(w, drops, i, last, d);
      }
    }
  }

  lemma SameInto(w: seq<Entry>, drops: seq<Entry>, i: nat, j: nat, d: (string, int))
    requires NoClash(w, drops) && i < |drops| && j < |drops| && Into(w, drops[i], d) && Into(w, drops[j], d)
    ensures drops[i].file.raw == drops[j].file.raw
  {
  }

  // ----- a clash

  const NEWEST := Entry(Path([], "x.md"), File(Plain("k"), 9, 1))
  const OLDER := Entry(Path(["projects"], "x.md"), File(Plain("b"), 1, 1))
  const OTHER := Entry(Path(["projects", "p"], "x.md"), File(Plain("c"), 1, 1))

  lemma WalkCons(e: Entry, rest: seq<Entry>)
    requires Walked(e.path) && Walk(rest) == rest && Copies(rest, e.path.name) == rest
    ensures Walk([e] + rest) == [e] + rest && Copies([e] + rest, e.path.name) == [e] + rest
  {
    assert ([e] + rest)[1..] == rest;
  }

  lemma ClashingPaths()
    ensures Walked(NEWEST.path) && Walked(OLDER.path) && Walked(OTHER.path)
    ensures NEWEST.path.name == OLDER.path.name == OTHER.path.name == "x.md"
    ensures DistinctPaths([NEWEST, OLDER, OTHER])
  {
    assert "x.md"[1..] == ".md";
  }

  lemma ClashingCopies()
    ensures Walk([NEWEST, OLDER, OTHER]) == [NEWEST, OLDER, OTHER] == Copies([NEWEST, OLDER, OTHER], "x.md")
  {
    ClashingPaths();
    assert Walk([]) == [] && Copies([], "x.md") == [];
    hide *;
    WalkCons(OTHER, []);
    WalkCons(OLDER, [OTHER]);
    WalkCons(NEWEST, [OLDER, OTHER]);
    assert [OTHER] + [] == [OTHER] && [OLDER] + [OTHER] == [OLDER, OTHER] && [NEWEST] + [OLDER, OTHER] == [NEWEST, OLDER, OTHER];
  }

  lemma ClashingBest()
    ensures !Identical([NEWEST, OLDER, OTHER]) && Best(false, [NEWEST, OLDER, OTHER]) == NEWEST
  {
    var disk := [NEWEST, OLDER, OTHER];
    assert NEWEST in disk && OLDER in disk && OLDER.file.raw != disk[0].file.raw;
    assert Outranks(false, NEWEST, OLDER) && Outranks(false, NEWEST, OTHER);
  }

  lemma ClashingWalk()
    ensures var disk := [NEWEST, OLDER, OTHER];
      && Walk(disk) == disk && Copies(disk, "x.md") == disk && DistinctPaths(disk)
      && Keep(disk, "x.md") == NEWEST && !Identical(disk)
  {
    ClashingPaths();
    ClashingCopies();
    ClashingBest();
    hide Walk, Copies, Identical, Best, DistinctPaths;
  }

  lemma OnlyTheNewestStays()
    ensures forall k | k in Walk(Healed([NEWEST, OLDER, OTHER])) :: k == NEWEST
  {
    hide *;
    var disk := [NEWEST, OLDER, OTHER];
    ClashingWalk();
    forall k | k in Walk(Healed(disk)) ensures k == NEWEST {
      HealLeavesOneCopyPerName(disk, k);
      NamedAlike(k);
    }
  }

  lemma NamedAlike(k: Entry)
    requires k in [NEWEST, OLDER, OTHER]
    ensures k.path.name == "x.md"
  {
  }

  lemma NotBothStored(w: seq<Entry>, shelf: Shelf)
    ensures !Stored(w, shelf, OLDER) || !Stored(w, shelf, OTHER)
    ensures NEWEST.file.raw != OLDER.file.raw && NEWEST.file.raw != OTHER.file.raw
  {
    assert Dest(OLDER) == Dest(OTHER);
    assert OLDER.file.raw.body != OTHER.file.raw.body && NEWEST.file.raw.body != OLDER.file.raw.body;
  }

  /** Three copies of one name, two of them as old as each other and different: healing
      moves both to the same quarantine name, and the content of one is lost. */
  lemma ClashLosesACopy(shelf: Shelf)
    ensures var disk := [NEWEST, OLDER, OTHER];
      && DistinctPaths(disk) && OLDER in Walk(disk) && OTHER in Walk(disk)
      && exists e | e in {OLDER, OTHER} ::
          && (forall k | k in Walk(Healed(disk)) :: k.file.raw != e.file.raw)
          && !Stored(Walk(disk), Shelved(Walk(disk), shelf, HealDrops(disk)), e)
  {
    hide *;
    var disk := [NEWEST, OLDER, OTHER];
    ClashingWalk();
    OnlyTheNewestStays();
    var after := Shelved(Walk(disk), shelf, HealDrops(disk));
    NotBothStored(Walk(disk), after);
    var e := if Stored(Walk(disk), after, OLDER) then OTHER else OLDER;
    assert e in {OLDER, OTHER} && !Stored(Walk(disk), after, e);
  }

  // ----- the order of the file list

  predicate Sorted(q: seq<Entry>) {
    forall i, j | 0 <= i < j < |q| :: !Lex.Less(q[j].path.name, q[i].path.name)
  }

  lemma {:induction false} InsertSorted(e: Entry, q: seq<Entry>)
    requires Sorted(q)
    ensures Sorted(InsertByName(e, q))
  {
    if q == [] || !Lex.Less(q[0].path.name, e.path.name) {
      forall j | 0 <= j < |q| ensures !Lex.Less(q[j].path.name, e.path.name) {
        if Lex.Less(q[j].path.name, e.path.name) {
          Lex.Total(q[0].path.name, q[j].path.name);
          if Lex.Less(q[0].path.name, q[j].path.name) {
            Lex.Transitive(q[0].path.name, q[j].path.name, e.path.name);
          }
        }
      }
    } else {
      InsertSorted(e, q[1..]);
      var r := InsertByName(e, q[1..]);
      forall x | x in r ensures !Lex.Less(x.path.name, q[0].path.name) {
        assert x in multiset(r);
        if x == e {
          if Lex.Less(e.path.name, q[0].path.name) {
            Lex.Transitive(q[0].path.name, e.path.name, q[0].path.name);
            Lex.Irreflexive(q[0].path.name);
          }
        } else {
          assert x in q[1..];
        }
      }
    }
  }

  lemma {:induction false} SortSorted(q: seq<Entry>)
    ensures Sorted(SortByName(q))
  {
    if q != [] {
      SortSorted(q[1..]);
      InsertSorted(q[0], SortByName(q[1..]));
    }
  }

  /** No name occurs twice. */
  ghost predicate DistinctNames(q: seq<Entry>) {
    forall i, j | 0 <= i < j < |q| :: q[i].path.name != q[j].path.name
  }

  lemma CanonicalNamesDistinct(w: seq<Entry>)
    requires DistinctPaths(w)
    ensures DistinctNames(Canonical(w))
  {
    var c := Canonical(w);
    FilteredDistinct(w, LoserPaths(w));
    forall i, j | 0 <= i < j < |c| ensures c[i].path.name != c[j].path.name {
      CanonicalMembers(w, c[i]);
      CanonicalMembers(w, c[j]);
    }
  }

  lemma {:induction false} SortNamesDistinct(q: seq<Entry>)
    requires DistinctNames(q)
    ensures DistinctNames(SortByName(q))
  {
    if q != [] {
      assert DistinctNames(q[1..]);
      SortNamesDistinct(q[1..]);
      forall e | e in SortByName(q[1..]) ensures e.path.name != q[0].path.name {
        SortMembers(q[1..], e);
      }
      InsertNamesDistinct(q[0], SortByName(q[1..]));
    }
  }

  lemma {:induction false} InsertNamesDistinct(e: Entry, q: seq<Entry>)
    requires DistinctNames(q) && forall x | x in q :: x.path.name != e.path.name
    ensures DistinctNames(InsertByName(e, q))
  {
    if q == [] || !Lex.Less(q[0].path.name, e.path.name) {
    } else {
      assert DistinctNames(q[1..]);
      InsertNamesDistinct(e, q[1..]);
      var r := InsertByName(e, q[1..]);
      forall x | x in r ensures x.path.name != q[0].path.name {
        assert x in multiset(r);
        assert x == e || x in q[1..];
      }
    }
  }

  /** The file list the importer works on: sorted, each name once, and in it the kept copy
      of every name the walk found, and nothing else. */
  lemma FileListIsOnePerName(disk: Disk)
    requires DistinctPaths(disk)
    ensures Sorted(MemoryFiles(disk)) && DistinctNames(MemoryFiles(disk))
    ensures forall e | e in Walk(disk) :: Keep(Walk(disk), e.path.name) in MemoryFiles(disk)
    ensures forall e | e in MemoryFiles(disk) :: e in Walk(disk) && e == Keep(Walk(disk), e.path.name)
  {
    var w := Walk(disk);
    WalkDistinct(disk);
    SortSorted(Canonical(w));
    CanonicalNamesDistinct(w);
    SortNamesDistinct(Canonical(w));
    forall e | e in w ensures Keep(w, e.path.name) in MemoryFiles(disk) {
      KeepIsCanonical(w, e);
      SortMembers(Canonical(w), Keep(w, e.path.name));
    }
    forall e | e in MemoryFiles(disk) ensures e in w && e == Keep(w, e.path.name) {
      SortMembers(Canonical(w), e);
      CanonicalMembers(w, e);
    }
  }

  // ----- the list, from the disk

  /** A memory file by its path: at the top, under `projects`, or one directory below that;
      no generated index and no copy a sync left behind. */
  ghost predicate IsMemory(p: Path) {
    && |p.name| >= 3 && p.name[|p.name| - 3..] == ".md" && p.name != "MEMORY.md" && p.name != "INDEX.md"
    && !Occurs(p.name, ".sync-conflict-")
    && (p.dir == [] || p.dir == ["projects"] || (|p.dir| == 2 && p.dir[0] == "projects"))
  }

  lemma IsMemoryIs(p: Path)
    ensures Walked(p) <==> IsMemory(p)
  {
    OccursIsContains(p.name, ".sync-conflict-");
    hide Contains, Occurs;
    assert |p.name| >= 3 ==> p.name[|p.name| - 3..] == p.name[|p.name| - 3..|p.name|];
    assert |p.dir| == 1 ==> p.dir == [p.dir[0]];
  }

  /** All memory files of the name have one content. */
  ghost predicate Alike(disk: Disk, name: string) {
    forall a, b | a in disk && b in disk && IsMemory(a.path) && IsMemory(b.path) && a.path.name == b.path.name == name ::
      a.file.raw == b.file.raw
  }

  /** The path as text, for the directories the tree has. */
  function AsText(p: Path): string {
    if |p.dir| == 0 then p.name
    else if |p.dir| == 1 then p.dir[0] + "/" + p.name
    else p.dir[0] + "/" + p.dir[1] + "/" + p.name
  }

  lemma AsTextIs(p: Path)
    requires |p.dir| <= 2
    ensures Str(p) == AsText(p)
  {
    if |p.dir| > 0 {
      assert Joined(p.dir) == p.dir[0] + "/" + Joined(p.dir[1..]);
      if |p.dir| == 2 {
        assert p.dir[1..][1..] == [];
        assert Joined(p.dir[1..]) == p.dir[1] + "/" + "" == p.dir[1] + "/";
        assert p.dir[0] + "/" + (p.dir[1] + "/") + p.name == p.dir[0] + "/" + p.dir[1] + "/" + p.name;
      } else {
        assert p.dir[1..] == [];
        assert p.dir[0] + "/" + "" == p.dir[0] + "/";
      }
    } else {
      assert "" + p.name == p.name;
    }
  }

  predicate Deeper(a: Path, b: Path) {
    |a.dir| > |b.dir| || (|a.dir| == |b.dir| && !Lex.Less(AsText(a), AsText(b)))
  }

  /** Of copies that are alike the deepest is kept, of others the newest, and of those the
      deepest; the path decides the rest. */
  ghost predicate Kept(disk: Disk, k: Entry, e: Entry) {
    if Alike(disk, e.path.name) then Deeper(k.path, e.path)
    else k.file.mtime > e.file.mtime || (k.file.mtime == e.file.mtime && Deeper(k.path, e.path))
  }

  lemma AlikeIs(disk: Disk, name: string)
    requires Copies(Walk(disk), name) != []
    ensures Identical(Copies(Walk(disk), name)) <==> Alike(disk, name)
  {
    var g := Copies(Walk(disk), name);
    WalkMembers(disk);
    CopiesMembers(Walk(disk), name);
    forall p: Path ensures Walked(p) <==> IsMemory(p) { IsMemoryIs(p); }
    hide Walk, Copies, Walked, IsMemory;
    assert g[0] in g;
  }

  /** The file list, from the disk: one file for each name, the one that is kept. */
  lemma FileListFromDisk(disk: Disk)
    requires DistinctPaths(disk)
    ensures forall k | k in MemoryFiles(disk) :: k in disk && IsMemory(k.path)
    ensures forall e | e in disk && IsMemory(e.path) ::
      exists k :: k in MemoryFiles(disk) && k.path.name == e.path.name && Kept(disk, k, e)
  {
    FileListIsOnePerName(disk);
    WalkMembers(disk);
    hide Walk, MemoryFiles, Keep, IsMemory, Kept, DistinctPaths;
    forall k | k in MemoryFiles(disk) ensures k in disk && IsMemory(k.path) { IsMemoryIs(k.path); }
    forall e | e in disk && IsMemory(e.path)
      ensures exists k :: k in MemoryFiles(disk) && k.path.name == e.path.name && Kept(disk, k, e)
    {
      IsMemoryIs(e.path);
      KeepIsKept(disk, e);
    }
  }

  lemma KeepIsKept(disk: Disk, e: Entry)
    requires e in Walk(disk)
    ensures Kept(disk, Keep(Walk(disk), e.path.name), e)
  {
    var g := Copies(Walk(disk), e.path.name);
    CopiesMembers(Walk(disk), e.path.name);
    assert e in g;
    AlikeIs(disk, e.path.name);
    var k := Keep(Walk(disk), e.path.name);
    WalkMembers(disk);
    AsTextIs(e.path);
    AsTextIs(k.path);
    hide Walk, Copies, Identical, Alike, Best, AsText, Str;
    assert !Outranks(Identical(g), e, k);
  }

  /** Two copies meet in quarantine exactly when they have the same name and the same
      modification time. */
  lemma MeetIff(a: Entry, b: Entry)
    requires Walked(a.path) && Walked(b.path) && |a.path.name| > 3 && |b.path.name| > 3
    ensures Dest(a) == Dest(b) <==> a.path.name == b.path.name && a.file.mtime == b.file.mtime
  {
    var n, m := a.path.name, b.path.name;
    assert n[|n| - 3..] == n[|n| - 3..|n|] == ".md" && m[|m| - 3..] == m[|m| - 3..|m|] == ".md";
    assert n == n[..|n| - 3] + ".md" && m == m[..|m| - 3] + ".md";
  }

  // ----- the counts

  lemma {:induction false} CopiesDistinct(w: seq<Entry>, name: string)
    requires DistinctPaths(w)
    ensures DistinctPaths(Copies(w, name))
  {
    if w != [] {
      assert DistinctPaths(w[1..]);
      CopiesDistinct(w[1..], name);
      CopiesMembers(w[1..], name);
      assert forall e | e in w[1..] :: e.path != w[0].path;
    }
  }

  lemma JoinDistinct(a: seq<Entry>, b: seq<Entry>)
    requires DistinctPaths(a) && DistinctPaths(b) && forall x, y | x in a && y in b :: x.path != y.path
    ensures DistinctPaths(a + b)
  {
    forall i, j | 0 <= i < j < |a + b| ensures (a + b)[i].path != (a + b)[j].path {
      if i < |a| <= j { assert a[i] in a && b[j - |a|] in b; }
    }
  }

  lemma {:induction false} AllDropsDistinct(w: seq<Entry>, keeps: seq<Entry>)
    requires DistinctPaths(w) && DistinctNames(keeps)
    ensures DistinctPaths(AllDrops(w, keeps))
  {
    if keeps != [] {
      var n := |keeps| - 1;
      AllDropsDistinct(w, keeps[..n]);
      CopiesDistinct(w, keeps[n].path.name);
      FilteredDistinct(Copies(w, keeps[n].path.name), {keeps[n].path});
      DropsNamed(w, keeps[n]);
      hide DistinctPaths, Drops;
      forall x, y | x in AllDrops(w, keeps[..n]) && y in Drops(w, keeps[n]) ensures x.path != y.path {
        AllDropsMembers(w, keeps[..n], x);
        var k :| k in keeps[..n] && x in Drops(w, k);
        DropsNamed(w, k);
      }
      DropsIs(w, keeps[n]);
      JoinDistinct(AllDrops(w, keeps[..n]), Drops(w, keeps[n]));
    }
  }

  lemma DropsIs(w: seq<Entry>, k: Entry)
    ensures Drops(w, k) == Filtered(Copies(w, k.path.name), {k.path})
  {
  }

  function WithAction(w: seq<Entry>, drops: seq<Entry>, a: Action): set<Entry> {
    set e | e in drops && ActionFor(w, e.path.name) == a
  }

  lemma {:induction false} CountIs(w: seq<Entry>, drops: seq<Entry>, a: Action)
    requires DistinctPaths(drops)
    ensures Count(w, drops, a) == |WithAction(w, drops, a)|
  {
    hide ActionFor;
    if drops == [] {
      assert WithAction(w, [], a) == {};
    } else {
      var n := |drops| - 1;
      CountIs(w, drops[..n], a);
      assert drops[n] !in drops[..n];
      assert WithAction(w, drops, a) ==
        WithAction(w, drops[..n], a) + if ActionFor(w, drops[n].path.name) == a then {drops[n]} else {};
    }
  }

  /** The memory files of the disk that are not in the file list, by whether their copies
      are alike. */
  ghost function Displaced(disk: Disk, alike: bool): set<Entry> {
    set e | e in disk && IsMemory(e.path) && e !in MemoryFiles(disk) && (Alike(disk, e.path.name) <==> alike)
  }

  lemma DisplacedAre(disk: Disk, a: Action)
    requires DistinctPaths(disk)
    ensures WithAction(Walk(disk), HealDrops(disk), a) == Displaced(disk, a.Delete?)
  {
    var w := Walk(disk);
    hide Walk, HealDrops, MemoryFiles, IsMemory, Alike, DistinctPaths, Copies, Identical;
    forall e ensures e in WithAction(w, HealDrops(disk), a) <==> e in Displaced(disk, a.Delete?) {
      DisplacedIs(disk, e);
      if e in w {
        CopiesMembers(w, e.path.name);
        assert e in Copies(w, e.path.name);
        AlikeIs(disk, e.path.name);
      }
    }
  }

  lemma DisplacedIs(disk: Disk, e: Entry)
    requires DistinctPaths(disk)
    ensures e in HealDrops(disk) <==> e in disk && IsMemory(e.path) && e !in MemoryFiles(disk)
    ensures e in HealDrops(disk) ==> e in Walk(disk)
  {
    DropsAreTheLosers(disk, e);
    FileListIsOnePerName(disk);
    WalkMembers(disk);
    WalkDistinct(disk);
    IsMemoryIs(e.path);
    hide HealDrops, MemoryFiles, IsMemory, Walk, Walked;
    var w := Walk(disk);
    if e in w && IsCanonical(w, e) { SamePathSameEntry(w, e, Keep(w, e.path.name)); }
  }

  /** Healing counts each displaced copy once: deleted when the copies of its name are
      alike, quarantined otherwise. */
  lemma HealCountsAre(disk: Disk)
    requires DistinctPaths(disk)
    ensures HealCounts(disk) == HealStats(|Displaced(disk, true)|, |Displaced(disk, false)|)
  {
    WalkDistinct(disk);
    FileListIsOnePerName(disk);
    AllDropsDistinct(Walk(disk), MemoryFiles(disk));
    CountIs(Walk(disk), HealDrops(disk), Delete);
    CountIs(Walk(disk), HealDrops(disk), Quarantine);
    DisplacedAre(disk, Delete);
    DisplacedAre(disk, Quarantine);
    hide Walk, MemoryFiles, DistinctPaths, Displaced, AllDrops;
  }
}
