/** The memory directory on disk: which files are memories, which copy of a name is
    canonical, and the healing of duplicates (memsom/bridge/bridge_import.py). */
module MemoryTree {
  import opened Base
  import opened Frontmatter
  import Lex

  /** A path below the memory directory: its directories, and its file name. */
  datatype Path = Path(dir: seq<string>, name: string)

  datatype File = File(raw: Note, mtime: int, size: int)

  datatype Entry = Entry(path: Path, file: File)

  /** A listing of the directory, in the order the walk produces it. */
  type Disk = seq<Entry>

  function Depth(p: Path): nat {
    |p.dir| + 1
  }

  function Str(p: Path): string {
    Joined(p.dir) + p.name
  }

  function Joined(dir: seq<string>): string {
    if dir == [] then "" else dir[0] + "/" + Joined(dir[1..])
  }

  /** Path.stem of a `.md` file. */
  function Stem(name: string): string {
    if |name| > 3 then name[..|name| - 3] else name
  }

  /** What the walk returns: memory files on one of the three levels. */
  predicate Walked(p: Path) {
    && EndsWith(p.name, ".md")
    && p.name != "MEMORY.md" && p.name != "INDEX.md"
    && !Contains(p.name, ".sync-conflict-")
    && |p.dir| <= 2 && (|p.dir| > 0 ==> p.dir[0] == "projects")
  }

  function Walk(disk: Disk): seq<Entry> {
    if disk == [] then []
    else (if Walked(disk[0].path) then [disk[0]] else []) + Walk(disk[1..])
  }

  // ----- the canonical copy

  /** The copies of one name, in walk order. */
  function Copies(w: seq<Entry>, name: string): seq<Entry> {
    if w == [] then []
    else (if w[0].path.name == name then [w[0]] else []) + Copies(w[1..], name)
  }

  predicate Identical(g: seq<Entry>) {
    forall e | e in g :: e.file.raw == g[0].file.raw
  }

  /** The order of `max`: depth and path for identical copies, newest first otherwise. */
  predicate Outranks(identical: bool, a: Entry, b: Entry) {
    if !identical && a.file.mtime != b.file.mtime then a.file.mtime > b.file.mtime
    else if Depth(a.path) != Depth(b.path) then Depth(a.path) > Depth(b.path)
    else Lex.Less(Str(b.path), Str(a.path))
  }

  lemma OutranksTransitive(identical: bool, a: Entry, b: Entry, c: Entry)
    requires !Outranks(identical, b, a) && !Outranks(identical, c, b)
    ensures !Outranks(identical, c, a)
  {
    var sa, sb, sc := Str(a.path), Str(b.path), Str(c.path);
    Lex.Total(sa, sb);
    Lex.Total(sb, sc);
    if Lex.Less(sa, sc) {
      if Lex.Less(sb, sa) { Lex.Transitive(sb, sa, sc); }
    }
  }

  /** The first of the entries that nothing outranks. */
  function Best(identical: bool, g: seq<Entry>): (k: Entry)
    requires g != []
    ensures k in g && forall e | e in g :: !Outranks(identical, e, k)
  {
    if |g| == 1 then
      Lex.Irreflexive(Str(g[0].path));
      g[0]
    else
      var k := Best(identical, g[..|g| - 1]);
      var e := g[|g| - 1];
      Lex.Irreflexive(Str(e.path));
      assert forall x | x in g :: x in g[..|g| - 1] || x == e;
      OutranksBeaten(identical, g[..|g| - 1], k, e);
      if Outranks(identical, e, k) then e else k
  }

  /** What outranks the best of some entries is outranked by none of them. */
  lemma OutranksBeaten(identical: bool, g: seq<Entry>, k: Entry, e: Entry)
    requires forall x | x in g :: !Outranks(identical, x, k)
    ensures Outranks(identical, e, k) ==> forall x | x in g :: !Outranks(identical, x, e)
  {
    if Outranks(identical, e, k) {
      OutranksAntisymmetric(identical, e, k);
      forall x | x in g ensures !Outranks(identical, x, e) { OutranksTransitive(identical, e, k, x); }
    }
  }

  lemma OutranksAntisymmetric(identical: bool, a: Entry, b: Entry)
    requires Outranks(identical, a, b)
    ensures !Outranks(identical, b, a)
  {
    if Lex.Less(Str(a.path), Str(b.path)) && Lex.Less(Str(b.path), Str(a.path)) {
      Lex.Transitive(Str(a.path), Str(b.path), Str(a.path));
      Lex.Irreflexive(Str(a.path));
    }
  }

  /** The copy of `name` that resolve_duplicates keeps. */
  function Keep(w: seq<Entry>, name: string): (k: Entry)
    requires exists e :: e in w && e.path.name == name
    ensures k in w && k.path.name == name
  {
    CopiesMembers(w, name);
    var g := Copies(w, name);
    Best(Identical(g), g)
  }

  lemma {:induction false} WalkMembers(disk: Disk)
    ensures forall e :: e in Walk(disk) <==> e in disk && Walked(e.path)
  {
    if disk != [] { WalkMembers(disk[1..]); }
  }

  lemma {:induction false} CopiesMembers(w: seq<Entry>, name: string)
    ensures forall e :: e in Copies(w, name) <==> e in w && e.path.name == name
  {
    if w != [] { CopiesMembers(w[1..], name); }
  }

  lemma {:induction false} FilteredMembers(d: seq<Entry>, drop: set<Path>)
    ensures forall e :: e in Filtered(d, drop) <==> e in d && e.path !in drop
  {
    if d != [] { FilteredMembers(d[1..], drop); }
  }

  predicate IsCanonical(w: seq<Entry>, e: Entry)
    requires e in w
  {
    e.path == Keep(w, e.path.name).path
  }

  predicate IsLoser(w: seq<Entry>, e: Entry) {
    e in w && !IsCanonical(w, e)
  }

  function Filtered(d: seq<Entry>, drop: set<Path>): seq<Entry> {
    if d == [] then []
    else (if d[0].path in drop then [] else [d[0]]) + Filtered(d[1..], drop)
  }

  /** The paths healing takes out of the walked tree. */
  function LoserPaths(w: seq<Entry>): set<Path> {
    set e | e in w && IsLoser(w, e) :: e.path
  }

  /** iter_memory_files: the canonical copies, sorted by name. */
  function MemoryFiles(disk: Disk): seq<Entry> {
    SortByName(Filtered(Walk(disk), LoserPaths(Walk(disk))))
  }

  function InsertByName(e: Entry, q: seq<Entry>): (r: seq<Entry>)
    ensures multiset(r) == multiset{e} + multiset(q)
  {
    if q == [] || !Lex.Less(q[0].path.name, e.path.name) then [e] + q
    else
      assert q == [q[0]] + q[1..];
      [q[0]] + InsertByName(e, q[1..])
  }

  function SortByName(q: seq<Entry>): (r: seq<Entry>)
    ensures multiset(r) == multiset(q)
  {
    if q == [] then []
    else
      assert q == [q[0]] + q[1..];
      InsertByName(q[0], SortByName(q[1..]))
  }

  // ----- healing

  datatype Action = Delete | Quarantine

  /** The copies of the same name that are not the one kept, in walk order. */
  function Drops(w: seq<Entry>, k: Entry): seq<Entry> {
    Filtered(Copies(w, k.path.name), {k.path})
  }

  function ActionFor(w: seq<Entry>, name: string): Action {
    if Identical(Copies(w, name)) then Delete else Quarantine
  }

  function AllDrops(w: seq<Entry>, keeps: seq<Entry>): seq<Entry> {
    if keeps == [] then [] else AllDrops(w, keeps[..|keeps| - 1]) + Drops(w, keeps[|keeps| - 1])
  }

  /** Quarantine file name: the stem and the modification time. */
  function Dest(e: Entry): (string, int) {
    (Stem(e.path.name), e.file.mtime)
  }

  type Shelf = map<(string, int), File>

  /** Moving files into quarantine one after the other, a later one replacing an
      earlier one of the same name. */
  function Shelved(w: seq<Entry>, shelf: Shelf, drops: seq<Entry>): Shelf {
    if drops == [] then shelf
    else
      var e := drops[|drops| - 1];
      var before := Shelved(w, shelf, drops[..|drops| - 1]);
      if ActionFor(w, e.path.name).Quarantine? then before[Dest(e) := e.file] else before
  }

  function Count(w: seq<Entry>, drops: seq<Entry>, a: Action): nat {
    if drops == [] then 0
    else Count(w, drops[..|drops| - 1], a) + if ActionFor(w, drops[|drops| - 1].path.name) == a then 1 else 0
  }

  function Paths(q: seq<Entry>): set<Path> {
    set e | e in q :: e.path
  }

  ghost predicate DistinctPaths(d: seq<Entry>) {
    forall i, j | 0 <= i < j < |d| :: d[i].path != d[j].path
  }

  /** The drops of the whole tree, in the order healing visits them. */
  function HealDrops(disk: Disk): seq<Entry> {
    AllDrops(Walk(disk), MemoryFiles(disk))
  }

  function Healed(disk: Disk): Disk {
    Filtered(disk, Paths(HealDrops(disk)))
  }

  datatype HealStats = HealStats(dedup: nat, quarantined: nat)

  function HealCounts(disk: Disk): HealStats {
    HealStats(Count(Walk(disk), HealDrops(disk), Delete), Count(Walk(disk), HealDrops(disk), Quarantine))
  }

  class MemoryDir {
    var disk: Disk
    var shelf: Shelf

    constructor (disk: Disk, shelf: Shelf)
      ensures this.disk == disk && this.shelf == shelf
    {
      this.disk, this.shelf := disk, shelf;
    }

    /** The directory and the counts once exactly `seen` has been dropped. */
    ghost predicate Dropped(disk0: Disk, shelf0: Shelf, seen: seq<Entry>, stats: HealStats, dryRun: bool)
      reads this
    {
      && stats == HealStats(Count(Walk(disk0), seen, Delete), Count(Walk(disk0), seen, Quarantine))
      && disk == (if dryRun then disk0 else Filtered(disk0, Paths(seen)))
      && shelf == (if dryRun then shelf0 else Shelved(Walk(disk0), shelf0, seen))
    }

    /** One copy: deleted or moved, and counted either way. */
    method Drop(loser: Entry, action: Action, dryRun: bool, stats: HealStats,
                ghost disk0: Disk, ghost shelf0: Shelf, ghost seen: seq<Entry>)
      returns (after: HealStats)
      requires Dropped(disk0, shelf0, seen, stats, dryRun)
      requires action == ActionFor(Walk(disk0), loser.path.name)
      modifies this
      ensures Dropped(disk0, shelf0, seen + [loser], after, dryRun)
    {
      DropAppend(Walk(disk0), shelf0, seen, loser);
      if action.Delete? {
        after := stats.(dedup := stats.dedup + 1);
      } else {
        after := stats.(quarantined := stats.quarantined + 1);
        if !dryRun { shelf := shelf[Dest(loser) := loser.file]; }
      }
      if !dryRun {
        FilteredTwice(disk0, Paths(seen), {loser.path});
        disk := Filtered(disk, {loser.path});
        PathsAppend(seen, loser);
      }
    }

    method DropAll(drops: seq<Entry>, action: Action, dryRun: bool, stats: HealStats,
                   ghost disk0: Disk, ghost shelf0: Shelf, ghost seen: seq<Entry>)
      returns (after: HealStats)
      requires Dropped(disk0, shelf0, seen, stats, dryRun)
      requires forall e | e in drops :: action == ActionFor(Walk(disk0), e.path.name)
      modifies this
      ensures Dropped(disk0, shelf0, seen + drops, after, dryRun)
    {
      hide *;
      after := stats;
      ghost var done := seen;
      for j := 0 to |drops|
        invariant done == seen + drops[..j]
        invariant Dropped(disk0, shelf0, done, after, dryRun)
      {
        after := Drop(drops[j], action, dryRun, after, disk0, shelf0, done);
        done := done + [drops[j]];
        assert drops[..j + 1] == drops[..j] + [drops[j]];
      }
      assert drops[..|drops|] == drops;
    }

    /** heal_duplicates: every copy that is not canonical is deleted (identical
        copies) or moved to quarantine (differing copies); a dry run counts the
        same and touches nothing. */
    method Heal(dryRun: bool) returns (stats: HealStats)
      modifies this
      ensures stats == HealCounts(old(disk))
      ensures dryRun ==> disk == old(disk) && shelf == old(shelf)
      ensures !dryRun ==>
        disk == Healed(old(disk)) && shelf == Shelved(Walk(old(disk)), old(shelf), HealDrops(old(disk)))
    {
      var w := Walk(disk);
      var keeps := MemoryFiles(disk);
      stats := HealStats(0, 0);
      ghost var seen: seq<Entry> := [];
      assert Paths([]) == {};
      FilteredNone(disk, {});
      for i := 0 to |keeps|
        invariant seen == AllDrops(w, keeps[..i])
        invariant Dropped(old(disk), old(shelf), seen, stats, dryRun)
      {
        hide *;
        AllDropsStep(w, keeps, i);
        var drops := Drops(w, keeps[i]);
        var action := ActionFor(w, keeps[i].path.name);
        DropsNamed(w, keeps[i]);
        stats := DropAll(drops, action, dryRun, stats, old(disk), old(shelf), seen);
        seen := seen + drops;
      }
      assert keeps[..|keeps|] == keeps;
    }
  }

  lemma AllDropsStep(w: seq<Entry>, keeps: seq<Entry>, i: nat)
    requires i < |keeps|
    ensures AllDrops(w, keeps[..i + 1]) == AllDrops(w, keeps[..i]) + Drops(w, keeps[i])
  {
    assert keeps[..i + 1][..i] == keeps[..i];
  }

  lemma DropsNamed(w: seq<Entry>, k: Entry)
    ensures forall e | e in Drops(w, k) :: e in w && e.path.name == k.path.name && e.path != k.path
  {
    CopiesMembers(w, k.path.name);
    FilteredMembers(Copies(w, k.path.name), {k.path});
  }

  lemma DropAppend(w: seq<Entry>, shelf: Shelf, q: seq<Entry>, e: Entry)
    ensures forall a :: Count(w, q + [e], a) == Count(w, q, a) + if ActionFor(w, e.path.name) == a then 1 else 0
    ensures Shelved(w, shelf, q + [e]) ==
      if ActionFor(w, e.path.name).Quarantine? then Shelved(w, shelf, q)[Dest(e) := e.file] else Shelved(w, shelf, q)
  {
    assert (q + [e])[..|q + [e]| - 1] == q;
  }

  lemma PathsAppend(q: seq<Entry>, e: Entry)
    ensures Paths(q + [e]) == Paths(q) + {e.path}
  {
    forall p ensures p in Paths(q + [e]) <==> p in Paths(q) + {e.path} {
      if p in Paths(q) {
        var x :| x in q && x.path == p;
        assert x in q + [e];
      }
      assert e in q + [e];
    }
  }

  lemma {:induction false} FilteredNone(d: seq<Entry>, drop: set<Path>)
    requires forall e | e in d :: e.path !in drop
    ensures Filtered(d, drop) == d
  {
    if d != [] { FilteredNone(d[1..], drop); }
  }

  lemma {:induction false} FilteredTwice(d: seq<Entry>, a: set<Path>, b: set<Path>)
    ensures Filtered(Filtered(d, a), b) == Filtered(d, a + b)
  {
    if d != [] {
      FilteredTwice(d[1..], a, b);
      if d[0].path !in a {
        assert Filtered(d, a) == [d[0]] + Filtered(d[1..], a);
        assert Filtered(d, a)[1..] == Filtered(d[1..], a);
      } else {
        assert Filtered(d, a) == Filtered(d[1..], a);
      }
    }
  }
}
