/** The polling loop of watch_vault (memsom/bridge/obsidian.py): a change is acted on
    once its signature has been steady for the debounce time. */
module Watcher {
  import opened Base

  /** (mtime in ns, size); a snapshot maps the vault's note paths to it. */
  datatype Sig = Sig(mtime: int, size: int)
  type Snapshot = map<string, Sig>

  datatype Waiting = Waiting(sig: Option<Sig>, since: real)
  datatype Poll = Poll(snap: Snapshot, now: real)

  /** The loop's variables between two ticks. */
  datatype Watch = Watch(prev: Snapshot, pending: map<string, Waiting>)

  function Get(s: Snapshot, rel: string): Option<Sig> {
    if rel in s then Some(s[rel]) else None
  }

  function Changed(prev: Snapshot, curr: Snapshot): set<string> {
    set rel | rel in prev.Keys + curr.Keys && Get(curr, rel) != Get(prev, rel)
  }

  /** `pending` once every changed path has (re)started its timer. */
  function Marked(w: Watch, p: Poll): map<string, Waiting> {
    map rel | rel in w.pending.Keys + Changed(w.prev, p.snap) ::
      if rel in Changed(w.prev, p.snap) then Waiting(Get(p.snap, rel), p.now) else w.pending[rel]
  }

  predicate Settles(x: Waiting, sig: Option<Sig>, now: real, debounce: real) {
    sig == x.sig && now - x.since >= debounce
  }

  /** The paths that settle at a poll; a sync runs when there is one. */
  function Settled(w: Watch, p: Poll, debounce: real): set<string> {
    set rel | rel in Marked(w, p) && Settles(Marked(w, p)[rel], Get(p.snap, rel), p.now, debounce)
  }

  function Ticked(w: Watch, p: Poll, debounce: real): Watch {
    Watch(p.snap, Marked(w, p) - Settled(w, p, debounce))
  }

  class VaultWatcher {
    const debounce: real
    var prev: Snapshot
    var pending: map<string, Waiting>

    constructor (start: Snapshot, quiet: real)
      ensures debounce == quiet && State() == Watch(start, map[])
    {
      debounce, prev, pending := quiet, start, map[];
    }

    function State(): Watch
      reads this
    {
      Watch(prev, pending)
    }

    /** One turn of the loop; the sync is asked for by the result. */
    method Tick(p: Poll) returns (sync: bool)
      modifies this
      ensures State() == Ticked(old(State()), p, debounce)
      ensures sync <==> Settled(old(State()), p, debounce) != {}
    {
      ghost var w := State();
      MarkChanged(p);
      var settled := set rel | rel in pending && Settles(pending[rel], Get(p.snap, rel), p.now, debounce);
      assert settled == Settled(w, p, debounce);
      sync := settled != {};
      Forget(settled);
      prev := p.snap;
    }

    /** Every path whose signature differs from the last poll (re)starts its timer. */
    method MarkChanged(p: Poll)
      modifies `pending
      ensures pending == Marked(old(State()), p)
    {
      ghost var w := State();
      var paths := prev.Keys + p.snap.Keys;
      while paths != {}
        invariant paths <= prev.Keys + p.snap.Keys
        invariant pending == MarkedBut(w, p, paths)
      {
        var rel :| rel in paths;
        MarkOne(w, p, paths, rel);
        if Get(p.snap, rel) != Get(prev, rel) {
          pending := pending[rel := Waiting(Get(p.snap, rel), p.now)];
        }
        paths := paths - {rel};
      }
    }

    method Forget(settled: set<string>)
      modifies `pending
      ensures pending == old(pending) - settled
    {
      var todo := settled;
      while todo != {}
        invariant todo <= settled
        invariant pending == old(pending) - (settled - todo)
      {
        var rel :| rel in todo;
        pending := pending - {rel};
        todo := todo - {rel};
      }
    }
  }

  /** `pending` while the paths of `left` are still to be looked at. */
  ghost function MarkedBut(w: Watch, p: Poll, left: set<string>): map<string, Waiting> {
    map rel | rel in w.pending.Keys + (Changed(w.prev, p.snap) - left) ::
      if rel in Changed(w.prev, p.snap) - left then Waiting(Get(p.snap, rel), p.now) else w.pending[rel]
  }

  lemma MarkOne(w: Watch, p: Poll, left: set<string>, rel: string)
    requires rel in left && left <= w.prev.Keys + p.snap.Keys
    ensures MarkedBut(w, p, left - {rel}) ==
      if Get(p.snap, rel) != Get(w.prev, rel) then MarkedBut(w, p, left)[rel := Waiting(Get(p.snap, rel), p.now)]
      else MarkedBut(w, p, left)
  {
    hide Get;
    var c := Changed(w.prev, p.snap);
    assert rel in c <==> Get(p.snap, rel) != Get(w.prev, rel);
    assert c - (left - {rel}) == if rel in c then (c - left) + {rel} else c - left;
  }

  // ----- runs

  /** The snapshot taken before the loop, and the polls. */
  datatype Run = Run(start: Snapshot, polls: seq<Poll>)

  function SnapAt(r: Run, i: nat): Snapshot
    requires i <= |r.polls|
  {
    if i == 0 then r.start else r.polls[i - 1].snap
  }

  function TimeAt(r: Run, i: nat): real
    requires 0 < i <= |r.polls|
  {
    r.polls[i - 1].now
  }

  function WatchAt(r: Run, n: nat, debounce: real): Watch
    requires n <= |r.polls|
  {
    if n == 0 then Watch(r.start, map[]) else Ticked(WatchAt(r, n - 1, debounce), r.polls[n - 1], debounce)
  }

  function SettledAt(r: Run, n: nat, debounce: real): set<string>
    requires 0 < n <= |r.polls|
  {
    Settled(WatchAt(r, n - 1, debounce), r.polls[n - 1], debounce)
  }

  predicate SyncAt(r: Run, n: nat, debounce: real)
    requires 0 < n <= |r.polls|
  {
    SettledAt(r, n, debounce) != {}
  }

  /** The monotonic clock does not go back. */
  ghost predicate Monotonic(r: Run) {
    forall i, j | 0 < i <= j <= |r.polls| :: TimeAt(r, i) <= TimeAt(r, j)
  }

  // ----- the reference: when a path last changed

  /** The last poll up to `n` that found `rel` different from the poll before, or 0. */
  function LastChange(r: Run, rel: string, n: nat): (k: nat)
    requires n <= |r.polls|
    ensures k <= n
    ensures k > 0 ==> Get(SnapAt(r, k), rel) != Get(SnapAt(r, k - 1), rel)
    ensures forall m | k <= m <= n :: Get(SnapAt(r, m), rel) == Get(SnapAt(r, n), rel)
  {
    if n == 0 then 0
    else if Get(SnapAt(r, n), rel) != Get(SnapAt(r, n - 1), rel) then n
    else LastChange(r, rel, n - 1)
  }

  /** `rel` changed and has been quiet for less than the debounce time. */
  predicate Unquiet(r: Run, rel: string, n: nat, debounce: real)
    requires n <= |r.polls|
  {
    var k := LastChange(r, rel, n);
    k > 0 && TimeAt(r, n) - TimeAt(r, k) < debounce
  }

  /** Poll `n` is the first at which `rel`, once changed, has been quiet for the
      debounce time. */
  predicate TurnsQuiet(r: Run, rel: string, n: nat, debounce: real)
    requires 0 < n <= |r.polls|
  {
    var k := LastChange(r, rel, n);
    && k > 0 && TimeAt(r, n) - TimeAt(r, k) >= debounce
    && (k == n || TimeAt(r, n - 1) - TimeAt(r, k) < debounce)
  }

  ghost predicate PendingIs(r: Run, n: nat, debounce: real)
    requires n <= |r.polls|
  {
    var w := WatchAt(r, n, debounce);
    && w.prev == SnapAt(r, n)
    && (forall rel :: rel in w.pending <==> Unquiet(r, rel, n, debounce))
    && (forall rel | rel in w.pending ::
          w.pending[rel] == Waiting(Get(SnapAt(r, n), rel), TimeAt(r, LastChange(r, rel, n))))
  }

  /** One tick, seen from one path. */
  lemma TickOnPath(r: Run, n: nat, debounce: real, rel: string)
    requires Monotonic(r) && 0 < n <= |r.polls| && PendingIs(r, n - 1, debounce)
    ensures var m := Marked(WatchAt(r, n - 1, debounce), r.polls[n - 1]);
      && (rel in m <==>
          LastChange(r, rel, n) == n || Unquiet(r, rel, n - 1, debounce))
      && (rel in m ==> m[rel] == Waiting(Get(SnapAt(r, n), rel), TimeAt(r, LastChange(r, rel, n))))
  {
    hide Unquiet, Ticked;
    var w, p := WatchAt(r, n - 1, debounce), r.polls[n - 1];
    assert p.snap == SnapAt(r, n) && p.now == TimeAt(r, n);
    assert rel in Changed(w.prev, p.snap) <==> LastChange(r, rel, n) == n;
    if rel !in Changed(w.prev, p.snap) && rel in w.pending {
      assert LastChange(r, rel, n) == LastChange(r, rel, n - 1);
    }
  }

  lemma QuietStep(r: Run, rel: string, n: nat, debounce: real)
    requires Monotonic(r) && 0 < n <= |r.polls|
    ensures var marked := LastChange(r, rel, n) == n || Unquiet(r, rel, n - 1, debounce);
      var late := marked && TimeAt(r, n) - TimeAt(r, LastChange(r, rel, n)) >= debounce;
      && (marked ==> LastChange(r, rel, n) > 0)
      && (Unquiet(r, rel, n, debounce) <==> marked && !late)
      && (TurnsQuiet(r, rel, n, debounce) <==> late)
  {
    var k := LastChange(r, rel, n);
    if k != n {
      assert k == LastChange(r, rel, n - 1);
      if k > 0 { assert TimeAt(r, n - 1) <= TimeAt(r, n); }
    }
  }

  /** PendingIs for one path. */
  ghost predicate PathIs(r: Run, n: nat, debounce: real, rel: string)
    requires n <= |r.polls|
  {
    var pending := WatchAt(r, n, debounce).pending;
    && (rel in pending <==> Unquiet(r, rel, n, debounce))
    && (rel in pending ==> pending[rel] == Waiting(Get(SnapAt(r, n), rel), TimeAt(r, LastChange(r, rel, n))))
  }

  lemma PathFrom(r: Run, n: nat, debounce: real, rel: string)
    requires n <= |r.polls|
    ensures var pending := WatchAt(r, n, debounce).pending;
      (rel in pending <==> Unquiet(r, rel, n, debounce))
      && (Unquiet(r, rel, n, debounce) ==> LastChange(r, rel, n) > 0)
      && (rel in pending && LastChange(r, rel, n) > 0 ==>
            pending[rel] == Waiting(Get(SnapAt(r, n), rel), TimeAt(r, LastChange(r, rel, n))))
      ==> PathIs(r, n, debounce, rel)
  {
    hide LastChange, WatchAt;
  }

  lemma TickIs(r: Run, n: nat, debounce: real, rel: string)
    requires Monotonic(r) && 0 < n <= |r.polls| && PendingIs(r, n - 1, debounce)
    ensures rel in SettledAt(r, n, debounce) <==> TurnsQuiet(r, rel, n, debounce)
    ensures PathIs(r, n, debounce, rel)
  {
    hide *;
    PathFrom(r, n, debounce, rel);
    TickOnPath(r, n, debounce, rel);
    QuietStep(r, rel, n, debounce);
    OnePath(WatchAt(r, n - 1, debounce), r.polls[n - 1], debounce, rel);
    Unfold(r, n, debounce);
  }

  lemma OnePath(w: Watch, p: Poll, debounce: real, rel: string)
    ensures var m := Marked(w, p);
      var late := rel in m && m[rel].sig == Get(p.snap, rel) && p.now - m[rel].since >= debounce;
      && (rel in Settled(w, p, debounce) <==> late)
      && (rel in Ticked(w, p, debounce).pending <==> rel in m && !late)
      && (rel in Ticked(w, p, debounce).pending ==> Ticked(w, p, debounce).pending[rel] == m[rel])
  {
    hide Marked;
  }

  lemma Unfold(r: Run, n: nat, debounce: real)
    requires 0 < n <= |r.polls|
    ensures WatchAt(r, n, debounce) == Ticked(WatchAt(r, n - 1, debounce), r.polls[n - 1], debounce)
    ensures SettledAt(r, n, debounce) == Settled(WatchAt(r, n - 1, debounce), r.polls[n - 1], debounce)
    ensures r.polls[n - 1].snap == SnapAt(r, n) == WatchAt(r, n, debounce).prev && r.polls[n - 1].now == TimeAt(r, n)
  {
    hide Marked, Settled;
  }

  /** What is pending after any number of polls: exactly the paths quiet for less than
      the debounce time, each with the signature of the last poll and the time of its
      last change. */
  lemma {:induction false} PendingIsUnquiet(r: Run, n: nat, debounce: real)
    requires Monotonic(r) && n <= |r.polls|
    ensures PendingIs(r, n, debounce)
  {
    hide *;
    if n == 0 {
      NothingPending(r, debounce);
    } else {
      PendingIsUnquiet(r, n - 1, debounce);
      forall rel ensures PathIs(r, n, debounce, rel) {
        TickIs(r, n, debounce, rel);
      }
      Unfold(r, n, debounce);
      PendingFrom(r, n, debounce);
    }
  }

  lemma NothingPending(r: Run, debounce: real)
    ensures PendingIs(r, 0, debounce)
  {
  }

  lemma PendingFrom(r: Run, n: nat, debounce: real)
    requires n <= |r.polls| && WatchAt(r, n, debounce).prev == SnapAt(r, n)
    requires forall rel :: PathIs(r, n, debounce, rel)
    ensures PendingIs(r, n, debounce)
  {
    hide LastChange, WatchAt;
    var w := WatchAt(r, n, debounce);
    forall rel ensures rel in w.pending <==> Unquiet(r, rel, n, debounce) { assert PathIs(r, n, debounce, rel); }
    forall rel | rel in w.pending
      ensures w.pending[rel] == Waiting(Get(SnapAt(r, n), rel), TimeAt(r, LastChange(r, rel, n)))
    {
      assert PathIs(r, n, debounce, rel);
    }
  }

  /** A sync runs at poll `n` exactly if some path turns quiet there: it changed, and
      `n` is the first poll at which it has kept its signature for the debounce time. */
  lemma SyncsExactlyWhenQuiet(r: Run, n: nat, debounce: real)
    requires Monotonic(r) && 0 < n <= |r.polls|
    ensures forall rel :: rel in SettledAt(r, n, debounce) <==> TurnsQuiet(r, rel, n, debounce)
    ensures SyncAt(r, n, debounce) <==> exists rel :: TurnsQuiet(r, rel, n, debounce)
  {
    hide TurnsQuiet, SettledAt, PendingIs, Monotonic;
    PendingIsUnquiet(r, n - 1, debounce);
    forall rel ensures rel in SettledAt(r, n, debounce) <==> TurnsQuiet(r, rel, n, debounce) {
      TickIs(r, n, debounce, rel);
    }
    if SyncAt(r, n, debounce) {
      var rel :| rel in SettledAt(r, n, debounce);
      assert TurnsQuiet(r, rel, n, debounce);
    }
  }

  /** The signature that settles was seen at every poll from the change on. */
  lemma SettledWasSteady(r: Run, n: nat, debounce: real, rel: string)
    requires Monotonic(r) && 0 < n <= |r.polls| && rel in SettledAt(r, n, debounce)
    ensures var k := LastChange(r, rel, n);
      && k > 0 && TimeAt(r, n) - TimeAt(r, k) >= debounce
      && forall m | k <= m <= n :: Get(SnapAt(r, m), rel) == Get(SnapAt(r, n), rel)
  {
    SyncsExactlyWhenQuiet(r, n, debounce);
  }

  /** The equality test on the signature never decides: a marked path always carries the
      current one. */
  lemma EqualityTestNeverDecides(r: Run, n: nat, debounce: real, rel: string)
    requires Monotonic(r) && 0 < n <= |r.polls|
    ensures var m := Marked(WatchAt(r, n - 1, debounce), r.polls[n - 1]);
      rel in m ==> m[rel].sig == Get(r.polls[n - 1].snap, rel)
  {
    hide Marked, WatchAt, LastChange, Unquiet, PendingIs, Monotonic, Get;
    PendingIsUnquiet(r, n - 1, debounce);
    TickOnPath(r, n, debounce, rel);
  }

  // ----- once the vault stops changing

  ghost predicate StillFrom(r: Run, k: nat, n: nat)
    requires n <= |r.polls|
  {
    forall m | k <= m <= n :: SnapAt(r, m) == SnapAt(r, n)
  }

  lemma {:induction false} NoLaterChange(r: Run, rel: string, k: nat, n: nat)
    requires k <= n <= |r.polls| && StillFrom(r, k, n)
    ensures LastChange(r, rel, n) == LastChange(r, rel, k)
  {
    if k < n {
      assert SnapAt(r, n - 1) == SnapAt(r, n);
      assert StillFrom(r, k, n - 1);
      NoLaterChange(r, rel, k, n - 1);
    }
  }

  /** Nothing is pending once the debounce time has passed since the last change. */
  lemma PendingDrains(r: Run, k: nat, n: nat, debounce: real)
    requires Monotonic(r) && 0 < k <= n <= |r.polls| && StillFrom(r, k, n)
    requires TimeAt(r, n) - TimeAt(r, k) >= debounce
    ensures WatchAt(r, n, debounce).pending == map[]
  {
    PendingIsUnquiet(r, n, debounce);
    forall rel ensures !Unquiet(r, rel, n, debounce) {
      NoLaterChange(r, rel, k, n);
    }
  }

  /** And from then on no sync runs. */
  lemma NoSyncAfterDrain(r: Run, k: nat, m: nat, n: nat, debounce: real)
    requires Monotonic(r) && 0 < k <= m < n <= |r.polls| && StillFrom(r, k, n)
    requires TimeAt(r, m) - TimeAt(r, k) >= debounce
    ensures !SyncAt(r, n, debounce)
  {
    SyncsExactlyWhenQuiet(r, n, debounce);
    forall rel ensures !TurnsQuiet(r, rel, n, debounce) {
      NoLaterChange(r, rel, k, n);
      assert TimeAt(r, m) <= TimeAt(r, n - 1);
    }
  }

  /** The first poll from `k` on at which the debounce time has passed since `k`. */
  lemma FirstLate(r: Run, k: nat, n: nat, debounce: real) returns (m: nat)
    requires 0 < k <= n <= |r.polls| && TimeAt(r, n) - TimeAt(r, k) >= debounce
    ensures k <= m <= n && TimeAt(r, m) - TimeAt(r, k) >= debounce
    ensures m == k || TimeAt(r, m - 1) - TimeAt(r, k) < debounce
  {
    m := n;
    while m > k && TimeAt(r, m - 1) - TimeAt(r, k) >= debounce
      invariant k <= m <= n && TimeAt(r, m) - TimeAt(r, k) >= debounce
    {
      m := m - 1;
    }
  }

  /** A last change is always followed by a sync, at the first poll that finds it quiet. */
  lemma ChangeIsSynced(r: Run, k: nat, n: nat, debounce: real) returns (m: nat)
    requires Monotonic(r) && 0 < k <= n <= |r.polls| && StillFrom(r, k, n)
    requires SnapAt(r, k) != SnapAt(r, k - 1) && TimeAt(r, n) - TimeAt(r, k) >= debounce
    ensures k <= m <= n && SyncAt(r, m, debounce)
  {
    m := FirstLate(r, k, n, debounce);
    var rel := Different(SnapAt(r, k), SnapAt(r, k - 1));
    assert StillFrom(r, k, m) by {
      forall i | k <= i <= m ensures SnapAt(r, i) == SnapAt(r, m) { }
    }
    NoLaterChange(r, rel, k, m);
    assert LastChange(r, rel, k) == k;
    assert TurnsQuiet(r, rel, m, debounce);
    SyncsExactlyWhenQuiet(r, m, debounce);
  }

  lemma Different(a: Snapshot, b: Snapshot) returns (rel: string)
    requires a != b
    ensures Get(a, rel) != Get(b, rel)
  {
    if rel1 :| rel1 in a && (rel1 !in b || a[rel1] != b[rel1]) {
      rel := rel1;
    } else {
      assert forall x | x in a :: x in b && a[x] == b[x];
      assert a.Keys <= b.Keys && !(b.Keys <= a.Keys) by {
        if b.Keys <= a.Keys { MapsEqual(a, b); }
      }
      rel :| rel in b && rel !in a;
    }
  }

  lemma MapsEqual(a: Snapshot, b: Snapshot)
    requires a.Keys == b.Keys && forall x | x in a :: a[x] == b[x]
    ensures a == b
  {
  }

  // ----- what the debounce does not give

  /** What a sync finds: every path that has changed is quiet by then exactly if nothing
      is left pending, that is, if each of them turns quiet at this poll or was quiet
      before it. */
  lemma SyncFindsAllQuietIff(r: Run, n: nat, debounce: real)
    requires Monotonic(r) && 0 < n <= |r.polls| && SyncAt(r, n, debounce)
    ensures WatchAt(r, n, debounce).pending == map[] <==> forall rel :: !Unquiet(r, rel, n, debounce)
    ensures (forall rel :: !Unquiet(r, rel, n, debounce)) <==>
      forall rel | LastChange(r, rel, n) > 0 ::
        TurnsQuiet(r, rel, n, debounce) || (LastChange(r, rel, n) < n && !Unquiet(r, rel, n - 1, debounce))
  {
    hide *;
    PendingIsUnquiet(r, n, debounce);
    PendingKeys(r, n, debounce);
    forall rel ensures Unquiet(r, rel, n, debounce) <==>
      LastChange(r, rel, n) > 0 && !TurnsQuiet(r, rel, n, debounce)
      && (LastChange(r, rel, n) == n || Unquiet(r, rel, n - 1, debounce))
    {
      QuietStep(r, rel, n, debounce);
    }
    assert forall rel :: LastChange(r, rel, n) <= n;
  }

  lemma PendingKeys(r: Run, n: nat, debounce: real)
    requires n <= |r.polls| && PendingIs(r, n, debounce)
    ensures WatchAt(r, n, debounce).pending == map[] <==> forall rel :: !Unquiet(r, rel, n, debounce)
  {
    hide Unquiet, LastChange, WatchAt;
    var pending := WatchAt(r, n, debounce).pending;
    if pending != map[] {
      var rel :| rel in pending;
      assert Unquiet(r, rel, n, debounce);
    }
  }

  /** A settled path syncs the whole vault, so a note that has just been written is
      synced in mid-debounce when another one settles: the debounce holds per path, not
      for the sync. */
  lemma SyncDoesNotWaitForTheOthers()
    ensures var a, b := Sig(1, 10), Sig(2, 20);
      var r := Run(map[], [Poll(map["a.md" := a], 1.0), Poll(map["a.md" := a, "b.md" := b], 2.0)]);
      && Monotonic(r) && SyncAt(r, 2, 0.4)
      && "b.md" in WatchAt(r, 2, 0.4).pending
  {
    var a, b := Sig(1, 10), Sig(2, 20);
    var r := Run(map[], [Poll(map["a.md" := a], 1.0), Poll(map["a.md" := a, "b.md" := b], 2.0)]);
    assert LastChange(r, "a.md", 1) == 1;
    assert LastChange(r, "a.md", 2) == 1;
    assert LastChange(r, "b.md", 2) == 2;
    SyncsExactlyWhenQuiet(r, 2, 0.4);
    assert TurnsQuiet(r, "a.md", 2, 0.4);
    PendingIsUnquiet(r, 2, 0.4);
    assert Unquiet(r, "b.md", 2, 0.4);
  }
}
