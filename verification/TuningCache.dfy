/** The cached reader of tuning.json and the calls that rewrite it (memsom/tuning.py). */
module TuningCache {
  import opened Base

  type Value = string
  type Data = map<string, Value>

  /** One state of the file on disk: since when it has been there, its modification time
      (None: no file), and what a reader makes of it. */
  datatype Version = Version(born: real, mtime: Option<int>, data: Data)

  /** All states a file has had so far; the last one is the current one. */
  type History = h: seq<Version> | h != [] witness [Version(0.0, None, map[])]

  type Files = map<string, History>

  function Now(h: History): Version {
    h[|h| - 1]
  }

  const FILE_STAT_TTL_S := 1.0

  datatype Cache = Cache(path: Option<string>, mtime: Option<int>, data: Data, checked: real)

  const INVALID := Cache(None, None, map[], 0.0)

  /** The cache is used without looking at the file. */
  predicate Hit(c: Cache, p: string, now: real) {
    c.path == Some(p) && now - c.checked < FILE_STAT_TTL_S
  }

  /** The cache after persisted(), whose result is its data: `atStat` and `atRead` are the
      file's history when it is stat'ed and when it is read. */
  function Looked(c: Cache, p: string, now: real, atStat: History, atRead: History): Cache {
    if Hit(c, p, now) then c
    else if c.path == Some(p) && c.mtime == Now(atStat).mtime then c.(checked := now)
    else
      var m := Now(atStat).mtime;
      Cache(Some(p), m, if m.Some? then Now(atRead).data else map[], now)
  }

  /** What set_persisted and unset_persisted write. */
  function Set(c: Cache, p: string, now: real, atStat: History, atRead: History, key: string, v: Value): Data {
    Looked(c, p, now, atStat, atRead).data[key := v]
  }

  function Unset(c: Cache, p: string, now: real, atStat: History, atRead: History, key: string): Data {
    Looked(c, p, now, atStat, atRead).data - {key}
  }

  class Tuning {
    var path: Option<string>
    var mtime: Option<int>
    var data: Data
    var checked: real
    var overrides: Data

    constructor ()
      ensures State() == INVALID && overrides == map[]
    {
      path, mtime, data, checked, overrides := None, None, map[], 0.0, map[];
    }

    function State(): Cache
      reads this
    {
      Cache(path, mtime, data, checked)
    }

    method InvalidatePersisted()
      modifies `path, `mtime, `data, `checked
      ensures State() == INVALID
    {
      path, mtime, data, checked := None, None, map[], 0.0;
    }

    method Persisted(p: string, now: real, atStat: History, atRead: History) returns (d: Data)
      modifies `path, `mtime, `data, `checked
      ensures State() == Looked(old(State()), p, now, atStat, atRead)
      ensures d == State().data
    {
      if path == Some(p) && now - checked < FILE_STAT_TTL_S {
        return data;
      }
      var m := Now(atStat).mtime;
      if path == Some(p) && mtime == m {
        checked := now;
        return data;
      }
      d := map[];
      if m.Some? {
        d := Now(atRead).data;
      }
      path, mtime, data, checked := Some(p), m, d, now;
    }

    /** set_persisted; `accepted` is the value a known knob takes in place of the given
        one, None when it rejects it. Returns what replaces the file. */
    method SetPersisted(p: string, now: real, atStat: History, atRead: History, key: string, accepted: Option<Value>)
      returns (written: Option<Data>)
      modifies `path, `mtime, `data, `checked
      ensures accepted.None? ==> written == None && State() == old(State())
      ensures accepted.Some? ==>
        written == Some(Set(old(State()), p, now, atStat, atRead, key, accepted.value)) && State() == INVALID
    {
      if accepted.None? {
        return None;
      }
      var d := Persisted(p, now, atStat, atRead);
      written := Some(d[key := accepted.value]);
      InvalidatePersisted();
    }

    method UnsetPersisted(p: string, now: real, atStat: History, atRead: History, key: string) returns (written: Data)
      modifies `path, `mtime, `data, `checked
      ensures written == Unset(old(State()), p, now, atStat, atRead, key)
      ensures State() == INVALID
    {
      var d := Persisted(p, now, atStat, atRead);
      written := d - {key};
      InvalidatePersisted();
    }

    /** resolve: an override, and a knob that is not read from the environment, are answered
        without a look at the file. */
    method ResolveKnob(k: Knob, key: string, p: string, now: real, atStat: History, atRead: History, env: Data,
        fromFile: Value -> Option<Value>, fromEnv: Value -> Option<Value>) returns (v: Value)
      modifies `path, `mtime, `data, `checked
      ensures var looked := Looked(old(State()), p, now, atStat, atRead);
        && v == Resolve(k, key, overrides, looked.data, env, fromFile, fromEnv)
        && State() == if key in overrides || k.envVar.None? then old(State()) else looked
    {
      if key in overrides {
        return overrides[key];
      }
      if k.envVar.None? {
        return k.dflt;
      }
      var file := Persisted(p, now, atStat, atRead);
      if key in file && fromFile(file[key]).Some? {
        return fromFile(file[key]).value;
      }
      if k.envVar.value in env && fromEnv(env[k.envVar.value]).Some? {
        return env[k.envVar.value];
      }
      return k.dflt;
    }

    method Override(key: string, v: Value)
      modifies `overrides
      ensures overrides == old(overrides)[key := v]
    {
      overrides := overrides[key := v];
    }

    method ClearOverride(key: string)
      modifies `overrides
      ensures overrides == old(overrides) - {key}
    {
      overrides := overrides - {key};
    }
  }

  /** Within a second of the last look at a path the cache answers; from then on, and for any
      other path, the file is looked at. */
  lemma CacheAnswersIff(c: Cache, p: string, now: real, atStat: History, atRead: History)
    ensures c.path == Some(p) && now - c.checked < 1.0 ==> Looked(c, p, now, atStat, atRead) == c
    ensures c.path != Some(p) || now - c.checked >= 1.0 ==>
      Looked(c, p, now, atStat, atRead).checked == now && Looked(c, p, now, atStat, atRead).path == Some(p)
  {
  }

  // ----- how fresh a read is

  /** Version `v` of the file was there at some moment at or after `t`. */
  predicate Held(h: History, v: nat, t: real) {
    v < |h| && (v + 1 < |h| ==> h[v + 1].born >= t)
  }

  ghost predicate HeldSince(h: History, d: Data, t: real) {
    exists v: nat :: Held(h, v, t) && h[v].data == d
  }

  /** Every write changes the modification time, and an absent file reads as empty. */
  ghost predicate Proper(h: History) {
    && (forall i, j | 0 <= i < j < |h| && h[i].mtime.Some? :: h[i].mtime != h[j].mtime)
    && (forall i | 0 <= i < |h| && h[i].mtime.None? :: h[i].data == map[])
  }

  /** The file goes on from `a` to `b`, all of it at or after `t`. */
  ghost predicate Grows(a: History, b: History, t: real) {
    a <= b && forall i | |a| <= i < |b| :: b[i].born >= t
  }

  ghost predicate AllGrow(a: Files, b: Files, t: real) {
    forall p | p in a :: p in b && Grows(a[p], b[p], t)
  }

  ghost predicate AllProper(fs: Files) {
    forall p | p in fs :: Proper(fs[p])
  }

  /** The cache holds the data of a version `r` the file had at or after the last stat, and
      the modification time of a version `s` that is not a later one. */
  ghost predicate TracksAt(c: Cache, h: History, s: nat, r: nat) {
    && s <= r && Held(h, r, c.checked)
    && c.mtime == h[s].mtime && c.data == h[r].data && (c.mtime.None? ==> c.data == map[])
  }

  ghost predicate TracksIn(c: Cache, h: History) {
    exists s: nat, r: nat :: TracksAt(c, h, s, r)
  }

  ghost predicate Tracks(c: Cache, fs: Files, clock: real) {
    c.path.Some? ==> c.path.value in fs && c.checked <= clock && TracksIn(c, fs[c.path.value])
  }

  lemma HeldGrows(a: History, b: History, v: nat, t: real, u: real)
    requires Held(a, v, t) && Grows(a, b, u) && t <= u
    ensures Held(b, v, t) && b[v] == a[v]
  {
  }

  lemma TracksGrows(c: Cache, a: History, b: History, u: real)
    requires TracksIn(c, a) && Grows(a, b, u) && c.checked <= u
    ensures TracksIn(c, b)
  {
    var s: nat, r: nat :| TracksAt(c, a, s, r);
    HeldGrows(a, b, r, c.checked, u);
    assert TracksAt(c, b, s, r);
  }

  /** With the same modification time at a later stat, the cached data is current. */
  lemma SameMtimeIsCurrent(c: Cache, h: History)
    requires TracksIn(c, h) && Proper(h) && c.mtime == Now(h).mtime
    ensures c.data == Now(h).data && TracksAt(c.(checked := 0.0), h, |h| - 1, |h| - 1)
    ensures forall t: real :: TracksAt(c.(checked := t), h, |h| - 1, |h| - 1)
  {
    var s: nat, r: nat :| TracksAt(c, h, s, r);
  }

  /** One call of persisted(): the result is what the file held at or after a moment less
      than a second ago, also if the file is written between the stat and the read. */
  lemma CallIsFresh(c: Cache, p: string, now: real, before: Files, atStat: Files, atRead: Files, clock: real)
    requires Tracks(c, before, clock) && clock <= now && p in before && AllProper(atRead)
    requires AllGrow(before, atStat, clock) && AllGrow(atStat, atRead, now)
    ensures var c1 := Looked(c, p, now, atStat[p], atRead[p]);
      && Tracks(c1, atRead, now) && c1.path == Some(p)
      && now - 1.0 < c1.checked <= now && HeldSince(atRead[p], c1.data, c1.checked)
  {
    hide Proper;
    var c1 := Looked(c, p, now, atStat[p], atRead[p]);
    if c.path == Some(p) {
      TracksGrows(c, before[p], atStat[p], clock);
      ProperPrefix(atStat[p], atRead[p]);
    }
    if !Hit(c, p, now) {
      if c.path == Some(p) && c.mtime == Now(atStat[p]).mtime {
        SameMtimeIsCurrent(c, atStat[p]);
        assert TracksAt(c1, atStat[p], |atStat[p]| - 1, |atStat[p]| - 1);
        TracksGrows(c1, atStat[p], atRead[p], now);
      } else {
        FreshRead(p, now, atStat[p], atRead[p]);
      }
    } else {
      TracksGrows(c1, atStat[p], atRead[p], now);
    }
    TrackedIsHeld(c1, atRead[p]);
  }

  lemma TrackedIsHeld(c: Cache, h: History)
    requires TracksIn(c, h)
    ensures HeldSince(h, c.data, c.checked)
  {
    var s: nat, r: nat :| TracksAt(c, h, s, r);
    assert Held(h, r, c.checked) && h[r].data == c.data;
  }

  lemma ProperPrefix(a: History, b: History)
    requires a <= b && Proper(b)
    ensures Proper(a)
  {
    forall i | 0 <= i < |a| ensures a[i] == b[i] { }
  }

  lemma FreshRead(p: string, now: real, atStat: History, atRead: History)
    requires Grows(atStat, atRead, now) && Proper(atRead)
    ensures var m := Now(atStat).mtime;
      TracksIn(Cache(Some(p), m, if m.Some? then Now(atRead).data else map[], now), atRead)
  {
    var m := Now(atStat).mtime;
    var c := Cache(Some(p), m, if m.Some? then Now(atRead).data else map[], now);
    var s := |atStat| - 1;
    assert atRead[s] == atStat[s];
    assert TracksAt(c, atRead, s, if m.Some? then |atRead| - 1 else s);
  }

  // ----- whole runs

  /** A call of persisted(), or one of set_persisted (`change` the value) or
      unset_persisted (None): it reads, merges, and replaces the file by a version of its
      own. Other processes write in between, also between the read and the replace. */
  datatype Step =
    | Read(p: string, now: real, atStat: Files, atRead: Files)
    | Write(p: string, now: real, key: string, change: Option<Value>, atStat: Files, atRead: Files, atReplace: Files,
            born: real, mtime: int)

  /** What the call writes. */
  function Written(c: Cache, p: string, now: real, atStat: History, atRead: History, key: string, change: Option<Value>): Data {
    if change.Some? then Set(c, p, now, atStat, atRead, key, change.value) else Unset(c, p, now, atStat, atRead, key)
  }

  predicate Knows(s: Step) {
    s.p in s.atStat && s.p in s.atRead && (s.Write? ==> s.p in s.atReplace)
  }

  function After(c: Cache, s: Step): Cache
    requires Knows(s)
  {
    if s.Read? then Looked(c, s.p, s.now, s.atStat[s.p], s.atRead[s.p]) else INVALID
  }

  /** The files once the step is done. */
  function Left(c: Cache, s: Step): Files
    requires Knows(s)
  {
    if s.Read? then s.atRead
    else
      var own := Version(s.born, Some(s.mtime), Written(c, s.p, s.now, s.atStat[s.p], s.atRead[s.p], s.key, s.change));
      s.atReplace[s.p := s.atReplace[s.p] + [own]]
  }

  /** The files grow through the step, at or after its clock reading, and every write of
      the run changes the modification time. */
  ghost predicate Follows(c: Cache, fs: Files, clock: real, s: Step)
    requires Knows(s)
  {
    && clock <= s.now && s.p in fs
    && AllGrow(fs, s.atStat, clock) && AllGrow(s.atStat, s.atRead, s.now)
    && AllGrow(s.atRead, Left(c, s), s.now)
    && (s.Write? ==> AllGrow(s.atRead, s.atReplace, s.now) && s.born >= s.now)
    && AllProper(s.atRead) && AllProper(Left(c, s))
  }

  /** The steps follow on each other, with a clock that does not go back. */
  ghost predicate Run(c: Cache, fs: Files, clock: real, steps: seq<Step>)
    decreases |steps|
  {
    steps == [] ||
    (Knows(steps[0]) && Follows(c, fs, clock, steps[0])
      && Run(After(c, steps[0]), Left(c, steps[0]), steps[0].now, steps[1..]))
  }

  /** What every call of the run read was in the file less than a second before. */
  ghost predicate AllFresh(c: Cache, steps: seq<Step>)
    decreases |steps|
  {
    steps == [] ||
    var s := steps[0];
    && Knows(s)
    && (var c1 := Looked(c, s.p, s.now, s.atStat[s.p], s.atRead[s.p]);
        s.now - 1.0 < c1.checked <= s.now && HeldSince(s.atRead[s.p], c1.data, c1.checked))
    && AllFresh(After(c, s), steps[1..])
  }

  lemma {:induction false} EveryReadIsFresh(c: Cache, fs: Files, clock: real, steps: seq<Step>)
    requires Tracks(c, fs, clock) && Run(c, fs, clock, steps)
    ensures AllFresh(c, steps)
    decreases |steps|
  {
    if steps != [] {
      var s := steps[0];
      hide Tracks, AllProper, Looked, HeldSince, Written;
      CallIsFresh(c, s.p, s.now, fs, s.atStat, s.atRead, clock);
      InvalidTracks(Left(c, s), s.now);
      EveryReadIsFresh(After(c, s), Left(c, s), s.now, steps[1..]);
    }
  }

  lemma InvalidTracks(fs: Files, clock: real)
    ensures Tracks(INVALID, fs, clock)
  {
  }

  // ----- a process sees its own writes

  /** What is cached for `p` is a version of the file from version `w` on. */
  ghost predicate From(h: History, d: Data, w: nat) {
    exists r: nat :: w <= r < |h| && h[r].data == d
  }

  ghost predicate CachedFrom(c: Cache, p: string, h: History, w: nat) {
    c.path == Some(p) ==> From(h, c.data, w)
  }

  /** Every read of `p` in the run returns a version of the file from `w` on: the write
      that made version `w` or a later one, never anything older. When nobody wrote since,
      it is version `w` itself. */
  ghost predicate AllFrom(c: Cache, p: string, w: nat, steps: seq<Step>)
    decreases |steps|
  {
    steps == [] ||
    var s := steps[0];
    && Knows(s)
    && (s.p == p ==>
          var d := Looked(c, p, s.now, s.atStat[p], s.atRead[p]).data;
          From(s.atRead[p], d, w) && (|s.atRead[p]| == w + 1 ==> d == s.atRead[p][w].data))
    && AllFrom(After(c, s), p, w, steps[1..])
  }

  lemma FromGrows(a: History, b: History, d: Data, w: nat)
    requires From(a, d, w) && a <= b
    ensures From(b, d, w)
  {
    var r: nat :| w <= r < |a| && a[r].data == d;
    assert b[r] == a[r];
  }

  /** One look at `p`, the file having version `w` already. */
  lemma LookFrom(c: Cache, p: string, now: real, fs: History, atStat: History, atRead: History, w: nat)
    requires fs <= atStat <= atRead && w < |fs| && CachedFrom(c, p, fs, w) && Proper(atRead)
    ensures From(atRead, Looked(c, p, now, atStat, atRead).data, w)
  {
    var c1 := Looked(c, p, now, atStat, atRead);
    if c.path == Some(p) { FromGrows(fs, atRead, c.data, w); }
    if c1.data == Now(atRead).data {
      assert atRead[|atRead| - 1].data == c1.data;
    } else if c1.data != c.data || c.path != Some(p) {
      assert atRead[|atStat| - 1] == Now(atStat);
    }
  }

  /** A run in which the cache holds nothing older than version `w` of `p`. */
  lemma {:induction false} ReadsFrom(c: Cache, fs: Files, clock: real, p: string, w: nat, steps: seq<Step>)
    requires Run(c, fs, clock, steps) && p in fs && w < |fs[p]| && CachedFrom(c, p, fs[p], w)
    ensures AllFrom(c, p, w, steps)
    decreases |steps|
  {
    if steps != [] {
      var s := steps[0];
      hide AllProper, Looked, From, Written;
      OneStepFrom(c, fs, clock, p, w, s);
      ReadsFrom(After(c, s), Left(c, s), s.now, p, w, steps[1..]);
    }
  }

  lemma OneStepFrom(c: Cache, fs: Files, clock: real, p: string, w: nat, s: Step)
    requires Knows(s) && Follows(c, fs, clock, s) && p in fs && w < |fs[p]| && CachedFrom(c, p, fs[p], w)
    ensures p in Left(c, s) && w < |Left(c, s)[p]| && CachedFrom(After(c, s), p, Left(c, s)[p], w)
    ensures s.p == p ==>
      var d := Looked(c, p, s.now, s.atStat[p], s.atRead[p]).data;
      From(s.atRead[p], d, w) && (|s.atRead[p]| == w + 1 ==> d == s.atRead[p][w].data)
  {
    hide Written, Proper;
    assert Grows(fs[p], s.atStat[p], clock) && Grows(s.atStat[p], s.atRead[p], s.now);
    assert Grows(s.atRead[p], Left(c, s)[p], s.now);
    if s.p == p {
      LookFrom(c, p, s.now, fs[p], s.atStat[p], s.atRead[p], w);
    } else if c.path == Some(p) {
      FromGrows(fs[p], s.atRead[p], c.data, w);
    }
  }

  /** After its own set or unset a process never reads anything older than what it wrote,
      in whatever it and others do next; and as long as nobody else has written, it reads
      exactly that. */
  lemma OwnWriteIsSeen(c: Cache, fs: Files, clock: real, steps: seq<Step>)
    requires Run(c, fs, clock, steps) && steps != [] && steps[0].Write?
    ensures var s := steps[0];
      var h := Left(c, s)[s.p];
      && Now(h).data == Written(c, s.p, s.now, s.atStat[s.p], s.atRead[s.p], s.key, s.change)
      && AllFrom(INVALID, s.p, |h| - 1, steps[1..])
  {
    var s := steps[0];
    FirstStep(c, fs, clock, steps);
    WriteLeaves(c, s);
    hide *;
    ReadsFrom(INVALID, Left(c, s), s.now, s.p, |Left(c, s)[s.p]| - 1, steps[1..]);
  }

  lemma FirstStep(c: Cache, fs: Files, clock: real, steps: seq<Step>)
    requires Run(c, fs, clock, steps) && steps != []
    ensures Knows(steps[0]) && Run(After(c, steps[0]), Left(c, steps[0]), steps[0].now, steps[1..])
  {
    hide Follows, Left, After;
  }

  lemma WriteLeaves(c: Cache, s: Step)
    requires Knows(s) && s.Write?
    ensures After(c, s) == INVALID && s.p in Left(c, s)
    ensures Now(Left(c, s)[s.p]).data == Written(c, s.p, s.now, s.atStat[s.p], s.atRead[s.p], s.key, s.change)
    ensures CachedFrom(INVALID, s.p, Left(c, s)[s.p], |Left(c, s)[s.p]| - 1)
  {
    hide Written;
  }

  // ----- a set merges into what was read

  /** The contents a set or unset starts from. */
  function StartsFrom(c: Cache, p: string, now: real, atStat: History, atRead: History): Data {
    if Hit(c, p, now) then c.data
    else if c.path == Some(p) && c.mtime == Now(atStat).mtime then Now(atStat).data
    else if Now(atStat).mtime.None? then map[]
    else Now(atRead).data
  }

  /** A set or unset replaces the file, whatever is in it by then: it keeps the other keys
      if and only if the contents it started from (the cache within a second of the last
      stat, what the stat confirmed, or what was read) agree off the key with what the file
      holds when it is replaced. */
  lemma SetKeepsOthersIff(c: Cache, p: string, now: real, atStat: History, atRead: History, atReplace: History, key: string, v: Value)
    requires Proper(atStat) && (c.path == Some(p) ==> TracksIn(c, atStat))
    ensures var same := StartsFrom(c, p, now, atStat, atRead) - {key} == Now(atReplace).data - {key};
      && (Set(c, p, now, atStat, atRead, key, v) == Now(atReplace).data[key := v] <==> same)
      && (Unset(c, p, now, atStat, atRead, key) == Now(atReplace).data - {key} <==> same)
  {
    if !Hit(c, p, now) && c.path == Some(p) && c.mtime == Now(atStat).mtime {
      SameMtimeIsCurrent(c, atStat);
    }
    assert Looked(c, p, now, atStat, atRead).data == StartsFrom(c, p, now, atStat, atRead);
    SameOffKey(StartsFrom(c, p, now, atStat, atRead), Now(atReplace).data, key, v);
  }

  lemma SameOffKey(a: Data, b: Data, key: string, v: Value)
    ensures a[key := v] == b[key := v] <==> a - {key} == b - {key}
  {
    assert a - {key} == a[key := v] - {key} && b - {key} == b[key := v] - {key};
    assert a[key := v] == (a - {key})[key := v] && b[key := v] == (b - {key})[key := v];
  }

  /** With a fresh stat and nobody writing from the stat to the replace, nothing is lost. */
  lemma UndisturbedSetKeepsOthers(c: Cache, p: string, now: real, h: History, key: string, v: Value)
    requires Proper(h) && (c.path == Some(p) ==> TracksIn(c, h)) && !Hit(c, p, now)
    ensures Set(c, p, now, h, h, key, v) == Now(h).data[key := v]
    ensures Unset(c, p, now, h, h, key) == Now(h).data - {key}
  {
    SetKeepsOthersIff(c, p, now, h, h, h, key, v);
  }

  /** The write changes its own key in what the file holds when it is replaced, and nothing else. */
  predicate Merges(c: Cache, s: Step)
    requires Knows(s)
  {
    s.Write? ==>
      Written(c, s.p, s.now, s.atStat[s.p], s.atRead[s.p], s.key, s.change) ==
        var held := Now(s.atReplace[s.p]).data;
        if s.change.Some? then held[s.key := s.change.value] else held - {s.key}
  }

  ghost predicate AllMerge(c: Cache, steps: seq<Step>)
    decreases |steps|
  {
    steps == [] || (Knows(steps[0]) && Merges(c, steps[0]) && AllMerge(After(c, steps[0]), steps[1..]))
  }

  /** The write looks at the file, and no other process writes from then to its replace. */
  predicate Undisturbed(c: Cache, s: Step)
    requires Knows(s)
  {
    s.Write? ==> !Hit(c, s.p, s.now) && |s.atStat[s.p]| == |s.atReplace[s.p]|
  }

  ghost predicate AllUndisturbed(c: Cache, steps: seq<Step>)
    decreases |steps|
  {
    steps == [] || (Knows(steps[0]) && Undisturbed(c, steps[0]) && AllUndisturbed(After(c, steps[0]), steps[1..]))
  }

  lemma UndisturbedMerges(c: Cache, fs: Files, clock: real, s: Step)
    requires Tracks(c, fs, clock) && Knows(s) && Follows(c, fs, clock, s) && Undisturbed(c, s)
    ensures Merges(c, s)
  {
    if s.Write? {
      hide Proper, Looked, Left, After;
      var h := s.atStat[s.p];
      assert Grows(fs[s.p], h, clock) && Grows(h, s.atRead[s.p], s.now) && Grows(s.atRead[s.p], s.atReplace[s.p], s.now);
      assert h <= s.atRead[s.p] <= s.atReplace[s.p];
      assert h == s.atRead[s.p] == s.atReplace[s.p];
      assert Proper(s.atRead[s.p]);
      if c.path == Some(s.p) { TracksGrows(c, fs[s.p], h, clock); }
      var v := if s.change.Some? then s.change.value else "";
      UndisturbedSetKeepsOthers(c, s.p, s.now, h, s.key, v);
    }
  }

  /** Over every run whose writes are all undisturbed, every write merges into what the file
      holds: no update of another process is lost. */
  lemma {:induction false} NoUpdateIsLost(c: Cache, fs: Files, clock: real, steps: seq<Step>)
    requires Tracks(c, fs, clock) && Run(c, fs, clock, steps) && AllUndisturbed(c, steps)
    ensures AllMerge(c, steps)
    decreases |steps|
  {
    if steps != [] {
      var s := steps[0];
      UndisturbedMerges(c, fs, clock, s);
      hide Tracks, AllProper, Looked, HeldSince, Written, Merges, Undisturbed;
      CallIsFresh(c, s.p, s.now, fs, s.atStat, s.atRead, clock);
      InvalidTracks(Left(c, s), s.now);
      NoUpdateIsLost(After(c, s), Left(c, s), s.now, steps[1..]);
    }
  }

  predicate Has(d: Data, key: string, v: Value) {
    key in d && d[key] == v
  }

  /** The files once the run is done. */
  ghost function LeftAfter(c: Cache, fs: Files, steps: seq<Step>): Files
    decreases |steps|
  {
    if steps == [] || !Knows(steps[0]) then fs else LeftAfter(After(c, steps[0]), Left(c, steps[0]), steps[1..])
  }

  /** The versions that `b` adds to `a` have `v` under the key. */
  ghost predicate AllHave(a: History, b: History, key: string, v: Value) {
    forall i | |a| <= i < |b| :: Has(b[i].data, key, v)
  }

  /** The files when the step reads, or replaces its own. */
  function Seen(s: Step): Files {
    if s.Read? then s.atRead else s.atReplace
  }

  /** In this step nobody changes `key` of `p` to anything but `v`: not the versions other
      processes add, and not the step's own write. */
  ghost predicate LeavesKey(fs: Files, s: Step, p: string, key: string, v: Value) {
    && (s.Write? && s.p == p ==> s.key != key)
    && (p in fs && p in Seen(s) ==> AllHave(fs[p], Seen(s)[p], key, v))
  }

  ghost predicate AllLeaveKey(c: Cache, fs: Files, steps: seq<Step>, p: string, key: string, v: Value)
    decreases |steps|
  {
    steps == [] ||
    (Knows(steps[0]) && LeavesKey(fs, steps[0], p, key, v) && AllLeaveKey(After(c, steps[0]), Left(c, steps[0]), steps[1..], p, key, v))
  }

  lemma SeenGrows(c: Cache, fs: Files, clock: real, s: Step, p: string)
    requires Knows(s) && Follows(c, fs, clock, s) && p in fs
    ensures p in Seen(s) && fs[p] <= Seen(s)[p]
  {
    hide Left, AllProper;
    assert Grows(fs[p], s.atStat[p], clock) && Grows(s.atStat[p], s.atRead[p], s.now);
    if s.Write? { assert Grows(s.atRead[p], s.atReplace[p], s.now); }
  }

  lemma KeyIsKept(a: History, b: History, key: string, v: Value)
    requires a <= b && Has(Now(a).data, key, v) && AllHave(a, b, key, v)
    ensures Has(Now(b).data, key, v)
  {
    if |a| < |b| { assert Has(b[|b| - 1].data, key, v); }
  }

  lemma KeyStays(c: Cache, fs: Files, clock: real, s: Step, p: string, key: string, v: Value)
    requires Knows(s) && Follows(c, fs, clock, s) && Merges(c, s) && LeavesKey(fs, s, p, key, v)
    requires p in fs && Has(Now(fs[p]).data, key, v)
    ensures p in Left(c, s) && Has(Now(Left(c, s)[p]).data, key, v)
  {
    hide Written, Follows, AllHave, Has;
    SeenGrows(c, fs, clock, s, p);
    KeyIsKept(fs[p], Seen(s)[p], key, v);
    if s.Write? && s.p == p {
      OtherKeyIsKept(Now(s.atReplace[p]).data, s.key, s.change, key, v);
    }
  }

  lemma OtherKeyIsKept(d: Data, own: string, change: Option<Value>, key: string, v: Value)
    requires Has(d, key, v) && own != key
    ensures Has(if change.Some? then d[own := change.value] else d - {own}, key, v)
  {
  }

  /** So what another process wrote under a key stays in the file through the whole run, until
      somebody writes that key. */
  lemma {:induction false} UpdateStays(c: Cache, fs: Files, clock: real, steps: seq<Step>, p: string, key: string, v: Value)
    requires Run(c, fs, clock, steps) && AllMerge(c, steps) && AllLeaveKey(c, fs, steps, p, key, v)
    requires p in fs && Has(Now(fs[p]).data, key, v)
    ensures p in LeftAfter(c, fs, steps) && Has(Now(LeftAfter(c, fs, steps)[p]).data, key, v)
    decreases |steps|
  {
    if steps != [] {
      var s := steps[0];
      KeyStays(c, fs, clock, s, p, key, v);
      hide Follows, Merges, LeavesKey, Written;
      UpdateStays(After(c, s), Left(c, s), s.now, steps[1..], p, key, v);
    }
  }

  /** A set half a second after a read starts from the cache and drops the key another
      process wrote since. */
  lemma SetCanLoseAnUpdate()
    ensures var h0: History := [Version(0.0, Some(1), map[])];
      var h1: History := h0 + [Version(10.2, Some(2), map["b" := "2"])];
      var c := Looked(INVALID, "tuning.json", 10.0, h0, h0);
      && Proper(h1) && TracksIn(c, h1)
      && Set(c, "tuning.json", 10.5, h1, h1, "a", "1") == map["a" := "1"]
  {
    var h0: History := [Version(0.0, Some(1), map[])];
    var h1: History := h0 + [Version(10.2, Some(2), map["b" := "2"])];
    var c := Looked(INVALID, "tuning.json", 10.0, h0, h0);
    assert TracksAt(c, h1, 0, 0);
  }

  /** And so does a set with no cache at all, when the other process writes between its
      read and its replace. */
  lemma SetLosesAWriteBeforeTheReplace()
    ensures var h0: History := [Version(0.0, Some(1), map[])];
      var h1: History := h0 + [Version(10.2, Some(2), map["b" := "2"])];
      && Proper(h1) && Grows(h0, h1, 10.0) && !Hit(INVALID, "tuning.json", 10.0)
      && Now(h1).data == map["b" := "2"]
      && Set(INVALID, "tuning.json", 10.0, h0, h0, "a", "1") == map["a" := "1"]
      && Set(INVALID, "tuning.json", 10.0, h0, h0, "a", "1") != Now(h1).data["a" := "1"]
  {
    assert "b" !in Set(INVALID, "tuning.json", 10.0, [Version(0.0, Some(1), map[])], [Version(0.0, Some(1), map[])], "a", "1");
  }

  // ----- resolve

  datatype Knob = Knob(envVar: Option<string>, dflt: Value)

  /** resolve: in-process override, tuning.json, environment, default. `fromFile` and
      `fromEnv` are a knob's validation of a value, None when it is malformed or out of
      bounds. */
  function Resolve(k: Knob, key: string, overrides: Data, file: Data, env: Data,
      fromFile: Value -> Option<Value>, fromEnv: Value -> Option<Value>): Value {
    if key in overrides then overrides[key]
    else if k.envVar.None? then k.dflt
    else if key in file && fromFile(file[key]).Some? then fromFile(file[key]).value
    else if k.envVar.value in env && fromEnv(env[k.envVar.value]).Some? then env[k.envVar.value]
    else k.dflt
  }

  /** The sources in their order, each taken when it has a value that is valid: override, then
      for a knob of the environment the file and the environment, then the default. The file's
      value is the validated one, the environment's the text as it stands. */
  lemma ResolveOrder(k: Knob, key: string, overrides: Data, file: Data, env: Data,
      fromFile: Value -> Option<Value>, fromEnv: Value -> Option<Value>)
    ensures var r := Resolve(k, key, overrides, file, env, fromFile, fromEnv);
      var overridden := key in overrides;
      var filed := k.envVar.Some? && key in file && fromFile(file[key]).Some?;
      var set_ := k.envVar.Some? && k.envVar.value in env && fromEnv(env[k.envVar.value]).Some?;
      && (overridden ==> r == overrides[key])
      && (!overridden && filed ==> r == fromFile(file[key]).value)
      && (!overridden && !filed && set_ ==> r == env[k.envVar.value])
      && (!overridden && !filed && !set_ ==> r == k.dflt)
  {
  }

  /** An override answers for its key alone, and clearing it leaves no trace. */
  lemma OverrideIsUndone(k: Knob, key: string, v: Value, other: string, overrides: Data, file: Data, env: Data,
      fromFile: Value -> Option<Value>, fromEnv: Value -> Option<Value>)
    requires key !in overrides
    ensures Resolve(k, key, overrides[key := v], file, env, fromFile, fromEnv) == v
    ensures other != key ==>
      Resolve(k, other, overrides[key := v], file, env, fromFile, fromEnv) == Resolve(k, other, overrides, file, env, fromFile, fromEnv)
    ensures Resolve(k, other, overrides[key := v] - {key}, file, env, fromFile, fromEnv) ==
            Resolve(k, other, overrides, file, env, fromFile, fromEnv)
  {
    assert overrides[key := v] - {key} == overrides;
  }

  /** An accepted set shows at the next resolve, unless an override or a knob that is not
      read from the environment hides it, and unset takes it back to what the rest gives. */
  lemma SetThenResolve(c: Cache, p: string, now: real, later: real, atStat: History, atRead: History, atReplace: History,
      key: string, v: Value, born: real, mtime: int, k: Knob, overrides: Data, env: Data, fromFile: Value -> Option<Value>, fromEnv: Value -> Option<Value>)
    requires fromFile(v).Some? && k.envVar.Some? && key !in overrides
    ensures var h1: History := atReplace + [Version(born, Some(mtime), Set(c, p, now, atStat, atRead, key, v))];
      var read := Looked(INVALID, p, later, h1, h1).data;
      Resolve(k, key, overrides, read, env, fromFile, fromEnv) == fromFile(v).value
    ensures var h1: History := atReplace + [Version(born, Some(mtime), Unset(c, p, now, atStat, atRead, key))];
      var read := Looked(INVALID, p, later, h1, h1).data;
      Resolve(k, key, overrides, read, env, fromFile, fromEnv) == Resolve(k, key, overrides, map[], env, fromFile, fromEnv)
  {
  }
}
