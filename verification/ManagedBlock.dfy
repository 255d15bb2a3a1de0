/** The memsom-owned block inside CLAUDE.md (memsom/bridge/claude.py). */
module ManagedBlock {
  import opened Base

  const START := "<!-- memsom:managed:start -->"
  const END := "<!-- memsom:managed:end -->"
  const LEGACY_START := "<!-- memdag:managed:start -->"
  const LEGACY_END := "<!-- memdag:managed:end -->"

  /** The angle brackets of a marker stand only at its ends, and it is one line. */
  ghost predicate IsMarker(m: string) {
    && |m| >= 2 && m[0] == '<' && m[|m| - 1] == '>'
    && (forall k | 0 < k < |m| :: m[k] != '<')
    && (forall k | 0 <= k < |m| - 1 :: m[k] != '>')
    && (forall k | 0 <= k < |m| :: m[k] != '\n')
  }

  lemma StartIsMarker()
    ensures IsMarker(START) && |START| == 29
  {
  }

  lemma EndIsMarker()
    ensures IsMarker(END) && |END| == 27
  {
  }

  lemma LegacyStartIsMarker()
    ensures IsMarker(LEGACY_START) && |LEGACY_START| == 29
  {
  }

  lemma LegacyEndIsMarker()
    ensures IsMarker(LEGACY_END) && |LEGACY_END| == 27
  {
  }

  lemma MarkersAreMarkers()
    ensures IsMarker(START) && IsMarker(END) && IsMarker(LEGACY_START) && IsMarker(LEGACY_END)
    ensures START != END && LEGACY_START != LEGACY_END
    ensures |START| == 29 && |END| == 27 && |LEGACY_START| == 29 && |LEGACY_END| == 27
  {
    hide *;
    StartIsMarker();
    EndIsMarker();
    LegacyStartIsMarker();
    LegacyEndIsMarker();
  }

  lemma MarkersNonEmpty(m: string)
    requires IsMarker(m)
    ensures |m| > 0
  {
  }

  // ----- finding

  /** str.find from a position. */
  function Find(s: string, t: string, pos: nat): (i: int)
    ensures i == -1 ==> forall p | pos <= p :: !At(s, t, p)
    ensures i != -1 ==> pos <= i && At(s, t, i) && forall p | pos <= p < i :: !At(s, t, p)
    decreases |s| - pos
  {
    if pos + |t| > |s| then -1
    else if At(s, t, pos) then pos
    else Find(s, t, pos + 1)
  }

  lemma FirstClosing(s: string, m: string, p: int)
    requires IsMarker(m) && At(s, m, p)
    ensures s[p + |m| - 1] == '>' && forall x | p <= x < p + |m| - 1 :: s[x] != '>'
  {
    forall x | p <= x < p + |m| ensures s[x] == m[x - p] { assert s[x] == s[p..p + |m|][x - p]; }
  }

  /** Two markers never overlap, and different ones never start together. */
  lemma NoOverlap(s: string, m: string, n: string, p: int, q: int)
    requires IsMarker(m) && IsMarker(n) && At(s, m, p) && At(s, n, q) && p < q
    ensures p + |m| <= q
  {
    assert s[q] == s[q..q + |n|][0];
    forall x | p < x < p + |m| ensures s[x] != '<' { assert s[x] == s[p..p + |m|][x - p]; }
  }

  lemma NoSameStart(s: string, m: string, n: string, p: int)
    requires IsMarker(m) && IsMarker(n) && At(s, m, p) && At(s, n, p)
    ensures m == n
  {
    FirstClosing(s, m, p);
    FirstClosing(s, n, p);
  }

  /** A block by the positions of its two markers. */
  datatype Marks = Marks(first: nat, last: nat)

  /** Starts and ends strictly alternate from `pos` on, beginning with a start and
      finishing with an end, and `ms` are the pairs: every occurrence at or after
      `pos` belongs to one of them. */
  ghost predicate Alternates(s: string, start: string, end: string, pos: nat, ms: seq<Marks>) {
    && Paired(s, start, end, pos, ms)
    && (forall p | pos <= p && At(s, start, p) :: Starts(ms, p))
    && (forall p | pos <= p && At(s, end, p) :: Ends(ms, p))
  }

  ghost predicate Starts(ms: seq<Marks>, p: nat) {
    exists m :: m in ms && m.first == p
  }

  ghost predicate Ends(ms: seq<Marks>, p: nat) {
    exists m :: m in ms && m.last == p
  }

  lemma HeadOrRest(ms: seq<Marks>, p: nat)
    requires ms != []
    ensures Starts(ms, p) <==> ms[0].first == p || Starts(ms[1..], p)
    ensures Ends(ms, p) <==> ms[0].last == p || Ends(ms[1..], p)
  {
    assert forall m | m in ms :: m == ms[0] || m in ms[1..];
    assert ms[0] in ms && forall m | m in ms[1..] :: m in ms;
  }

  ghost predicate Paired(s: string, start: string, end: string, pos: nat, ms: seq<Marks>) {
    && (forall m | m in ms :: pos <= m.first < m.last && At(s, start, m.first) && At(s, end, m.last))
    && (forall k, l | 0 <= k < l < |ms| :: ms[k].last < ms[l].first)
  }

  /** The block marks from `pos` on, or None when the markers are malformed. */
  function BlocksFrom(s: string, start: string, end: string, pos: nat): Option<seq<Marks>>
    decreases |s| - pos
  {
    var i, j := Find(s, start, pos), Find(s, end, pos);
    if i == -1 && j == -1 then Some([])
    else if i == -1 || j == -1 || j < i then None
    else if j >= |s| || |end| == 0 || Find(s[..j], start, i + |start|) != -1 then None
    else
      var rest := BlocksFrom(s, start, end, j + |end|);
      if rest.None? then None else Some([Marks(i, j)] + rest.value)
  }

  lemma HeadIsFirst(s: string, start: string, end: string, pos: nat, ms: seq<Marks>, m: Marks)
    requires Paired(s, start, end, pos, ms) && m in ms
    ensures ms[0].first <= m.first && ms[0].last <= m.last
  {
    hide At;
    var k :| 0 <= k < |ms| && ms[k] == m;
    assert ms[0] in ms;
  }

  /** The first pair of an alternation is its first start and first end. */
  lemma FirstPair(s: string, start: string, end: string, pos: nat, ms: seq<Marks>)
    requires Alternates(s, start, end, pos, ms)
    ensures var i, j := Find(s, start, pos), Find(s, end, pos);
      && (ms == [] <==> i == -1 && j == -1)
      && (ms != [] ==> i != -1 && j != -1 && i < j && ms[0] == Marks(i, j))
  {
    hide *;
    if ms == [] {
      NoneOccurs(s, start, end, pos);
    } else {
      FirstStart(s, start, end, pos, ms);
      FirstEnd(s, start, end, pos, ms);
      HeadOfAlternation(s, start, end, pos, ms);
    }
  }

  lemma NoneOccurs(s: string, start: string, end: string, pos: nat)
    requires Alternates(s, start, end, pos, [])
    ensures Find(s, start, pos) == -1 && Find(s, end, pos) == -1
  {
    hide At, Find;
  }

  lemma HeadOfAlternation(s: string, start: string, end: string, pos: nat, ms: seq<Marks>)
    requires Alternates(s, start, end, pos, ms) && ms != []
    ensures pos <= ms[0].first < ms[0].last && At(s, start, ms[0].first) && At(s, end, ms[0].last)
  {
    hide At;
    assert ms[0] in ms;
  }

  lemma FirstStart(s: string, start: string, end: string, pos: nat, ms: seq<Marks>)
    requires Alternates(s, start, end, pos, ms) && ms != []
    ensures Find(s, start, pos) == ms[0].first
  {
    hide At, Find, Paired;
    HeadOfAlternation(s, start, end, pos, ms);
    var i := Find(s, start, pos);
    var m :| m in ms && m.first == i;
    HeadIsFirst(s, start, end, pos, ms, m);
  }

  lemma FirstEnd(s: string, start: string, end: string, pos: nat, ms: seq<Marks>)
    requires Alternates(s, start, end, pos, ms) && ms != []
    ensures Find(s, end, pos) == ms[0].last
  {
    hide At, Find, Paired;
    HeadOfAlternation(s, start, end, pos, ms);
    var j := Find(s, end, pos);
    var m :| m in ms && m.last == j;
    HeadIsFirst(s, start, end, pos, ms, m);
  }

  lemma AfterHead(s: string, start: string, end: string, pos: nat, ms: seq<Marks>, p: nat)
    requires IsMarker(start) && IsMarker(end)
    requires Alternates(s, start, end, pos, ms) && ms != [] && pos <= p
    ensures At(s, start, p) ==> p <= ms[0].first || (ms[0].last + |end| <= p && Starts(ms[1..], p))
    ensures At(s, end, p) ==> p <= ms[0].last || Ends(ms[1..], p)
  {
    hide At, IsMarker, Starts, Ends, Paired;
    RestPaired(s, start, end, pos, ms);
    HeadOrRest(ms, p);
    if Starts(ms[1..], p) { StartsPaired(s, start, end, ms[0].last + |end|, ms[1..], p); }
  }

  lemma StartsPaired(s: string, start: string, end: string, pos: nat, ms: seq<Marks>, p: nat)
    requires Paired(s, start, end, pos, ms) && Starts(ms, p)
    ensures pos <= p
  {
    hide At;
  }

  lemma RestPaired(s: string, start: string, end: string, pos: nat, ms: seq<Marks>)
    requires IsMarker(start) && IsMarker(end)
    requires Paired(s, start, end, pos, ms) && ms != []
    ensures Paired(s, start, end, ms[0].last + |end|, ms[1..])
  {
    hide At, IsMarker;
    forall m | m in ms[1..] ensures m in ms && ms[0].last + |end| <= m.first {
      var k :| 0 <= k < |ms[1..]| && ms[1..][k] == m;
      assert ms[k + 1] == m && ms[0] in ms;
      NoOverlap(s, end, start, ms[0].last, m.first);
    }
  }

  lemma RestAlternates(s: string, start: string, end: string, pos: nat, ms: seq<Marks>)
    requires IsMarker(start) && IsMarker(end)
    requires Alternates(s, start, end, pos, ms) && ms != []
    ensures Alternates(s, start, end, ms[0].last + |end|, ms[1..])
    ensures forall p | ms[0].first < p < ms[0].last :: !At(s, start, p)
  {
    RestPaired(s, start, end, pos, ms);
    MarkersNonEmpty(end);
    HeadIn(s, start, end, pos, ms);
    forall p | pos <= p
      ensures At(s, start, p) ==> p <= ms[0].first || (ms[0].last + |end| <= p && Starts(ms[1..], p))
      ensures At(s, end, p) ==> p <= ms[0].last || Ends(ms[1..], p)
    {
      AfterHead(s, start, end, pos, ms, p);
    }
    hide At, IsMarker, Paired, Starts, Ends;
  }

  lemma HeadIn(s: string, start: string, end: string, pos: nat, ms: seq<Marks>)
    requires Paired(s, start, end, pos, ms) && ms != []
    ensures pos <= ms[0].first < ms[0].last
  {
    hide At;
    assert ms[0] in ms;
  }

  lemma ConsPaired(s: string, start: string, end: string, pos: nat, i: nat, j: nat, rest: seq<Marks>)
    requires pos <= i < j && At(s, start, i) && At(s, end, j)
    requires Paired(s, start, end, j + |end|, rest) && |end| > 0
    ensures Paired(s, start, end, pos, [Marks(i, j)] + rest)
  {
    hide At;
    var ms := [Marks(i, j)] + rest;
    forall k, l | 0 <= k < l < |ms| ensures ms[k].last < ms[l].first {
      assert ms[l] == rest[l - 1] && rest[l - 1] in rest;
      if k > 0 { assert ms[k] == rest[k - 1]; }
    }
  }

  lemma ConsStart(s: string, start: string, end: string, pos: nat, i: nat, j: nat, rest: seq<Marks>, p: nat)
    requires IsMarker(start) && IsMarker(end) && start != end
    requires i == Find(s, start, pos) && j == Find(s, end, pos) && i < j
    requires forall p | i < p < j :: !At(s, start, p)
    requires Alternates(s, start, end, j + |end|, rest)
    requires pos <= p && At(s, start, p)
    ensures p == i || Starts(rest, p)
  {
    hide IsMarker, Paired, At, Find, Starts, Ends;
    if p == j { NoSameStart(s, start, end, p); }
    if p > j { NoOverlap(s, end, start, j, p); }
  }

  lemma ConsEnd(s: string, start: string, end: string, pos: nat, j: nat, rest: seq<Marks>, p: nat)
    requires IsMarker(end) && j == Find(s, end, pos)
    requires Alternates(s, start, end, j + |end|, rest)
    requires pos <= p && At(s, end, p)
    ensures p == j || Ends(rest, p)
  {
    hide IsMarker, Paired, At, Find, Starts, Ends;
    if p > j { NoOverlap(s, end, end, j, p); }
  }

  lemma ConsAlternates(s: string, start: string, end: string, pos: nat, i: nat, j: nat, rest: seq<Marks>)
    requires IsMarker(start) && IsMarker(end) && start != end
    requires i == Find(s, start, pos) && j == Find(s, end, pos) && i < j
    requires forall p | i < p < j :: !At(s, start, p)
    requires Alternates(s, start, end, j + |end|, rest)
    ensures Alternates(s, start, end, pos, [Marks(i, j)] + rest)
  {
    var ms := [Marks(i, j)] + rest;
    assert ms[1..] == rest;
    MarkersNonEmpty(end);
    ConsPaired(s, start, end, pos, i, j, rest);
    hide At, IsMarker, Paired, Find, Starts, Ends;
    forall p | pos <= p && At(s, start, p) ensures Starts(ms, p) {
      ConsStart(s, start, end, pos, i, j, rest, p);
      HeadOrRest(ms, p);
    }
    forall p | pos <= p && At(s, end, p) ensures Ends(ms, p) {
      ConsEnd(s, start, end, pos, j, rest, p);
      HeadOrRest(ms, p);
    }
  }

  lemma NoStartBetween(s: string, start: string, end: string, i: int, j: int)
    requires IsMarker(start) && IsMarker(end)
    requires At(s, start, i) && At(s, end, j) && i < j
    ensures Find(s[..j], start, i + |start|) == -1 <==> forall p | i < p < j :: !At(s, start, p)
  {
    hide IsMarker;
    forall p ensures i < p < j && At(s, start, p) <==> i + |start| <= p && At(s[..j], start, p) {
      if i < p < j && At(s, start, p) {
        NoOverlap(s, start, start, i, p);
        NoOverlap(s, start, end, p, j);
        assert s[..j][p..p + |start|] == s[p..p + |start|];
      }
      if i + |start| <= p && At(s[..j], start, p) {
        MarkersNonEmpty(start);
        assert s[..j][p..p + |start|] == s[p..p + |start|];
      }
    }
    hide At;
    var f := Find(s[..j], start, i + |start|);
    if f != -1 { assert At(s[..j], start, f); }
  }

  /** One round of the search, with the inner search read as what it decides. */
  lemma BlocksRound(s: string, start: string, end: string, pos: nat)
    requires IsMarker(start) && IsMarker(end) && start != end
    ensures var i, j := Find(s, start, pos), Find(s, end, pos);
      BlocksFrom(s, start, end, pos) ==
        if i == -1 && j == -1 then Some([])
        else if i == -1 || j == -1 || j < i || exists p :: i < p < j && At(s, start, p) then None
        else if BlocksFrom(s, start, end, j + |end|).None? then None
        else Some([Marks(i, j)] + BlocksFrom(s, start, end, j + |end|).value)
    ensures var i, j := Find(s, start, pos), Find(s, end, pos); i != -1 && j != -1 ==> i != j && j + |end| <= |s| && |end| > 0
  {
    var i, j := Find(s, start, pos), Find(s, end, pos);
    MarkersNonEmpty(end);
    hide At, IsMarker, Find;
    if i != -1 && j != -1 {
      EndInside(s, end, j);
      if i == j { NoSameStart(s, start, end, i); }
      if i < j { NoStartBetween(s, start, end, i, j); }
    }
  }

  /** _find_blocks answers with spans if and only if the markers strictly alternate,
      and then with exactly their pairs. */
  lemma {:induction false} BlocksIffAlternating(s: string, start: string, end: string, pos: nat)
    requires IsMarker(start) && IsMarker(end) && start != end
    ensures BlocksFrom(s, start, end, pos).Some? ==> Alternates(s, start, end, pos, BlocksFrom(s, start, end, pos).value)
    ensures BlocksFrom(s, start, end, pos).None? ==> forall ms :: !Alternates(s, start, end, pos, ms)
    decreases |s| - pos
  {
    hide *;
    BlocksRound(s, start, end, pos);
    var i, j := Find(s, start, pos), Find(s, end, pos);
    if i == -1 && j == -1 {
      NothingAlternates(s, start, end, pos);
    } else {
      if i != -1 && j != -1 { BlocksIffAlternating(s, start, end, j + |end|); }
      if BlocksFrom(s, start, end, pos).Some? {
        ConsAlternates(s, start, end, pos, i, j, BlocksFrom(s, start, end, j + |end|).value);
      }
      forall ms | Alternates(s, start, end, pos, ms) ensures BlocksFrom(s, start, end, pos).Some? {
        NoneHere(s, start, end, pos, ms);
        assert Alternates(s, start, end, j + |end|, ms[1..]);
      }
    }
  }

  /** There is one way to pair the markers. */
  lemma {:induction false} PairsAreUnique(s: string, start: string, end: string, pos: nat, a: seq<Marks>, b: seq<Marks>)
    requires IsMarker(start) && IsMarker(end)
    requires Alternates(s, start, end, pos, a) && Alternates(s, start, end, pos, b)
    ensures a == b
    decreases |a|
  {
    hide *;
    FirstPair(s, start, end, pos, a);
    FirstPair(s, start, end, pos, b);
    if a != [] {
      RestAlternates(s, start, end, pos, a);
      RestAlternates(s, start, end, pos, b);
      PairsAreUnique(s, start, end, a[0].last + |end|, a[1..], b[1..]);
      DropHead(a, 0);
      DropHead(b, 0);
    }
  }

  /** So an alternation is what the search answers. */
  lemma BlocksAre(s: string, start: string, end: string, ms: seq<Marks>)
    requires IsMarker(start) && IsMarker(end) && start != end && Alternates(s, start, end, 0, ms)
    ensures BlocksFrom(s, start, end, 0) == Some(ms)
  {
    hide *;
    BlocksIffAlternating(s, start, end, 0);
    if BlocksFrom(s, start, end, 0).Some? { PairsAreUnique(s, start, end, 0, ms, BlocksFrom(s, start, end, 0).value); }
  }

  lemma TwoPairs(s: string, start: string, end: string, m: Marks, n: Marks)
    requires m.first < m.last < n.first < n.last
    requires forall p :: At(s, start, p) <==> p == m.first || p == n.first
    requires forall p :: At(s, end, p) <==> p == m.last || p == n.last
    ensures Alternates(s, start, end, 0, [m, n])
  {
    hide At;
    assert m in [m, n] && n in [m, n];
  }

  lemma NothingAlternates(s: string, start: string, end: string, pos: nat)
    requires Find(s, start, pos) == -1 && Find(s, end, pos) == -1
    ensures Alternates(s, start, end, pos, [])
  {
    hide At;
  }

  /** An alternation starts with the first start and the first end, in that order and
      with no start between them, and continues as one. */
  lemma NoneHere(s: string, start: string, end: string, pos: nat, ms: seq<Marks>)
    requires IsMarker(start) && IsMarker(end)
    requires Find(s, start, pos) != -1 || Find(s, end, pos) != -1
    ensures Alternates(s, start, end, pos, ms) ==>
      var i, j := Find(s, start, pos), Find(s, end, pos);
      && ms != [] && i != -1 && j != -1 && i < j && (forall p | i < p < j :: !At(s, start, p))
      && Alternates(s, start, end, j + |end|, ms[1..])
  {
    hide *;
    if Alternates(s, start, end, pos, ms) {
      FirstPair(s, start, end, pos, ms);
      RestAlternates(s, start, end, pos, ms);
    }
  }

  lemma EndInside(s: string, m: string, p: int)
    requires At(s, m, p) && |m| > 0
    ensures 0 <= p < |s| && p + |m| <= |s|
  {
  }

  /** The spans of the source: from the start marker to past the end marker. */
  function Spans(ms: seq<Marks>, width: nat): (r: seq<(nat, nat)>)
    ensures |r| == |ms| && forall k | 0 <= k < |ms| :: r[k] == (ms[k].first, ms[k].last + width)
  {
    seq(|ms|, k requires 0 <= k < |ms| => (ms[k].first, ms[k].last + width))
  }

  /** The spans are ordered and disjoint. */
  lemma SpansAreDisjoint(s: string, start: string, end: string, pos: nat, ms: seq<Marks>)
    requires IsMarker(start) && IsMarker(end) && Alternates(s, start, end, pos, ms)
    ensures forall k | 0 <= k < |ms| :: Spans(ms, |end|)[k].0 < Spans(ms, |end|)[k].1 <= |s|
    ensures forall k, l | 0 <= k < l < |ms| :: Spans(ms, |end|)[k].1 <= Spans(ms, |end|)[l].0
  {
    hide At, IsMarker;
    MarkersNonEmpty(end);
    forall k | 0 <= k < |ms| ensures ms[k].last + |end| <= |s| {
      assert ms[k] in ms;
      EndInside(s, end, ms[k].last);
    }
    forall k, l | 0 <= k < l < |ms| ensures ms[k].last + |end| <= ms[l].first {
      assert ms[k] in ms && ms[l] in ms;
      NoOverlap(s, end, start, ms[k].last, ms[l].first);
    }
  }

  /** What the loop keeps: the spans so far, followed by the blocks from `pos` on. */
  ghost predicate Scanned(s: string, start: string, end: string, pos: nat, done: seq<Marks>) {
    var all, rest := BlocksFrom(s, start, end, 0), BlocksFrom(s, start, end, pos);
    if rest.None? then all.None? else all == Some(done + rest.value)
  }

  lemma ScannedStart(s: string, start: string, end: string)
    ensures Scanned(s, start, end, 0, [])
  {
    hide BlocksFrom;
    var all := BlocksFrom(s, start, end, 0);
    assert all.Some? ==> [] + all.value == all.value;
  }

  lemma ScannedStep(s: string, start: string, end: string, pos: nat, done: seq<Marks>, i: nat, j: nat)
    requires i == Find(s, start, pos) && j == Find(s, end, pos) && i <= j < |s| && |end| > 0
    requires Find(s[..j], start, i + |start|) == -1
    requires Scanned(s, start, end, pos, done)
    ensures Scanned(s, start, end, j + |end|, done + [Marks(i, j)])
  {
    hide Find;
    var rest := BlocksFrom(s, start, end, j + |end|);
    assert rest.Some? ==> done + ([Marks(i, j)] + rest.value) == (done + [Marks(i, j)]) + rest.value;
  }

  lemma ScannedEnd(s: string, start: string, end: string, pos: nat, done: seq<Marks>)
    requires Scanned(s, start, end, pos, done)
    ensures Find(s, start, pos) == -1 && Find(s, end, pos) == -1 ==> BlocksFrom(s, start, end, 0) == Some(done)
    ensures var i, j := Find(s, start, pos), Find(s, end, pos);
      !(i == -1 && j == -1) && (i == -1 || j == -1 || j < i || (j <= |s| && Find(s[..j], start, i + |start|) != -1)) ==>
        BlocksFrom(s, start, end, 0).None?
  {
    hide Find;
    assert done + [] == done;
  }

  /** _find_blocks. */
  method FindBlocks(s: string, start: string, end: string) returns (r: Option<seq<(nat, nat)>>)
    requires IsMarker(start) && IsMarker(end)
    ensures var ms := BlocksFrom(s, start, end, 0);
      r == if ms.None? then None else Some(Spans(ms.value, |end|))
  {
    hide *;
    MarkersNonEmpty(end);
    ScannedStart(s, start, end);
    var spans: seq<(nat, nat)> := [];
    ghost var done: seq<Marks> := [];
    var pos := 0;
    while true
      invariant spans == Spans(done, |end|) && pos <= |s|
      invariant Scanned(s, start, end, pos, done)
      decreases |s| - pos
    {
      ScannedEnd(s, start, end, pos, done);
      var i, j := Find(s, start, pos), Find(s, end, pos);
      if i == -1 && j == -1 {
        break;
      }
      if i == -1 || j == -1 || j < i {
        return None;
      }
      EndInside(s, end, j);
      if Find(s[..j], start, i + |start|) != -1 {
        return None;
      }
      ScannedStep(s, start, end, pos, done, i, j);
      spans, done := spans + [(i, j + |end|)], done + [Marks(i, j)];
      pos := j + |end|;
    }
    r := Some(spans);
  }
}
