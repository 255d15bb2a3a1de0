/** Inserting and refreshing the managed block (memsom/bridge/claude.py). */
module Upsert {
  import opened Base
  import opened ManagedBlock

  datatype Action = Noop | Replace | Append | Malformed

  function RStripNewlines(s: string): (r: string)
    ensures |r| <= |s| && r == s[..|r|]
    ensures r == "" || r[|r| - 1] != '\n'
    ensures forall k | |r| <= k < |s| :: s[k] == '\n'
  {
    if s == "" || s[|s| - 1] != '\n' then s else RStripNewlines(s[..|s| - 1])
  }

  /** Spans lie in the text, in order, without overlap. */
  predicate Ordered(s: string, ms: seq<Marks>, width: nat) {
    && (forall k | 0 <= k < |ms| :: ms[k].first < ms[k].last && ms[k].last + width <= |s|)
    && (forall k, l | 0 <= k < l < |ms| :: ms[k].last + width <= ms[l].first)
  }

  /** The text behind the first block, with the later blocks stripped. */
  function AfterBlocks(s: string, ms: seq<Marks>, width: nat): string
    requires ms != [] && Ordered(s, ms, width)
  {
    var past := ms[0].last + width;
    if |ms| == 1 then s[past..]
    else
      assert forall k, l | 0 <= k < l < |ms[1..]| :: ms[1..][k] == ms[k + 1] && ms[1..][l] == ms[l + 1];
      s[past..ms[1].first] + AfterBlocks(s, ms[1..], width)
  }

  lemma BlocksAreOrdered(s: string, start: string, end: string)
    requires IsMarker(start) && IsMarker(end) && start != end
    ensures BlocksFrom(s, start, end, 0).Some? ==> Ordered(s, BlocksFrom(s, start, end, 0).value, |end|)
  {
    BlocksIffAlternating(s, start, end, 0);
    var r := BlocksFrom(s, start, end, 0);
    if r.Some? {
      SpansAreDisjoint(s, start, end, 0, r.value);
      PairsInOrder(s, start, end, r.value);
      OrderedFromSpans(s, r.value, |end|);
    }
  }

  lemma PairsInOrder(s: string, start: string, end: string, ms: seq<Marks>)
    requires Alternates(s, start, end, 0, ms)
    ensures forall k | 0 <= k < |ms| :: ms[k].first < ms[k].last
  {
    forall k | 0 <= k < |ms| ensures ms[k].first < ms[k].last { assert ms[k] in ms; }
  }

  lemma OrderedFromSpans(s: string, ms: seq<Marks>, width: nat)
    requires forall k | 0 <= k < |ms| :: ms[k].first < ms[k].last && Spans(ms, width)[k].1 <= |s|
    requires forall k, l | 0 <= k < l < |ms| :: Spans(ms, width)[k].1 <= Spans(ms, width)[l].0
    ensures Ordered(s, ms, width)
  {
    forall k, l | 0 <= k < l < |ms| ensures ms[k].last + width <= ms[l].first {
      assert Spans(ms, width)[k].1 <= Spans(ms, width)[l].0;
    }
  }

  /** What refreshing the blocks of one marker pair makes of a text. */
  ghost function Refreshed(text: string, block: string, start: string, end: string): (string, Action)
    requires IsMarker(start) && IsMarker(end) && start != end
  {
    BlocksAreOrdered(text, start, end);
    var r := BlocksFrom(text, start, end, 0);
    if r.None? || r.value == [] then (text, Malformed)
    else
      var ms := r.value;
      var out := text[..ms[0].first] + block + AfterBlocks(text, ms, |end|);
      (out, if out == text then Noop else Replace)
  }

  predicate Mentions(text: string, start: string, end: string) {
    Contains(text, start) || Contains(text, end)
  }

  function Appended(text: string, block: string): string {
    var base := RStripNewlines(text);
    base + (if base == "" then "" else "\n\n") + block + "\n"
  }

  /** upsert: current markers first, then the legacy ones, then append. */
  ghost function Upserted(text: string, block: string): (string, Action) {
    MarkersAreMarkers();
    if Mentions(text, START, END) then Refreshed(text, block, START, END)
    else if Mentions(text, LEGACY_START, LEGACY_END) then Refreshed(text, block, LEGACY_START, LEGACY_END)
    else (Appended(text, block), Append)
  }

  lemma RefreshedByMarks(text: string, block: string, start: string, end: string)
    requires IsMarker(start) && IsMarker(end) && start != end
    ensures var r := BlocksFrom(text, start, end, 0);
      if r.None? || r.value == [] then Refreshed(text, block, start, end) == (text, Malformed)
      else
        && Ordered(text, r.value, |end|)
        && var out := text[..r.value[0].first] + block + AfterBlocks(text, r.value, |end|);
          Refreshed(text, block, start, end) == (out, if out == text then Noop else Replace)
  {
    BlocksAreOrdered(text, start, end);
  }

  method Refresh(text: string, block: string, start: string, end: string) returns (out: string, action: Action)
    requires IsMarker(start) && IsMarker(end) && start != end
    ensures (out, action) == Refreshed(text, block, start, end)
  {
    hide *;
    RefreshedByMarks(text, block, start, end);
    var spans := FindBlocks(text, start, end);
    if spans.None? || spans.value == [] {
      return text, Malformed;
    }
    ghost var ms := BlocksFrom(text, start, end, 0).value;
    var sp := spans.value;
    OrderedSpans(text, ms, |end|);
    ghost var head, mid := text[..ms[0].first] + block, "";
    out := text[..sp[0].0] + block;
    var prev := sp[0].1;
    TailStart(text, ms, |end|);
    for i := 1 to |sp|
      invariant prev == ms[i - 1].last + |end| && out == head + mid
      invariant TailFrom(text, ms, |end|, i, mid)
    {
      TailStep(text, ms, |end|, i, mid);
      ghost var gap := text[prev..sp[i].0];
      Assoc(head, mid, gap);
      out := out + text[prev..sp[i].0];
      mid := mid + gap;
      prev := sp[i].1;
    }
    TailDone(text, ms, |end|, mid);
    Assoc(head, mid, text[prev..]);
    out := out + text[prev..];
    action := if out == text then Noop else Replace;
  }

  lemma OrderedSpans(s: string, ms: seq<Marks>, width: nat)
    requires Ordered(s, ms, width)
    ensures forall k | 0 <= k < |ms| :: ms[k].first <= ms[k].last + width <= |s|
    ensures forall k | 0 < k < |ms| :: ms[k - 1].last + width <= ms[k].first
  {
  }

  /** `sofar` is the stripped text between the first `i` blocks. */
  ghost predicate TailFrom(s: string, ms: seq<Marks>, width: nat, i: nat, sofar: string) {
    && 0 < i <= |ms| && Ordered(s, ms, width) && Ordered(s, ms[i - 1..], width)
    && sofar + AfterBlocks(s, ms[i - 1..], width) == AfterBlocks(s, ms, width)
  }

  lemma OrderedDrop(s: string, ms: seq<Marks>, width: nat, i: nat)
    requires Ordered(s, ms, width) && i <= |ms|
    ensures Ordered(s, ms[i..], width)
  {
    forall k, l | 0 <= k < l < |ms[i..]| ensures ms[i..][k].last + width <= ms[i..][l].first {
      assert ms[i..][k] == ms[k + i] && ms[i..][l] == ms[l + i];
    }
  }

  lemma TailStart(s: string, ms: seq<Marks>, width: nat)
    requires ms != [] && Ordered(s, ms, width)
    ensures TailFrom(s, ms, width, 1, "")
  {
    assert ms[0..] == ms;
  }

  lemma TailStep(s: string, ms: seq<Marks>, width: nat, i: nat, sofar: string)
    requires TailFrom(s, ms, width, i, sofar) && i < |ms|
    ensures TailFrom(s, ms, width, i + 1, sofar + s[ms[i - 1].last + width..ms[i].first])
  {
    hide *;
    TailHas(s, ms, width, i, sofar);
    AfterStep(s, ms, width, i - 1);
    Assoc(sofar, s[ms[i - 1].last + width..ms[i].first], AfterBlocks(s, ms[i..], width));
    TailMakes(s, ms, width, i + 1, sofar + s[ms[i - 1].last + width..ms[i].first]);
  }

  lemma TailHas(s: string, ms: seq<Marks>, width: nat, i: nat, sofar: string)
    requires TailFrom(s, ms, width, i, sofar)
    ensures 0 < i <= |ms| && Ordered(s, ms, width) && Ordered(s, ms[i - 1..], width)
    ensures sofar + AfterBlocks(s, ms[i - 1..], width) == AfterBlocks(s, ms, width)
  {
    hide AfterBlocks, Ordered;
  }

  lemma TailMakes(s: string, ms: seq<Marks>, width: nat, i: nat, sofar: string)
    requires 0 < i <= |ms| && Ordered(s, ms, width) && Ordered(s, ms[i - 1..], width)
    requires sofar + AfterBlocks(s, ms[i - 1..], width) == AfterBlocks(s, ms, width)
    ensures TailFrom(s, ms, width, i, sofar)
  {
    hide AfterBlocks, Ordered;
  }

  lemma TailDone(s: string, ms: seq<Marks>, width: nat, sofar: string)
    requires TailFrom(s, ms, width, |ms|, sofar)
    ensures ms != [] && ms[|ms| - 1].last + width <= |s|
    ensures sofar + s[ms[|ms| - 1].last + width..] == AfterBlocks(s, ms, width)
  {
    hide *;
    TailHas(s, ms, width, |ms|, sofar);
    AfterStep(s, ms, width, |ms| - 1);
  }

  /** AfterBlocks from the k-th block on. */
  lemma AfterStep(s: string, ms: seq<Marks>, width: nat, k: nat)
    requires Ordered(s, ms, width) && k < |ms| && Ordered(s, ms[k..], width)
    ensures ms[k].last + width <= |s| && Ordered(s, ms[k + 1..], width)
    ensures k + 1 < |ms| ==> ms[k].last + width <= ms[k + 1].first <= |s|
    ensures AfterBlocks(s, ms[k..], width) ==
      if k + 1 == |ms| then s[ms[k].last + width..]
      else s[ms[k].last + width..ms[k + 1].first] + AfterBlocks(s, ms[k + 1..], width)
  {
    DropHead(ms, k);
    OrderedDrop(s, ms, width, k + 1);
  }

  /** upsert. */
  method UpsertBlock(text: string, block: string) returns (out: string, action: Action)
    ensures (out, action) == Upserted(text, block)
  {
    MarkersAreMarkers();
    hide IsMarker, Refreshed, Mentions;
    if Mentions(text, START, END) {
      out, action := Refresh(text, block, START, END);
    } else if Mentions(text, LEGACY_START, LEGACY_END) {
      out, action := Refresh(text, block, LEGACY_START, LEGACY_END);
    } else {
      var base := RStripNewlines(text);
      var sep := if base == "" then "" else "\n\n";
      out, action := base + sep + block + "\n", Append;
    }
  }

  // ----- the text outside the blocks

  ghost predicate Inside(ms: seq<Marks>, width: nat, p: nat) {
    exists m :: m in ms && m.first <= p < m.last + width
  }

  /** The characters of s[lo..hi] that lie in no block. */
  ghost function Outside(s: string, ms: seq<Marks>, width: nat, lo: nat, hi: nat): string
    requires lo <= hi <= |s|
  {
    if lo == hi then ""
    else Outside(s, ms, width, lo, hi - 1) + if Inside(ms, width, hi - 1) then "" else [s[hi - 1]]
  }

  lemma {:induction false} OutsideSplit(s: string, ms: seq<Marks>, width: nat, lo: nat, mid: nat, hi: nat)
    requires lo <= mid <= hi <= |s|
    ensures Outside(s, ms, width, lo, hi) == Outside(s, ms, width, lo, mid) + Outside(s, ms, width, mid, hi)
    decreases hi
  {
    hide Inside;
    if hi == mid {
      assert Outside(s, ms, width, mid, hi) == "";
    } else {
      OutsideSplit(s, ms, width, lo, mid, hi - 1);
    }
  }

  lemma {:induction false} OutsideAll(s: string, ms: seq<Marks>, width: nat, lo: nat, hi: nat)
    requires lo <= hi <= |s| && forall p | lo <= p < hi :: !Inside(ms, width, p)
    ensures Outside(s, ms, width, lo, hi) == s[lo..hi]
    decreases hi
  {
    hide Inside;
    if lo < hi {
      OutsideAll(s, ms, width, lo, hi - 1);
      assert s[lo..hi] == s[lo..hi - 1] + [s[hi - 1]];
    }
  }

  lemma {:induction false} OutsideNone(s: string, ms: seq<Marks>, width: nat, lo: nat, hi: nat)
    requires lo <= hi <= |s| && forall p | lo <= p < hi :: Inside(ms, width, p)
    ensures Outside(s, ms, width, lo, hi) == ""
    decreases hi
  {
    hide Inside;
    if lo < hi { OutsideNone(s, ms, width, lo, hi - 1); }
  }

  lemma {:induction false} OutsideTail(s: string, ms: seq<Marks>, width: nat, k: nat)
    requires Ordered(s, ms, width) && k < |ms| && Ordered(s, ms[k..], width)
    ensures Outside(s, ms, width, ms[k].first, |s|) == AfterBlocks(s, ms[k..], width)
    decreases |ms| - k
  {
    hide *;
    var past := ms[k].last + width;
    var next := if k + 1 < |ms| then ms[k + 1].first else |s|;
    AfterStep(s, ms, width, k);
    BlockThenGap(s, ms, width, k);
    OutsideNone(s, ms, width, ms[k].first, past);
    OutsideAll(s, ms, width, past, next);
    OutsideSplit(s, ms, width, ms[k].first, past, next);
    OutsideSplit(s, ms, width, ms[k].first, next, |s|);
    assert "" + s[past..next] == s[past..next];
    if k + 1 < |ms| {
      OutsideTail(s, ms, width, k + 1);
    } else {
      OutsideNone(s, ms, width, |s|, |s|);
      assert s[past..next] == s[past..] && s[past..] + "" == s[past..];
    }
  }

  lemma BlockThenGap(s: string, ms: seq<Marks>, width: nat, k: nat)
    requires Ordered(s, ms, width) && k < |ms|
    ensures var past := ms[k].last + width;
      var next := if k + 1 < |ms| then ms[k + 1].first else |s|;
      && ms[k].first <= past <= next <= |s|
      && (forall p | ms[k].first <= p < past :: Inside(ms, width, p))
      && (forall p | past <= p < next :: !Inside(ms, width, p))
  {
    var past := ms[k].last + width;
    var next := if k + 1 < |ms| then ms[k + 1].first else |s|;
    forall p | ms[k].first <= p < past ensures Inside(ms, width, p) { assert ms[k] in ms; }
    forall p | past <= p < next ensures !Inside(ms, width, p) { BetweenBlocks(s, ms, width, k, p); }
  }

  lemma BetweenBlocks(s: string, ms: seq<Marks>, width: nat, k: nat, p: nat)
    requires Ordered(s, ms, width) && k < |ms|
    requires ms[k].last + width <= p && (k + 1 < |ms| ==> p < ms[k + 1].first)
    ensures !Inside(ms, width, p)
  {
    forall m | m in ms ensures !(m.first <= p < m.last + width) {
      var l :| 0 <= l < |ms| && ms[l] == m;
    }
  }

  /** Refreshing keeps all text outside the blocks, in order: the block goes where the
      first one stood, and cutting it out again gives the old text without its blocks.
      A malformed text is returned untouched. */
  lemma RefreshKeepsOutsideText(text: string, block: string, start: string, end: string)
    requires IsMarker(start) && IsMarker(end) && start != end
    ensures var (out, action) := Refreshed(text, block, start, end);
      var r := BlocksFrom(text, start, end, 0);
      && (action == Malformed <==> r.None? || r.value == [])
      && (action == Malformed ==> out == text)
      && (action != Malformed ==>
        var at := r.value[0].first;
        && at + |block| <= |out| && out[at..at + |block|] == block
        && out[..at] + out[at + |block|..] == Outside(text, r.value, |end|, 0, |text|))
  {
    RefreshedByMarks(text, block, start, end);
    var r := BlocksFrom(text, start, end, 0);
    hide BlocksFrom, Refreshed, IsMarker;
    if r.Some? && r.value != [] {
      var ms := r.value;
      var tail := AfterBlocks(text, ms, |end|);
      var at := ms[0].first;
      var out := text[..at] + block + tail;
      assert out[..at] == text[..at] && out[at + |block|..] == tail && out[at..at + |block|] == block;
      forall p | 0 <= p < at ensures !Inside(ms, |end|, p) { BeforeBlocks(text, ms, |end|, p); }
      OutsideAll(text, ms, |end|, 0, at);
      assert text[0..at] == text[..at];
      OutsideSplit(text, ms, |end|, 0, at, |text|);
      assert ms[0..] == ms;
      OutsideTail(text, ms, |end|, 0);
    }
  }

  lemma BeforeBlocks(s: string, ms: seq<Marks>, width: nat, p: nat)
    requires Ordered(s, ms, width) && ms != [] && p < ms[0].first
    ensures !Inside(ms, width, p)
  {
    forall m | m in ms ensures !(m.first <= p < m.last + width) {
      var l :| 0 <= l < |ms| && ms[l] == m;
    }
  }

  // ----- a second upsert

  /** No current marker occurs in the text. */
  ghost predicate Free(s: string) {
    (forall p :: !At(s, START, p)) && (forall p :: !At(s, END, p))
  }

  /** A block that starts with the start marker, finishes with the end marker and has
      no other occurrence of either. */
  ghost predicate CleanBlock(block: string) {
    && |block| >= 56
    && (forall p :: At(block, START, p) <==> p == 0)
    && (forall p :: At(block, END, p) <==> p == |block| - 27)
  }

  lemma Within(a: string, x: string, b: string, m: string, p: int)
    ensures 0 <= p && p + |m| <= |a| ==> (At(a + x + b, m, p) <==> At(a, m, p))
    ensures |a| <= p && p + |m| <= |a| + |x| ==> (At(a + x + b, m, p) <==> At(x, m, p - |a|))
    ensures |a| + |x| <= p && p + |m| <= |a| + |x| + |b| ==> (At(a + x + b, m, p) <==> At(b, m, p - |a| - |x|))
  {
    var s := a + x + b;
    if 0 <= p && p + |m| <= |a| { assert s[p..p + |m|] == a[p..p + |m|]; }
    if |a| <= p && p + |m| <= |a| + |x| { assert s[p..p + |m|] == x[p - |a|..p - |a| + |m|]; }
    if |a| + |x| <= p && p + |m| <= |s| { assert s[p..p + |m|] == b[p - |a| - |x|..p - |a| - |x| + |m|]; }
  }

  lemma AtBounds(s: string, m: string, p: int)
    ensures At(s, m, p) ==> 0 <= p && p + |m| <= |s|
  {
  }

  /** Around a clean block no marker can straddle a seam: every occurrence in the
      whole lies in one of the three parts. */
  lemma Sandwich(a: string, block: string, b: string, m: string, p: int)
    requires CleanBlock(block) && Free(a) && (m == START || m == END)
    ensures At(a + block + b, m, p) <==>
      p == (if m == START then |a| else |a| + |block| - 27) || At(b, m, p - |a| - |block|)
  {
    MarkersAreMarkers();
    var s := a + block + b;
    var e := |a| + |block| - 27;
    Within(a, block, b, START, |a|);
    Within(a, block, b, END, e);
    Within(a, block, b, m, p);
    AtBounds(s, m, p);
    AtBounds(b, m, p - |a| - |block|);
    assert At(block, START, 0) && At(block, END, |block| - 27);
    hide At, IsMarker;
    if At(s, m, p) {
      if p < |a| { NoOverlap(s, m, START, p, |a|); }
      if p < e { NoOverlap(s, m, END, p, e); }
      if e < p { NoOverlap(s, END, m, e, p); }
      if p == e { NoSameStart(s, m, END, p); }
    }
  }

  lemma FindIs(s: string, m: string, pos: nat, at: nat)
    requires At(s, m, at) && pos <= at && forall p | pos <= p < at :: !At(s, m, p)
    ensures Find(s, m, pos) == at
  {
    hide At;
  }

  /** The search over such a text finds the block first, and goes on behind it. */
  lemma FirstBlockFound(a: string, block: string, b: string)
    requires CleanBlock(block) && Free(a)
    ensures var s := a + block + b;
      var rest := BlocksFrom(s, START, END, |a| + |block|);
      && Mentions(s, START, END)
      && BlocksFrom(s, START, END, 0) ==
        (if rest.None? then None else Some([Marks(|a|, |a| + |block| - 27)] + rest.value))
      && (rest == Some([]) <==> Free(b))
  {
    var s := a + block + b;
    var e := |a| + |block| - 27;
    MarkersAreMarkers();
    hide *;
    LongEnough(block);
    FirstMarks(a, block, b);
    RestMarks(a, block, b);
    BlocksRound(s, START, END, 0);
    BlocksRound(s, START, END, |a| + |block|);
    MentionsStart(s, |a|);
  }

  lemma FirstMarks(a: string, block: string, b: string)
    requires CleanBlock(block) && Free(a)
    ensures var s, pos := a + block + b, |a| + |block|;
      && At(s, START, |a|) && Find(s, START, 0) == |a| && Find(s, END, 0) == pos - 27
      && (forall p | |a| < p < pos - 27 :: !At(s, START, p))
  {
    var s, pos := a + block + b, |a| + |block|;
    hide *;
    LongEnough(block);
    Occurrences(a, block, b);
    FindIs(s, START, 0, |a|);
    FindIs(s, END, 0, pos - 27);
  }

  lemma RestMarks(a: string, block: string, b: string)
    requires CleanBlock(block) && Free(a)
    ensures var s, pos := a + block + b, |a| + |block|;
      Free(b) <==> Find(s, START, pos) == -1 && Find(s, END, pos) == -1
  {
    hide *;
    Occurrences(a, block, b);
    RestFree(a + block + b, |a| + |block|, b);
  }

  lemma LongEnough(block: string)
    requires CleanBlock(block)
    ensures |block| >= 56
  {
  }

  lemma MentionsStart(s: string, p: nat)
    requires At(s, START, p)
    ensures Mentions(s, START, END)
  {
    AtBounds(s, START, p);
    hide At;
  }

  lemma Occurrences(a: string, block: string, b: string)
    requires CleanBlock(block) && Free(a)
    ensures var s, pos := a + block + b, |a| + |block|;
      && At(s, START, |a|) && At(s, END, pos - 27)
      && (forall p | 0 <= p < pos :: (At(s, START, p) <==> p == |a|) && (At(s, END, p) <==> p == pos - 27))
      && (forall p | pos <= p :: (At(s, START, p) <==> At(b, START, p - pos)) && (At(s, END, p) <==> At(b, END, p - pos)))
      && (forall p | p < 0 :: !At(b, START, p) && !At(b, END, p))
  {
    MarkersAreMarkers();
    var s, pos := a + block + b, |a| + |block|;
    hide CleanBlock, Free, IsMarker, At;
    LongEnough(block);
    forall p
      ensures At(s, START, p) <==> p == |a| || At(b, START, p - pos)
      ensures At(s, END, p) <==> p == pos - 27 || At(b, END, p - pos)
    {
      Sandwich(a, block, b, START, p);
      Sandwich(a, block, b, END, p);
    }
    forall p ensures At(b, START, p) ==> 0 <= p ensures At(b, END, p) ==> 0 <= p {
      AtBounds(b, START, p);
      AtBounds(b, END, p);
    }
  }

  lemma RestFree(s: string, pos: nat, b: string)
    requires forall p | pos <= p :: (At(s, START, p) <==> At(b, START, p - pos)) && (At(s, END, p) <==> At(b, END, p - pos))
    requires forall p | p < 0 :: !At(b, START, p) && !At(b, END, p)
    ensures Free(b) <==> Find(s, START, pos) == -1 && Find(s, END, pos) == -1
  {
    hide At;
    var i, j := Find(s, START, pos), Find(s, END, pos);
    if i != -1 { assert At(b, START, i - pos); }
    if j != -1 { assert At(b, END, j - pos); }
    if i == -1 {
      forall p ensures !At(b, START, p) { if p >= 0 { assert !At(s, START, p + pos); } }
    }
    if j == -1 {
      forall p ensures !At(b, END, p) { if p >= 0 { assert !At(s, END, p + pos); } }
    }
  }

  lemma {:induction false} StrippedIsShorter(s: string, ms: seq<Marks>, width: nat)
    requires ms != [] && Ordered(s, ms, width)
    ensures |AfterBlocks(s, ms, width)| <= |s| - ms[0].last - width
    ensures |ms| > 1 ==> |AfterBlocks(s, ms, width)| < |s| - ms[0].last - width
    decreases |ms|
  {
    if |ms| > 1 {
      OrderedDrop(s, ms, width, 1);
      StrippedIsShorter(s, ms[1..], width);
    }
  }

  /** With a clean block in place behind marker-free text, upserting it again is a noop
      if and only if the text behind it is marker-free too. */
  lemma SecondUpsert(a: string, block: string, b: string)
    requires CleanBlock(block) && Free(a)
    ensures Upserted(a + block + b, block).1 == Noop <==> Free(b)
    ensures Free(b) ==> Upserted(a + block + b, block).0 == a + block + b
  {
    var s := a + block + b;
    MarkersAreMarkers();
    FirstBlockFound(a, block, b);
    RefreshedByMarks(s, block, START, END);
    var r := BlocksFrom(s, START, END, 0);
    hide BlocksFrom, IsMarker, CleanBlock, Free, Mentions, Refreshed, At;
    if r.Some? {
      var ms := r.value;
      assert ms[0] == Marks(|a|, |a| + |block| - 27);
      assert s[..|a|] == a && s[|a| + |block|..] == b;
      StrippedIsShorter(s, ms, 27);
      assert |END| == 27;
    }
  }

  /** The text that ends up behind the block when `text` is upserted. */
  ghost function Remainder(text: string): string {
    MarkersAreMarkers();
    if Mentions(text, START, END) then Behind(text, START, END)
    else if Mentions(text, LEGACY_START, LEGACY_END) then Behind(text, LEGACY_START, LEGACY_END)
    else "\n"
  }

  ghost function Behind(text: string, start: string, end: string): string
    requires IsMarker(start) && IsMarker(end) && start != end
  {
    BlocksAreOrdered(text, start, end);
    var r := BlocksFrom(text, start, end, 0);
    if r.None? || r.value == [] then "" else AfterBlocks(text, r.value, |end|)
  }

  lemma SubText(s: string, lo: nat, hi: nat, m: string, p: int)
    requires lo <= hi <= |s| && At(s[lo..hi], m, p)
    ensures At(s, m, p + lo) && 0 <= p && p + |m| <= hi - lo
  {
    forall k | 0 <= k < |m| ensures s[p + lo..p + lo + |m|][k] == m[k] {
      assert s[lo..hi][p..p + |m|][k] == s[lo..hi][p + k];
    }
  }

  lemma UnmentionedIsFree(text: string, lo: nat, hi: nat)
    requires !Mentions(text, START, END) && lo <= hi <= |text|
    ensures Free(text[lo..hi])
  {
    forall p ensures !At(text[lo..hi], START, p) && !At(text[lo..hi], END, p) {
      if At(text[lo..hi], START, p) { SubText(text, lo, hi, START, p); }
      if At(text[lo..hi], END, p) { SubText(text, lo, hi, END, p); }
    }
  }

  lemma FreeBefore(text: string, hi: nat)
    requires hi <= |text|
    requires forall p | 0 <= p < hi :: !At(text, START, p) && !At(text, END, p)
    ensures Free(text[..hi])
  {
    MarkersAreMarkers();
    hide IsMarker;
    forall p ensures !At(text[..hi], START, p) && !At(text[..hi], END, p) {
      assert text[0..hi] == text[..hi];
      if At(text[0..hi], START, p) { SubText(text, 0, hi, START, p); }
      if At(text[0..hi], END, p) { SubText(text, 0, hi, END, p); }
    }
  }

  lemma FreeBehind(text: string, lo: nat)
    requires lo <= |text|
    requires forall p | lo <= p :: !At(text, START, p) && !At(text, END, p)
    ensures Free(text[lo..])
  {
    MarkersAreMarkers();
    hide IsMarker;
    forall p ensures !At(text[lo..], START, p) && !At(text[lo..], END, p) {
      assert text[lo..|text|] == text[lo..];
      if At(text[lo..|text|], START, p) { SubText(text, lo, |text|, START, p); }
      if At(text[lo..|text|], END, p) { SubText(text, lo, |text|, END, p); }
    }
  }

  /** The text in front of the first current block holds no marker, and neither does
      the text behind a single one. */
  lemma AroundCurrentBlock(text: string)
    requires BlocksFrom(text, START, END, 0).Some? && BlocksFrom(text, START, END, 0).value != []
    ensures var ms := BlocksFrom(text, START, END, 0).value;
      && ms[0].first <= |text| && ms[0].last + 27 <= |text|
      && Free(text[..ms[0].first])
      && (|ms| == 1 ==> Free(text[ms[0].last + 27..]))
  {
    hide *;
    MarkersAreMarkers();
    BlocksIffAlternating(text, START, END, 0);
    BlocksAreOrdered(text, START, END);
    var ms := BlocksFrom(text, START, END, 0).value;
    FirstPair(text, START, END, 0, ms);
    OrderedSpans(text, ms, 27);
    FreeBefore(text, ms[0].first);
    if |ms| == 1 {
      forall p | ms[0].last < p ensures !At(text, START, p) && !At(text, END, p) { NothingBehind(text, ms, p); }
      FreeBehind(text, ms[0].last + 27);
    }
  }

  lemma NothingBehind(text: string, ms: seq<Marks>, p: int)
    requires Alternates(text, START, END, 0, ms) && |ms| == 1 && ms[0].last < p && ms[0].first < p
    ensures !At(text, START, p) && !At(text, END, p)
  {
    hide At, Paired;
    SingleCovers(ms, p);
    hide Starts, Ends;
  }

  lemma SingleCovers(ms: seq<Marks>, p: nat)
    requires |ms| == 1
    ensures (Starts(ms, p) ==> p == ms[0].first) && (Ends(ms, p) ==> p == ms[0].last)
  {
  }

  lemma FreeWithNewlines(s: string, nl: string)
    requires Free(s) && forall k | 0 <= k < |nl| :: nl[k] == '\n'
    ensures Free(s + nl)
  {
    MarkersAreMarkers();
    forall p ensures !At(s + nl, START, p) && !At(s + nl, END, p) {
      NewlineSeam(s, nl, START, p);
      NewlineSeam(s, nl, END, p);
    }
  }

  lemma NewlineSeam(s: string, nl: string, m: string, p: int)
    requires IsMarker(m) && forall k | 0 <= k < |nl| :: nl[k] == '\n'
    ensures At(s + nl, m, p) ==> At(s, m, p)
  {
    if At(s + nl, m, p) {
      var last := p + |m| - 1;
      assert (s + nl)[last] == (s + nl)[p..p + |m|][|m| - 1];
      assert last < |s|;
      assert (s + nl)[p..p + |m|] == s[p..p + |m|];
    }
  }

  ghost predicate AtMostOneBlock(text: string) {
    MarkersAreMarkers();
    if Mentions(text, START, END) then Single(text, START, END)
    else if Mentions(text, LEGACY_START, LEGACY_END) then Single(text, LEGACY_START, LEGACY_END)
    else true
  }

  ghost predicate Single(text: string, start: string, end: string) {
    BlocksFrom(text, start, end, 0).Some? && |BlocksFrom(text, start, end, 0).value| == 1
  }

  /** Appending changes nothing in front of the block but trailing newlines, and puts
      exactly one blank line there. */
  lemma AppendKeepsText(text: string, block: string)
    requires !Mentions(text, START, END) && !Mentions(text, LEGACY_START, LEGACY_END)
    ensures var (out, action) := Upserted(text, block);
      exists n: nat :: n <= |text| && n <= |out| && action == Append
        && out[..n] == text[..n] && (forall k | n <= k < |text| :: text[k] == '\n')
        && out[n..] == (if n == 0 then "" else "\n\n") + block + "\n"
        && (n > 0 ==> text[n - 1] != '\n')
  {
    var base := RStripNewlines(text);
    var sep := if base == "" then "" else "\n\n";
    hide RStripNewlines, Mentions;
    var out := Appended(text, block);
    assert out == base + (sep + block + "\n");
    assert out[..|base|] == base && out[|base|..] == sep + block + "\n";
  }

  /** The shape of an upserted text: marker-free text, the block, the remainder. */
  lemma UpsertedShape(text: string, block: string) returns (a: string)
    requires Upserted(text, block).1 != Malformed
    ensures Upserted(text, block).0 == a + block + Remainder(text) && Free(a)
    ensures AtMostOneBlock(text) ==> Free(Remainder(text))
  {
    MarkersAreMarkers();
    hide BlocksFrom, IsMarker, Free, Mentions, At, Refreshed, AfterBlocks;
    if Mentions(text, START, END) {
      RefreshedByMarks(text, block, START, END);
      AroundCurrentBlock(text);
      SingleTail(text, START, END);
      a := text[..BlocksFrom(text, START, END, 0).value[0].first];
    } else if Mentions(text, LEGACY_START, LEGACY_END) {
      RefreshedByMarks(text, block, LEGACY_START, LEGACY_END);
      a := AroundLegacyBlock(text);
      SingleTail(text, LEGACY_START, LEGACY_END);
    } else {
      a := AppendedShape(text, block);
    }
  }

  lemma SingleTail(text: string, start: string, end: string)
    requires IsMarker(start) && IsMarker(end) && start != end
    requires BlocksFrom(text, start, end, 0).Some? && BlocksFrom(text, start, end, 0).value != []
    ensures var ms := BlocksFrom(text, start, end, 0).value;
      && Ordered(text, ms, |end|) && ms[0].last + |end| <= |text|
      && (|ms| == 1 ==> AfterBlocks(text, ms, |end|) == text[ms[0].last + |end|..])
  {
    BlocksAreOrdered(text, start, end);
    hide BlocksFrom, IsMarker;
  }

  lemma AroundLegacyBlock(text: string) returns (a: string)
    requires !Mentions(text, START, END)
    requires BlocksFrom(text, LEGACY_START, LEGACY_END, 0).Some? && BlocksFrom(text, LEGACY_START, LEGACY_END, 0).value != []
    ensures var ms := BlocksFrom(text, LEGACY_START, LEGACY_END, 0).value;
      && ms[0].first <= |text| && ms[0].last + 27 <= |text|
      && a == text[..ms[0].first] && Free(a) && Free(text[ms[0].last + 27..])
  {
    hide *;
    MarkersAreMarkers();
    BlocksAreOrdered(text, LEGACY_START, LEGACY_END);
    var ms := BlocksFrom(text, LEGACY_START, LEGACY_END, 0).value;
    OrderedSpans(text, ms, 27);
    UnmentionedIsFree(text, 0, ms[0].first);
    UnmentionedIsFree(text, ms[0].last + 27, |text|);
    a := text[..ms[0].first];
    assert text[0..ms[0].first] == a && text[ms[0].last + 27..|text|] == text[ms[0].last + 27..];
  }

  lemma AppendedShape(text: string, block: string) returns (a: string)
    requires !Mentions(text, START, END)
    ensures Appended(text, block) == a + block + "\n" && Free(a) && Free("\n")
  {
    var base := RStripNewlines(text);
    hide Free, Mentions, At, RStripNewlines;
    UnmentionedIsFree(text, 0, |base|);
    UnmentionedIsFree(text, 0, 0);
    assert text[0..|base|] == base && text[0..0] == "";
    FreeWithNewlines(base, "\n\n");
    FreeWithNewlines("", "\n");
    assert "" + "\n" == "\n";
    a := base + (if base == "" then "" else "\n\n");
    assert base + "" == base;
  }

  /** Upserting the same block twice: the second run is a noop whenever at most one
      block, current or legacy, was present, and in general exactly when the text left
      behind the block contains no marker. */
  lemma UpsertTwice(text: string, block: string)
    requires CleanBlock(block) && Upserted(text, block).1 != Malformed
    ensures var out := Upserted(text, block).0;
      && (AtMostOneBlock(text) ==> Upserted(out, block) == (out, Noop))
      && (Upserted(out, block).1 == Noop <==> Free(Remainder(text)))
  {
    var a := UpsertedShape(text, block);
    SecondUpsert(a, block, Remainder(text));
    hide Upserted, CleanBlock, Free, Remainder, AtMostOneBlock;
  }

  /** render_block for a body that is already stripped. */
  function RenderBlock(body: string): string {
    START + "\n" + body + "\n" + END
  }

  /** The rendered block is a clean one as long as its body names no marker. */
  lemma RenderedIsClean(body: string)
    requires Free(body)
    ensures CleanBlock(RenderBlock(body))
  {
    MarkersAreMarkers();
    FreeWithNewlines(body, "\n");
    var mid := "\n" + (body + "\n");
    NewlineFirst(body + "\n");
    var block := RenderBlock(body);
    assert block == START + mid + END;
    forall p ensures (At(block, START, p) <==> p == 0) && (At(block, END, p) <==> p == |block| - 27) {
      MarkerInBlock(mid, START, p);
      MarkerInBlock(mid, END, p);
    }
  }

  lemma NewlineFirst(s: string)
    requires Free(s)
    ensures Free("\n" + s)
  {
    MarkersAreMarkers();
    forall p ensures !At("\n" + s, START, p) && !At("\n" + s, END, p) {
      NewlineHead(s, START, p);
      NewlineHead(s, END, p);
    }
  }

  lemma NewlineHead(s: string, m: string, p: int)
    requires IsMarker(m)
    ensures At("\n" + s, m, p) ==> At(s, m, p - 1)
  {
    if At("\n" + s, m, p) {
      assert ("\n" + s)[p] == ("\n" + s)[p..p + |m|][0];
      assert p > 0;
      assert ("\n" + s)[p..p + |m|] == s[p - 1..p - 1 + |m|];
    }
  }

  lemma MarkerInBlock(mid: string, m: string, p: int)
    requires Free(mid) && (m == START || m == END)
    ensures At(START + mid + END, m, p) <==> p == if m == START then 0 else |START| + |mid|
  {
    MarkersAreMarkers();
    var s := START + mid + END;
    var e := |START| + |mid|;
    assert s[0..|START|] == START && s[e..e + |END|] == END;
    assert At(s, START, 0) && At(s, END, e);
    Within(START, mid, END, m, p);
    AtBounds(s, m, p);
    hide At, IsMarker;
    if At(s, m, p) {
      if 0 < p { NoOverlap(s, START, m, 0, p); }
      if p == 0 { NoSameStart(s, START, m, 0); }
      if p < e { NoOverlap(s, m, END, p, e); }
      if p == e { NoSameStart(s, m, END, e); }
      if e < p { NoOverlap(s, END, m, e, p); }
    }
  }

  // ----- a remainder that joins to a marker

  const EMPTY_BLOCK := RenderBlock("")
  const LEFT := "<!-- memsom:managed:st"
  const RIGHT := "art -->"

  /** Two blocks with the two halves of a start marker behind them. */
  function SplitMarker(): string {
    EMPTY_BLOCK + (LEFT + EMPTY_BLOCK + RIGHT)
  }

  lemma ShortIsFree(s: string)
    requires |s| < 27
    ensures Free(s)
  {
    MarkersAreMarkers();
    forall p ensures !At(s, START, p) && !At(s, END, p) {
      AtBounds(s, START, p);
      AtBounds(s, END, p);
    }
  }

  lemma EmptyBlockIsClean()
    ensures CleanBlock(EMPTY_BLOCK) && |EMPTY_BLOCK| == 58
  {
    ShortIsFree("");
    RenderedIsClean("");
  }

  lemma HalvesAreFree()
    ensures Free(LEFT) && Free(RIGHT) && Free("") && |LEFT| == 22 && |RIGHT| == 7
  {
    assert |LEFT| == 22 && |RIGHT| == 7;
    hide *;
    ShortIsFree(LEFT);
    ShortIsFree(RIGHT);
    ShortIsFree("");
  }

  lemma SplitMarkerIs()
    ensures SplitMarker() == "" + EMPTY_BLOCK + (LEFT + EMPTY_BLOCK + RIGHT)
  {
    hide RenderBlock;
    assert "" + EMPTY_BLOCK == EMPTY_BLOCK;
  }

  lemma SplitMarkerOccurrences()
    ensures var s := SplitMarker();
      && (forall p :: At(s, START, p) <==> p == 0 || p == 80)
      && (forall p :: At(s, END, p) <==> p == 31 || p == 111)
      && |s| == 145
  {
    hide CleanBlock, RenderBlock, At, SplitMarker, IsMarker, StartsWith, Contains, Occurs;
    EmptyBlockIsClean();
    HalvesAreFree();
    var inner := LEFT + EMPTY_BLOCK + RIGHT;
    var s := SplitMarker();
    SplitMarkerIs();
    Occurrences(LEFT, EMPTY_BLOCK, RIGHT);
    Occurrences("", EMPTY_BLOCK, inner);
    forall p ensures At(s, START, p) <==> p == 0 || p == 80 ensures At(s, END, p) <==> p == 31 || p == 111 {
      AtBounds(s, START, p);
      AtBounds(s, END, p);
    }
  }

  lemma SplitMarkerBlocks()
    ensures BlocksFrom(SplitMarker(), START, END, 0) == Some([Marks(0, 31), Marks(80, 111)])
  {
    hide *;
    SplitMarkerOccurrences();
    MarkersAreMarkers();
    TwoPairs(SplitMarker(), START, END, Marks(0, 31), Marks(80, 111));
    BlocksAre(SplitMarker(), START, END, [Marks(0, 31), Marks(80, 111)]);
  }

  lemma AfterTwo(s: string, m: Marks, n: Marks, width: nat)
    requires Ordered(s, [m, n], width)
    ensures m.last + width <= n.first <= |s| && n.last + width <= |s|
    ensures AfterBlocks(s, [m, n], width) == s[m.last + width..n.first] + s[n.last + width..]
  {
    var ms := [m, n];
    assert ms[0] == m && ms[1] == n && ms[1..] == [n];
  }

  lemma BehindIs(text: string, start: string, end: string, ms: seq<Marks>)
    requires IsMarker(start) && IsMarker(end) && start != end && BlocksFrom(text, start, end, 0) == Some(ms) && ms != []
    ensures Ordered(text, ms, |end|) && Behind(text, start, end) == AfterBlocks(text, ms, |end|)
  {
    BlocksAreOrdered(text, start, end);
    hide BlocksFrom, AfterBlocks;
  }

  lemma RemainderIs(text: string)
    requires Mentions(text, START, END)
    ensures IsMarker(START) && IsMarker(END) && START != END && Remainder(text) == Behind(text, START, END)
  {
    hide Behind, Mentions, IsMarker;
    MarkersAreMarkers();
  }

  lemma SplitMarkerRemainder()
    ensures Mentions(SplitMarker(), START, END) && Remainder(SplitMarker()) == START
  {
    hide *;
    var s := SplitMarker();
    MarkersAreMarkers();
    SplitMarkerBlocks();
    SplitMarkerOccurrences();
    SplitMarkerSlices();
    MentionsStart(s, 0);
    RemainderIs(s);
    BehindIs(s, START, END, [Marks(0, 31), Marks(80, 111)]);
    AfterTwo(s, Marks(0, 31), Marks(80, 111), 27);
  }

  lemma SplitMarkerSlices()
    ensures |SplitMarker()| == 145 && SplitMarker()[58..80] == LEFT && SplitMarker()[138..] == RIGHT && LEFT + RIGHT == START
  {
    EmptyBlockIsClean();
    hide RenderBlock, CleanBlock;
  }

  /** On that text a second upsert is no noop, whatever the block. */
  lemma JoinedMarkerBreaksTheSecondUpsert(block: string)
    requires CleanBlock(block)
    ensures var text := SplitMarker();
      Upserted(text, block).1 != Malformed && Upserted(Upserted(text, block).0, block).1 != Noop
  {
    hide *;
    SplitMarkerRemainder();
    SplitMarkerBlocks();
    MarkersAreMarkers();
    RefreshedByMarks(SplitMarker(), block, START, END);
    UpsertedIsRefreshed(SplitMarker(), block);
    NotMalformed(SplitMarker(), block, START, END);
    StartIsNotFree();
    UpsertTwice(SplitMarker(), block);
  }

  lemma UpsertedIsRefreshed(text: string, block: string)
    requires Mentions(text, START, END)
    ensures IsMarker(START) && IsMarker(END) && START != END && Upserted(text, block) == Refreshed(text, block, START, END)
  {
    hide Refreshed, Mentions, IsMarker;
    MarkersAreMarkers();
  }

  lemma NotMalformed(text: string, block: string, start: string, end: string)
    requires IsMarker(start) && IsMarker(end) && start != end
    requires BlocksFrom(text, start, end, 0).Some? && BlocksFrom(text, start, end, 0).value != []
    ensures Refreshed(text, block, start, end).1 != Malformed
  {
    hide BlocksFrom, IsMarker;
  }

  lemma StartIsNotFree()
    ensures !Free(START)
  {
    assert At(START, START, 0);
  }

  // ----- which action is taken

  /** The markers strictly alternate, and there is at least one pair. */
  ghost predicate WellPaired(text: string, start: string, end: string) {
    exists ms :: ms != [] && Alternates(text, start, end, 0, ms)
  }

  lemma MentionsIs(text: string, start: string, end: string)
    ensures Mentions(text, start, end) <==> Occurs(text, start) || Occurs(text, end)
  {
    OccursIsContains(text, start);
    OccursIsContains(text, end);
    hide Occurs, Contains;
  }

  lemma RefreshedIs(text: string, block: string, start: string, end: string)
    requires IsMarker(start) && IsMarker(end) && start != end
    ensures var r := Refreshed(text, block, start, end);
      && (r.1 == Malformed <==> !WellPaired(text, start, end)) && r.1 != Append
      && (r.1 == Malformed ==> r.0 == text) && (r.1 == Noop <==> r.1 != Malformed && r.0 == text)
  {
    BlocksIffAlternating(text, start, end, 0);
    hide BlocksFrom, Alternates, IsMarker;
    if WellPaired(text, start, end) {
      var ms :| ms != [] && Alternates(text, start, end, 0, ms);
      BlocksAre(text, start, end, ms);
    }
  }

  /** A text with neither markers is appended to; otherwise the current markers decide, and
      without them the older ones: strictly alternating they are refreshed, else the text is
      malformed and returned as it is. */
  lemma UpsertActs(text: string, block: string)
    ensures var r := Upserted(text, block);
      var current := Occurs(text, "<!-- memsom:managed:start -->") || Occurs(text, "<!-- memsom:managed:end -->");
      var legacy := Occurs(text, "<!-- memdag:managed:start -->") || Occurs(text, "<!-- memdag:managed:end -->");
      && (r.1 == Append <==> !current && !legacy)
      && (current ==> (r.1 == Malformed <==> !WellPaired(text, START, END)))
      && (!current && legacy ==> (r.1 == Malformed <==> !WellPaired(text, LEGACY_START, LEGACY_END)))
      && (r.1 == Malformed ==> r.0 == text)
      && (r.1 in {Noop, Replace} ==> (r.1 == Noop <==> r.0 == text))
  {
    MarkersAreMarkers();
    MentionsIs(text, START, END);
    MentionsIs(text, LEGACY_START, LEGACY_END);
    RefreshedIs(text, block, START, END);
    RefreshedIs(text, block, LEGACY_START, LEGACY_END);
    hide Refreshed, Mentions, Occurs, WellPaired, IsMarker;
  }
}
