/** Masking inline code on one line of a vault note (memsom/bridge/obsidian.py), so that
    links inside code spans are not read. */
module VaultNote {
  import opened Base

  const TICK := '`'

  /** The length of the backtick run a text starts with. */
  function RunLength(s: string): (n: nat)
    ensures n <= |s|
    ensures s != [] && s[0] == TICK ==> n > 0
  {
    if s != [] && s[0] == TICK then 1 + RunLength(s[1..]) else 0
  }

  lemma {:induction false} LeadingRun(s: string)
    ensures var n := RunLength(s);
      (forall i | 0 <= i < n :: s[i] == TICK) && (n < |s| ==> s[n] != TICK)
  {
    if s != [] && s[0] == TICK { LeadingRun(s[1..]); }
  }

  /** Where the first run of exactly `run` backticks ends. */
  function FindClose(s: string, run: nat): (e: Option<nat>)
    ensures e.Some? ==> 0 < e.value <= |s|
    decreases |s|
  {
    if s == [] then None
    else
      var r := RunLength(s);
      if r == 0 then Shift(1, FindClose(s[1..], run))
      else if r == run then Some(r)
      else Shift(r, FindClose(s[r..], run))
  }

  function Shift(off: nat, e: Option<nat>): Option<nat> {
    if e.Some? then Some(off + e.value) else None
  }

  function Spaces(n: nat): (s: string)
    ensures |s| == n
  {
    if n == 0 then "" else " " + Spaces(n - 1)
  }

  lemma {:induction false} SpacesAreBlank(n: nat)
    ensures forall i | 0 <= i < n :: Spaces(n)[i] == ' '
  {
    if n > 0 { SpacesAreBlank(n - 1); }
  }

  /** The rule: blank from an opening run to the first later run of the same length; an
      opening run without one leaves the rest of the line as it is. */
  function Mask(s: string): string
    decreases |s|
  {
    if s == [] then []
    else if s[0] != TICK then [s[0]] + Mask(s[1..])
    else
      var r := RunLength(s);
      match FindClose(s[r..], r)
      case None => s
      case Some(e) => Spaces(r + e) + Mask(s[r + e..])
  }

  lemma MaskUnfold(s: string)
    requires s != ""
    ensures s[0] != TICK ==> Mask(s) == [s[0]] + Mask(s[1..])
    ensures var r := RunLength(s);
      var e := FindClose(s[r..], r);
      s[0] == TICK ==> Mask(s) == if e.None? then s else Spaces(r + e.value) + Mask(s[r + e.value..])
  {
    hide *;
    if s[0] == TICK { UnfoldRun(s); } else { UnfoldPlain(s); }
  }

  lemma UnfoldPlain(s: string)
    requires s != "" && s[0] != TICK
    ensures Mask(s) == [s[0]] + Mask(s[1..])
  {
  }

  lemma UnfoldRun(s: string)
    requires s != "" && s[0] == TICK
    ensures var r := RunLength(s);
      var e := FindClose(s[r..], r);
      Mask(s) == if e.None? then s else Spaces(r + e.value) + Mask(s[r + e.value..])
  {
    hide RunLength, FindClose, Spaces;
  }

  // ----- the scanner, over positions of the line

  function RunFrom(line: string, i: nat): (r: nat)
    requires i <= |line|
    ensures i + r <= |line|
  {
    RunLength(line[i..])
  }

  function CloseFrom(line: string, j: nat, run: nat): (k: Option<nat>)
    requires j <= |line|
    ensures k.Some? ==> j < k.value <= |line|
  {
    Shift(j, FindClose(line[j..], run))
  }

  function MaskFrom(line: string, i: nat): string
    requires i <= |line|
  {
    Mask(line[i..])
  }

  lemma RunStep(line: string, j: nat)
    requires j <= |line|
    ensures RunFrom(line, j) == if j < |line| && line[j] == TICK then 1 + RunFrom(line, j + 1) else 0
  {
    if j < |line| { DropHead(line, j); }
  }

  lemma CloseStep(line: string, k: nat, run: nat)
    requires k <= |line|
    ensures CloseFrom(line, k, run) ==
      if k == |line| then None
      else
        var r := RunFrom(line, k);
        if r == 0 then CloseFrom(line, k + 1, run) else if r == run then Some(k + r) else CloseFrom(line, k + r, run)
  {
    hide RunLength;
    var r := RunFrom(line, k);
    if k < |line| {
      DropHead(line, k);
      assert line[k..][r..] == line[k + r..];
    }
  }

  lemma MaskStep(line: string, i: nat)
    requires i < |line|
    ensures MaskFrom(line, i) ==
      if line[i] != TICK then [line[i]] + MaskFrom(line, i + 1)
      else
        var r := RunFrom(line, i);
        var k := CloseFrom(line, i + r, r);
        if k.None? then line[i..] else Spaces(k.value - i) + MaskFrom(line, k.value)
  {
    hide Mask, RunLength, FindClose, Spaces;
    var t := line[i..];
    DropHead(line, i);
    MaskUnfold(t);
    var r := RunLength(t);
    var e := FindClose(t[r..], r);
    Rest(line, i, r);
    if e.Some? { Rest(line, i, r + e.value); }
  }

  lemma Rest(line: string, i: nat, r: nat)
    requires i + r <= |line|
    ensures line[i..][r..] == line[i + r..]
  {
  }

  method EndOfRun(line: string, s: nat) returns (k: nat)
    requires s < |line|
    ensures k == s + RunFrom(line, s)
    ensures line[s] == TICK ==> k > s
  {
    hide *;
    RunStep(line, s);
    k := s;
    while k < |line| && line[k] == TICK
      invariant s <= k <= |line|
      invariant RunFrom(line, s) == (k - s) + RunFrom(line, k)
    {
      RunStep(line, k);
      k := k + 1;
    }
    RunStep(line, k);
  }

  /** The inner scan for the close: where the first later run of exactly `run` backticks
      ends. */
  method Close(line: string, j: nat, run: nat) returns (k: nat, closed: bool)
    requires j <= |line|
    ensures CloseFrom(line, j, run) == if closed then Some(k) else None
  {
    hide *;
    k, closed := j, false;
    while k < |line| && !closed
      invariant j <= k <= |line|
      invariant CloseFrom(line, j, run) == if closed then Some(k) else CloseFrom(line, k, run)
    {
      CloseStep(line, k, run);
      if line[k] == TICK {
        var s := k;
        k := EndOfRun(line, s);
        closed := k - s == run;
      } else {
        RunStep(line, k);
        k := k + 1;
      }
    }
    if !closed { CloseStep(line, k, run); }
  }

  /** _mask_inline_code: the scanner. */
  method MaskInlineCode(line: string) returns (out: string)
    ensures out == Mask(line)
  {
    out := "";
    var i, n := 0, |line|;
    MaskEnds(line);
    hide *;
    while i < n
      invariant 0 <= i <= n
      invariant out + MaskFrom(line, i) == MaskFrom(line, 0)
    {
      MaskStep(line, i);
      if line[i] == TICK {
        var j := EndOfRun(line, i);
        var k, closed := Close(line, j, j - i);
        if closed {
          Assoc(out, Spaces(k - i), MaskFrom(line, k));
          out := out + Spaces(k - i);
          i := k;
        } else {
          Assoc(out, line[i..], "");
          out := out + line[i..];
          i := n;
        }
      } else {
        Assoc(out, [line[i]], MaskFrom(line, i + 1));
        out := out + [line[i]];
        i := i + 1;
      }
    }
  }

  lemma MaskEnds(line: string)
    ensures MaskFrom(line, 0) == Mask(line) && MaskFrom(line, |line|) == ""
  {
    assert line[0..] == line;
  }

  // ----- what the rule means

  /** The maximal backtick run line[a..b]. */
  predicate IsRun(s: string, a: int, b: int) {
    && 0 <= a < b <= |s|
    && (forall i | a <= i < b :: s[i] == TICK)
    && (a == 0 || s[a - 1] != TICK)
    && (b == |s| || s[b] != TICK)
  }

  /** A maximal run behind the first `n` characters is one of the rest, and the other way
      round, when the cut does not split a run. */
  lemma RunsOfRest(s: string, n: nat, a: int, b: int)
    requires 0 < n <= |s| && n <= a && (n < |s| ==> s[n] != TICK || s[n - 1] != TICK)
    ensures IsRun(s, a, b) <==> IsRun(s[n..], a - n, b - n)
  {
  }

  /** The run found at position `e` is the first of its length. */
  ghost predicate IsFirstClose(s: string, run: nat, e: Option<nat>) {
    && (e.Some? ==> IsRun(s, e.value - run, e.value) && forall a, b | IsRun(s, a, b) && b < e.value :: b - a != run)
    && (e.None? ==> forall a, b | IsRun(s, a, b) :: b - a != run)
  }

  /** FindClose finds the first maximal run of exactly the given length, and nothing only
      if there is none: the closing rule of section 6.1 of CommonMark. */
  lemma {:induction false} FirstClose(s: string, run: nat)
    requires run > 0
    ensures IsFirstClose(s, run, FindClose(s, run))
    decreases |s|
  {
    if s != [] {
      var r := RunLength(s);
      LeadingRun(s);
      if r == 0 || r != run {
        var n := if r == 0 then 1 else r;
        FirstClose(s[n..], run);
        CloseBehind(s, n, run, FindClose(s[n..], run));
      } else {
        forall a, b | IsRun(s, a, b) ensures b >= r { RunEndsBehindHead(s, a, b); }
      }
    }
  }

  lemma CloseBehind(s: string, n: nat, run: nat, e: Option<nat>)
    requires s != [] && run > 0 && RunLength(s) != run
    requires n == if RunLength(s) == 0 then 1 else RunLength(s)
    requires IsFirstClose(s[n..], run, e)
    ensures IsFirstClose(s, run, Shift(n, e))
  {
    var r := RunLength(s);
    LeadingRun(s);
    hide RunLength, IsRun;
    forall a, b | IsRun(s, a, b)
      ensures n <= a ==> IsRun(s[n..], a - n, b - n)
      ensures a < n ==> a == 0 && b == r
    {
      RunStartsInRange(s, a, b);
      if n <= a { RunsOfRest(s, n, a, b); } else { HeadRun(s, a, b); }
    }
    if e.Some? {
      RunStartsInRange(s[n..], e.value - run, e.value);
      RunsOfRest(s, n, e.value + n - run, e.value + n);
    }
  }

  lemma RunStartsInRange(s: string, a: int, b: int)
    requires IsRun(s, a, b)
    ensures 0 <= a < b <= |s|
  {
  }

  /** The only maximal run that starts within the leading run is that run. */
  lemma HeadRun(s: string, a: int, b: int)
    requires IsRun(s, a, b) && (a < RunLength(s) || a == 0)
    ensures a == 0 && b == RunLength(s)
  {
    LeadingRun(s);
  }

  lemma RunEndsBehindHead(s: string, a: int, b: int)
    requires IsRun(s, a, b)
    ensures b >= RunLength(s)
  {
    LeadingRun(s);
  }

  // ----- consequences

  /** `m` is `s` with some characters blanked. */
  ghost predicate Blanked(m: string, s: string) {
    |m| == |s| && forall i | 0 <= i < |s| :: m[i] == s[i] || m[i] == ' '
  }

  lemma BlankedJoin(p: string, m: string, s: string)
    requires |p| <= |s| && Blanked(p, s[..|p|]) && Blanked(m, s[|p|..])
    ensures Blanked(p + m, s)
  {
    assert s == s[..|p|] + s[|p|..];
  }

  /** The mask keeps the length of the line and only ever blanks. */
  lemma {:induction false} MaskKeepsLength(s: string)
    ensures Blanked(Mask(s), s)
    decreases |s|
  {
    if s != [] {
      var r := RunLength(s);
      var e := FindClose(s[r..], r);
      MaskUnfold(s);
      if s[0] == TICK && e.Some? { SpacesAreBlank(r + e.value); }
      hide RunLength, FindClose, Mask, Spaces;
      if s[0] != TICK {
        MaskKeepsLength(s[1..]);
        BlankedJoin([s[0]], Mask(s[1..]), s);
      } else if e.Some? {
        MaskKeepsLength(s[r + e.value..]);
        BlankedJoin(Spaces(r + e.value), Mask(s[r + e.value..]), s);
      }
    }
  }

  lemma SpacesStep(k: nat)
    requires k > 0
    ensures Spaces(k) == " " + Spaces(k - 1)
  {
  }

  lemma {:induction false} MaskThroughSpaces(k: nat, t: string)
    ensures Mask(Spaces(k) + t) == Spaces(k) + Mask(t)
  {
    if k == 0 {
      assert Spaces(0) + t == t;
    } else {
      var s := Spaces(k) + t;
      hide *;
      SpacesStep(k);
      MaskThroughSpaces(k - 1, t);
      Assoc(" ", Spaces(k - 1), t);
      HeadTail(" ", Spaces(k - 1) + t);
      assert " "[1..] + (Spaces(k - 1) + t) == Spaces(k - 1) + t;
      MaskUnfold(s);
      Assoc(" ", Spaces(k - 1), Mask(t));
    }
  }

  lemma PlainHead(c: char, t: string)
    requires c != TICK
    ensures Mask([c] + t) == [c] + Mask(t)
  {
    assert ([c] + t)[1..] == t;
    NotAtRun([c] + t);
  }

  /** Masking a masked line changes nothing. */
  lemma {:induction false} MaskTwice(s: string)
    ensures Mask(Mask(s)) == Mask(s)
    decreases |s|
  {
    hide *;
    if s == [] {
      MaskOfNothing();
    } else if s[0] != TICK {
      MaskTwice(s[1..]);
      MaskTwicePlain(s);
    } else {
      var r := RunLength(s);
      var e := FindClose(s[r..], r);
      AtRun(s, r, e);
      if e.Some? {
        MaskTwice(s[r + e.value..]);
        MaskThroughSpaces(r + e.value, Mask(s[r + e.value..]));
      }
    }
  }

  lemma MaskOfNothing()
    ensures Mask([]) == []
  {
  }

  lemma MaskTwicePlain(s: string)
    requires s != [] && s[0] != TICK && Mask(Mask(s[1..])) == Mask(s[1..])
    ensures Mask(Mask(s)) == Mask(s)
  {
    hide *;
    NotAtRun(s);
    PlainHead(s[0], Mask(s[1..]));
  }

  /** What is behind the first opening run that has no close, or the empty text. */
  function Unscanned(s: string): string
    decreases |s|
  {
    if s == [] then []
    else if s[0] != TICK then Unscanned(s[1..])
    else
      var r := RunLength(s);
      match FindClose(s[r..], r)
      case None => s[r..]
      case Some(e) => Unscanned(s[r + e..])
  }

  /** Some backtick run has a later one of the same length. */
  predicate HasPair(s: string)
    decreases |s|
  {
    s != [] &&
    if s[0] != TICK then HasPair(s[1..])
    else FindClose(s[RunLength(s)..], RunLength(s)).Some? || HasPair(s[RunLength(s)..])
  }

  /** Section 6.1 of CommonMark: an opening run without a close is literal text, and the
      scan goes on behind it. */
  function CommonMarkMask(s: string): string
    decreases |s|
  {
    if s == [] then []
    else if s[0] != TICK then [s[0]] + CommonMarkMask(s[1..])
    else
      var r := RunLength(s);
      match FindClose(s[r..], r)
      case None => s[..r] + CommonMarkMask(s[r..])
      case Some(e) => Spaces(r + e) + CommonMarkMask(s[r + e..])
  }

  lemma {:induction false} CommonMarkKeepsLength(s: string)
    ensures |CommonMarkMask(s)| == |s|
    decreases |s|
  {
    if s != [] {
      var r := RunLength(s);
      var e := FindClose(s[r..], r);
      if s[0] != TICK { NotAtRun(s); } else { AtRun(s, r, e); }
      hide *;
      CommonMarkKeepsLength(s[if s[0] != TICK then 1 else if e.Some? then r + e.value else r..]);
    }
  }

  lemma {:induction false} CommonMarkMasksPairs(s: string)
    ensures CommonMarkMask(s) == s <==> !HasPair(s)
    decreases |s|
  {
    if s != [] {
      if s[0] != TICK {
        CommonMarkMasksPairs(s[1..]);
        SameTail(s, 1, CommonMarkMask(s[1..]));
      } else {
        var r := RunLength(s);
        var e := FindClose(s[r..], r);
        if e.Some? {
          SpacesAreBlank(r + e.value);
          assert CommonMarkMask(s)[0] == Spaces(r + e.value)[0] == ' ';
        } else {
          CommonMarkMasksPairs(s[r..]);
          SameTail(s, r, CommonMarkMask(s[r..]));
        }
      }
    }
  }

  lemma SameTail(s: string, n: nat, t: string)
    requires n <= |s|
    ensures s[..n] + t == s <==> t == s[n..]
  {
    assert s == s[..n] + s[n..];
    if s[..n] + t == s { assert (s[..n] + t)[n..] == t; }
  }

  /** Mask, CommonMarkMask and Unscanned at an opening run. */
  lemma AtRun(s: string, r: nat, e: Option<nat>)
    requires s != [] && s[0] == TICK && r == RunLength(s) && e == FindClose(s[r..], r)
    ensures r > 0 && Mask(s) == match e { case None => s case Some(k) => Spaces(r + k) + Mask(s[r + k..]) }
    ensures CommonMarkMask(s) == match e
      case None => s[..r] + CommonMarkMask(s[r..])
      case Some(k) => Spaces(r + k) + CommonMarkMask(s[r + k..])
    ensures Unscanned(s) == match e { case None => s[r..] case Some(k) => Unscanned(s[r + k..]) }
  {
    hide RunLength, FindClose, Spaces;
  }

  lemma NotAtRun(s: string)
    requires s != [] && s[0] != TICK
    ensures Mask(s) == [s[0]] + Mask(s[1..]) && CommonMarkMask(s) == [s[0]] + CommonMarkMask(s[1..])
    ensures Unscanned(s) == Unscanned(s[1..])
  {
  }

  /** The rule agrees with CommonMark exactly if behind the first unmatched opening run no
      backtick run has a later one of the same length. */
  lemma {:induction false} AgreesWithCommonMarkIff(s: string)
    ensures Mask(s) == CommonMarkMask(s) <==> !HasPair(Unscanned(s))
    decreases |s|
  {
    if s != [] {
      hide *;
      if s[0] != TICK {
        NotAtRun(s);
        AgreesWithCommonMarkIff(s[1..]);
        SamePrefix([s[0]], Mask(s[1..]), CommonMarkMask(s[1..]));
      } else {
        var r := RunLength(s);
        var e := FindClose(s[r..], r);
        AtRun(s, r, e);
        if e.Some? {
          AgreesWithCommonMarkIff(s[r + e.value..]);
          SamePrefix(Spaces(r + e.value), Mask(s[r + e.value..]), CommonMarkMask(s[r + e.value..]));
        } else {
          CommonMarkMasksPairs(s[r..]);
          SameTail(s, r, CommonMarkMask(s[r..]));
        }
      }
    }
  }

  lemma SamePrefix(p: string, a: string, b: string)
    ensures p + a == p + b <==> a == b
  {
    assert (p + a)[|p|..] == a && (p + b)[|p|..] == b;
  }

  /** An unmatched double backtick hides a later code span from the mask. */
  lemma UnmatchedRunStopsTheScan()
    ensures Mask("``x`y`") == "``x`y`"
    ensures CommonMarkMask("``x`y`") == "``x   "
  {
    StopsAtTheRun();
    SecondPairIsMasked();
  }

  lemma StopsAtTheRun()
    ensures Mask("``x`y`") == "``x`y`"
    ensures CommonMarkMask("``x`y`") == "``" + CommonMarkMask("x`y`")
  {
    var s := "``x`y`";
    assert s[1..] == "`x`y`" && s[1..][1..] == "x`y`" && s[2..] == "x`y`";
    assert RunLength(s) == 2;
    var t := "x`y`";
    assert t[1..] == "`y`" && "`y`"[1..] == "y`" && "y`"[1..] == "`" && "`"[1..] == "";
    assert RunLength("`y`") == 1 && RunLength("y`") == 0 && RunLength("`") == 1 && RunLength(t) == 0;
    assert FindClose("`", 2) == None && FindClose("y`", 2) == None && FindClose("`y`", 2) == None && FindClose(t, 2) == None;
    assert s[..2] == "``";
  }

  lemma SecondPairIsMasked()
    ensures "``" + CommonMarkMask("x`y`") == "``x   "
  {
    assert "x`y`"[1..] == "`y`" && "`y`"[1..] == "y`" && "y`"[1..] == "`" && "`"[1..] == "";
    assert RunLength("`y`") == 1 && RunLength("y`") == 0 && RunLength("`") == 1;
    assert FindClose("`", 1) == Some(1) && FindClose("y`", 1) == Some(2);
    assert "`y`"[3..] == "" && Spaces(3) == "   ";
    assert CommonMarkMask("`y`") == "   " + CommonMarkMask("");
    assert CommonMarkMask("x`y`") == "x" + CommonMarkMask("`y`");
  }

  // ----- the channel of a note

  datatype Error = UnknownDefault

  const RANK: map<string, int> := map["endorsed" := 3, "user" := 2, "agent-derived" := 1, "external" := 0]

  function Named(rank: int): string {
    if rank >= 3 then "endorsed" else if rank == 2 then "user" else if rank == 1 then "agent-derived" else "external"
  }

  /** effective_channel: the declaration is stripped and read in any case. */
  function EffectiveChannel(dflt: string, declared: Option<string>): Result<string, Error> {
    if dflt !in RANK then Err(UnknownDefault)
    else if !Truthy(declared) || Lower(Strip(declared.value)) !in RANK then Ok(dflt)
    else
      var rank := RANK[Lower(Strip(declared.value))];
      Ok(Named(if RANK[dflt] <= rank then RANK[dflt] else rank))
  }

  /** The declaration is the name, in any case and with white space around it. */
  ghost predicate Declares(declared: Option<string>, name: string) {
    declared.Some? && exists a, m, b :: IsSplit(declared.value, a, m, b) && Spells(m, name) && AllSpace(a) && AllSpace(b)
  }

  predicate AllSpace(s: string) {
    forall c | c in s :: IsSpace(c)
  }

  lemma NamesAre(name: string)
    requires name in RANK
    ensures name in {"endorsed", "user", "agent-derived", "external"}
    ensures name != "" && IsLower(name) && name[0] in "euax" && name[|name| - 1] in "drl"
  {
  }

  lemma DeclaresIs(declared: Option<string>, name: string)
    requires name in RANK && declared.Some?
    ensures Declares(declared, name) <==> Lower(Strip(declared.value)) == name
  {
    NamesAre(name);
    LowerIsSpells(Strip(declared.value), name);
    if Lower(Strip(declared.value)) == name {
      var a, b := StripSplits(declared.value);
      assert IsSplit(declared.value, a, Strip(declared.value), b) && AllSpace(a) && AllSpace(b);
    }
    if Declares(declared, name) {
      var a, m, b :| IsSplit(declared.value, a, m, b) && Spells(m, name) && AllSpace(a) && AllSpace(b);
      SpeltIsNoSpace(m, name);
      StripIs(a, m, b);
    }
  }

  lemma SpeltIsNoSpace(m: string, name: string)
    requires name in RANK && Spells(m, name)
    ensures m != "" && !IsSpace(m[0]) && !IsSpace(m[|m| - 1])
  {
    NamesAre(name);
  }

  /** The lower of the default and the declared channel; anything else that is declared is
      ignored. */
  lemma EffectiveChannelIs(dflt: string, declared: Option<string>, name: string)
    ensures dflt !in RANK ==> EffectiveChannel(dflt, declared) == Err(UnknownDefault)
    ensures dflt in RANK && name in RANK && Declares(declared, name) ==>
      EffectiveChannel(dflt, declared) == Ok(if RANK[name] < RANK[dflt] then name else dflt)
    ensures dflt in RANK && (forall other | other in RANK :: !Declares(declared, other)) ==> EffectiveChannel(dflt, declared) == Ok(dflt)
  {
    if declared.Some? {
      forall other | other in RANK ensures Declares(declared, other) <==> Lower(Strip(declared.value)) == other {
        DeclaresIs(declared, other);
      }
      StrippedIsShorter(declared.value);
      if name in RANK { NamesAre(name); }
    }
    hide Declares, Lower, Strip;
  }

  lemma StrippedIsShorter(s: string)
    ensures s == "" ==> Lower(Strip(s)) == ""
  {
  }

  lemma NamedIs(name: string)
    requires name in RANK
    ensures Named(RANK[name]) == name && Lower(Strip(name)) == name
  {
    hide Strip, Lower;
    CleanName(name);
  }

  lemma CleanName(name: string)
    requires name in RANK
    ensures Lower(Strip(name)) == name
  {
    SpellsItself(name);
    SpeltIsNoSpace(name, name);
    NamesAre(name);
    hide *;
    StripIs("", name, "");
    assert "" + name + "" == name;
    LowerIsSpells(name, name);
  }

  lemma SpellsItself(name: string)
    ensures Spells(name, name)
  {
  }

  /** Feeding a note's channel back in with any further declarations only ever lowers the
      rank: the result is the least of all ranks seen, so the order does not matter. */
  lemma ChannelNeverRises(dflt: string, first: Option<string>, second: Option<string>)
    requires dflt in RANK
    ensures var a := EffectiveChannel(dflt, first);
      && a.Ok? && a.value in RANK && RANK[a.value] <= RANK[dflt]
      && (first.Some? && first.value in RANK ==> RANK[a.value] <= RANK[first.value])
      && (forall name | name in RANK && Declares(first, name) :: RANK[a.value] <= RANK[name])
      && EffectiveChannel(a.value, first) == a
      && var b := EffectiveChannel(dflt, second);
        b.Ok? && b.value in RANK && EffectiveChannel(a.value, second) == EffectiveChannel(b.value, first)
  {
    if first.Some? {
      if first.value in RANK { NamedIs(first.value); }
      forall name | name in RANK ensures Declares(first, name) <==> Lower(Strip(first.value)) == name { DeclaresIs(first, name); }
    }
    hide *;
    LeastRank(dflt, first);
    LeastRank(dflt, second);
    var a, b := EffectiveChannel(dflt, first).value, EffectiveChannel(dflt, second).value;
    LeastRank(a, first);
    LeastRank(a, second);
    LeastRank(b, first);
    SameRankSameName(EffectiveChannel(a, first).value, a);
    SameRankSameName(EffectiveChannel(a, second).value, EffectiveChannel(b, first).value);
    forall name | name in RANK && Declares(first, name) ensures RANK[a] <= RANK[name] { NameHasRank(first, name); }
    if first.Some? && first.value in RANK { NameHasRank(first, first.value); }
  }

  /** The rank a declaration allows at most. */
  function Cap(declared: Option<string>): int {
    if declared.Some? && Lower(Strip(declared.value)) in RANK then RANK[Lower(Strip(declared.value))] else 3
  }

  lemma NameHasRank(declared: Option<string>, name: string)
    requires declared.Some? && name in RANK && Lower(Strip(declared.value)) == name
    ensures Cap(declared) == RANK[name]
  {
    hide Lower, Strip;
  }

  lemma LeastRank(dflt: string, declared: Option<string>)
    requires dflt in RANK
    ensures var r := EffectiveChannel(dflt, declared);
      r.Ok? && r.value in RANK && RANK[r.value] == if Cap(declared) < RANK[dflt] then Cap(declared) else RANK[dflt]
  {
    if declared.Some? { StrippedIsShorter(declared.value); }
    hide Lower, Strip;
  }

  lemma SameRankSameName(a: string, b: string)
    requires a in RANK && b in RANK && RANK[a] == RANK[b]
    ensures a == b
  {
  }
}
