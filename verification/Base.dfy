/** Option and Result, Python's readings of strings that several components share, and
    three facts on sequences. */
module Base {
  datatype Option<+T> = None | Some(value: T)

  datatype Result<+T, +E> = Ok(value: T) | Err(error: E)

  /** Python truthiness of an optional string: neither absent nor empty. */
  predicate Truthy(o: Option<string>) {
    o.Some? && o.value != ""
  }

  /** Python's `a or b` on optional strings: the first operand when truthy, else the second. */
  function Or(a: Option<string>, b: Option<string>): Option<string> {
    if Truthy(a) then a else b
  }

  /** `t` occurs in `s` at position `i`. */
  predicate At(s: string, t: string, i: int) {
    0 <= i <= |s| - |t| && s[i..i + |t|] == t
  }

  /** Python's `t in s`. */
  predicate Contains(s: string, t: string) {
    exists i | 0 <= i <= |s| :: At(s, t, i)
  }

  predicate EndsWith(s: string, t: string) {
    At(s, t, |s| - |t|)
  }

  predicate StartsWith(s: string, t: string) {
    At(s, t, 0)
  }

  /** What str.strip removes. */
  predicate IsSpace(c: char) {
    || ('\t' <= c <= '\r') || ('\U{1C}' <= c <= ' ') || c == '\U{85}' || c == '\U{A0}' || c == '\U{1680}'
    || ('\U{2000}' <= c <= '\U{200A}') || c == '\U{2028}' || c == '\U{2029}' || c == '\U{202F}' || c == '\U{205F}'
    || c == '\U{3000}'
  }

  /** White space: blank, tab and line ends among the ASCII characters, and no printing one. */
  lemma SpacesAre(c: char)
    requires c < '\U{80}'
    ensures IsSpace(c) <==> c in {' ', '\t', '\n', '\U{0B}', '\U{0C}', '\r', '\U{1C}', '\U{1D}', '\U{1E}', '\U{1F}'}
  {
  }

  function LStrip(s: string): string {
    if s != "" && IsSpace(s[0]) then LStrip(s[1..]) else s
  }

  function RStrip(s: string): string {
    if s != "" && IsSpace(s[|s| - 1]) then RStrip(s[..|s| - 1]) else s
  }

  /** str.strip. */
  function Strip(s: string): string {
    RStrip(LStrip(s))
  }

  // ----- case

  function LowerChar(c: char): char {
    if 'A' <= c <= 'Z' then c - 'A' + 'a' else c
  }

  function Lower(s: string): (r: string)
    ensures |r| == |s|
  {
    seq(|s|, i requires 0 <= i < |s| => LowerChar(s[i]))
  }

  lemma HeadTail<T>(a: seq<T>, b: seq<T>)
    requires a != []
    ensures (a + b)[0] == a[0] && (a + b)[1..] == a[1..] + b
  {
  }

  lemma DropHead<T>(s: seq<T>, i: nat)
    requires i < |s|
    ensures s[i..] == [s[i]] + s[i + 1..] && s[i..][0] == s[i] && s[i..][1..] == s[i + 1..] && s[i] in s[i..]
  {
    assert s[i..][0] == s[i];
  }

  lemma Assoc<T>(a: seq<T>, b: seq<T>, c: seq<T>)
    ensures (a + b) + c == a + (b + c)
  {
  }

  /** Stripping takes away exactly the white space at both ends. */
  lemma {:induction false} StripIs(a: string, m: string, b: string)
    requires (forall c | c in a :: IsSpace(c)) && (forall c | c in b :: IsSpace(c))
    requires m != "" && !IsSpace(m[0]) && !IsSpace(m[|m| - 1])
    ensures Strip(a + m + b) == m
  {
    LStripIs(a, m + b);
    Assoc(a, m, b);
    RStripIs(m, b);
  }

  lemma {:induction false} LStripIs(a: string, rest: string)
    requires (forall c | c in a :: IsSpace(c)) && rest != "" && !IsSpace(rest[0])
    ensures LStrip(a + rest) == rest
  {
    if a == "" {
      assert a + rest == rest;
    } else {
      assert a[0] in a && forall c | c in a[1..] :: c in a;
      hide IsSpace;
      HeadTail(a, rest);
      LStripIs(a[1..], rest);
    }
  }

  lemma {:induction false} RStripIs(m: string, b: string)
    requires (forall c | c in b :: IsSpace(c)) && m != "" && !IsSpace(m[|m| - 1])
    ensures RStrip(m + b) == m
  {
    hide IsSpace;
    if b == "" {
      assert m + b == m;
    } else {
      var n := |b| - 1;
      assert b[n] in b && forall c | c in b[..n] :: c in b;
      RStripIs(m, b[..n]);
      assert (m + b)[..|m + b| - 1] == m + b[..n];
    }
  }

  // ----- the same, without positions

  predicate IsSplit(s: string, a: string, t: string, b: string) {
    s == a + t + b
  }

  /** `t` occurs in `s`. */
  ghost predicate Occurs(s: string, t: string) {
    exists a, b :: IsSplit(s, a, t, b)
  }

  lemma OccursIsContains(s: string, t: string)
    ensures Occurs(s, t) <==> Contains(s, t)
  {
    if Contains(s, t) {
      var i: nat :| i <= |s| && At(s, t, i);
      assert IsSplit(s, s[..i], t, s[i + |t|..]);
    }
    if Occurs(s, t) {
      var a, b :| IsSplit(s, a, t, b);
      assert At(s, t, |a|);
    }
  }

  // ----- words

  /** `s` is `word`, in whatever case its ASCII letters are. */
  predicate Spells(s: string, word: string) {
    |s| == |word| && forall i | 0 <= i < |s| :: s[i] == word[i] || ('A' <= s[i] <= 'Z' && s[i] as int + 32 == word[i] as int)
  }

  predicate IsLower(word: string) {
    forall c | c in word :: !('A' <= c <= 'Z')
  }

  lemma LowerIsSpells(s: string, word: string)
    requires IsLower(word)
    ensures Lower(s) == word <==> Spells(s, word)
  {
    if Spells(s, word) {
      forall i | 0 <= i < |s| ensures Lower(s)[i] == word[i] { assert word[i] in word; }
    }
    if Lower(s) == word {
      forall i | 0 <= i < |s| ensures s[i] == word[i] || ('A' <= s[i] <= 'Z' && s[i] as int + 32 == word[i] as int) {
        assert Lower(s)[i] == word[i];
      }
    }
  }

  /** A string is its stripped middle between white space. */
  lemma StripSplits(s: string) returns (a: string, b: string)
    ensures s == a + Strip(s) + b && (forall c | c in a :: IsSpace(c)) && (forall c | c in b :: IsSpace(c))
  {
    a := LStripSplits(s);
    b := RStripSplits(LStrip(s));
    hide IsSpace, LStrip, RStrip;
    Assoc(a, Strip(s), b);
  }

  lemma {:induction false} LStripSplits(s: string) returns (a: string)
    ensures s == a + LStrip(s) && forall c | c in a :: IsSpace(c)
  {
    if s != "" && IsSpace(s[0]) {
      a := LStripSplits(s[1..]);
      hide IsSpace;
      Assoc([s[0]], a, LStrip(s[1..]));
      a := [s[0]] + a;
    } else {
      a := "";
    }
  }

  lemma {:induction false} RStripSplits(s: string) returns (b: string)
    ensures s == RStrip(s) + b && forall c | c in b :: IsSpace(c)
  {
    if s != "" && IsSpace(s[|s| - 1]) {
      b := RStripSplits(s[..|s| - 1]);
      hide IsSpace;
      Assoc(RStrip(s[..|s| - 1]), b, [s[|s| - 1]]);
      b := b + [s[|s| - 1]];
    } else {
      b := "";
    }
  }
}
