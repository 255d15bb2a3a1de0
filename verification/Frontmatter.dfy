/** Notes as the kernel's frontmatter parsers see them: the lines between the
    fences, and the body. A line is kept in the form the regular expressions of
    the source distinguish. */
module Frontmatter {
  import opened Base

  /** Top: no leading blank. Child: exactly two spaces. Deep: any other indentation. */
  datatype Indent = Top | Child | Deep

  /** `Pair` is a line that matches `key: value` after its indentation, with the
      value stripped; `Spaced` is one with blanks in front of the colon, which no reader
      takes for a pair; any other line (comment, list item, blank) is `Other`, with
      the stripped text in front of its first colon as `head`. */
  datatype Line =
    | Pair(indent: Indent, key: string, value: string)
    | Spaced(indent: Indent, key: string, value: string)
    | Other(indent: Indent, head: string, text: string)

  /** A whole text, split. A text without a closed fence has no lines and is all body. */
  datatype Note = Note(hadFm: bool, lines: seq<Line>, body: string)

  type Fields = map<string, string>

  /** A text without frontmatter. */
  function Plain(text: string): Note {
    Note(false, [], text)
  }

  function Get(fm: Fields, key: string): Option<string> {
    if key in fm then Some(fm[key]) else None
  }

  function StampKey(ln: Line): string {
    if ln.Other? then ln.head else ln.key
  }

  // ----- readers

  /** fm_top_level: the unindented pairs, a later line for a key winning. */
  function TopLevel(lines: seq<Line>): Fields {
    if lines == [] then map[]
    else
      var ln := lines[|lines| - 1];
      var before := TopLevel(lines[..|lines| - 1]);
      if ln.Pair? && ln.indent.Top? then before[ln.key := ln.value] else before
  }

  /** A top-level `metadata:` line, with or without blanks in front of the colon. */
  predicate IsMeta(ln: Line) {
    !ln.Other? && ln.indent.Top? && ln.key == "metadata"
  }

  /** The keys that a child is shadowed by, blanks in front of the colon allowed again. */
  function TopKeys(lines: seq<Line>): set<string> {
    set ln | ln in lines && !ln.Other? && ln.indent.Top? :: ln.key
  }

  function FirstMeta(lines: seq<Line>): (i: nat)
    ensures i <= |lines|
    ensures i < |lines| ==> IsMeta(lines[i])
  {
    if lines == [] || IsMeta(lines[0]) then 0 else 1 + FirstMeta(lines[1..])
  }

  /** Length of the indented block that opens `lines`. */
  function BlockLength(lines: seq<Line>): (n: nat)
    ensures n <= |lines|
  {
    if lines == [] || lines[0].indent.Top? then 0 else 1 + BlockLength(lines[1..])
  }

  /** The children to lift: not shadowed by a top-level key, first child winning. */
  function Lifted(children: seq<Line>, taken: set<string>): seq<Line> {
    if children == [] then []
    else if StampKey(children[0]) in taken then Lifted(children[1..], taken)
    else if children[0].Pair? then
      [Pair(Top, children[0].key, children[0].value)] + Lifted(children[1..], taken + {children[0].key})
    else Lifted(children[1..], taken)
  }

  /** fm_flatten_lines: lift one level of scalar children of a single top-level
      `metadata:` block; any shape beyond that leaves the lines as they are. */
  function Flatten(lines: seq<Line>): seq<Line> {
    var start := FirstMeta(lines);
    if start == |lines| || lines[start].value != "" then lines
    else
      var n := BlockLength(lines[start + 1..]);
      var children := lines[start + 1..][..n];
      var rest := lines[start + 1..][n..];
      if (exists c | c in children :: !c.Pair? || !c.indent.Child?) || FirstMeta(rest) < |rest| then lines
      else
        var taken := TopKeys(lines[..start] + rest);
        lines[..start] + Lifted(children, taken) + rest
  }

  /** fm_flat: the pairs a reader sees when nested keys count as flat. */
  function Flat(lines: seq<Line>): Fields {
    TopLevel(Flatten(lines))
  }

  // ----- the writer

  type Stamps = seq<(string, Option<string>)>

  function StampedKeys(kv: Stamps): set<string> {
    set i | 0 <= i < |kv| :: kv[i].0
  }

  /** The lines whose key is not being stamped, at any indentation. */
  function Kept(lines: seq<Line>, keys: set<string>): (r: seq<Line>)
    ensures forall ln :: ln in r ==> ln in lines && StampKey(ln) !in keys
  {
    if lines == [] then []
    else (if StampKey(lines[0]) in keys then [] else [lines[0]]) + Kept(lines[1..], keys)
  }

  function Added(kv: Stamps): seq<Line> {
    if kv == [] then []
    else (if kv[0].1.Some? then [Pair(Top, kv[0].0, kv[0].1.value)] else []) + Added(kv[1..])
  }

  lemma {:induction false} AddedAreStamped(kv: Stamps)
    ensures forall ln :: ln in Added(kv) ==> StampKey(ln) in StampedKeys(kv)
  {
    if kv != [] {
      AddedAreStamped(kv[1..]);
      forall i | 0 <= i < |kv[1..]| ensures kv[1..][i].0 in StampedKeys(kv) {
        assert kv[1..][i] == kv[i + 1];
      }
      assert kv[0].0 in StampedKeys(kv);
    }
  }

  /** stamp_fm: drop every line for a stamped key, append the keys that have a value. */
  function Stamp(n: Note, kv: Stamps): Note {
    if !n.hadFm && Added(kv) == [] then n
    else Note(true, Kept(n.lines, StampedKeys(kv)) + Added(kv), n.body)
  }

  // ----- what the writer promises its readers

  lemma {:induction false} TopLevelAppend(a: seq<Line>, b: seq<Line>)
    ensures TopLevel(a + b) == TopLevel(a) + TopLevel(b)
    decreases |b|
  {
    if b == [] {
      assert a + b == a;
    } else {
      var n := |b| - 1;
      TopLevelAppend(a, b[..n]);
      assert (a + b)[..|a + b| - 1] == a + b[..n];
      assert (a + b)[|a + b| - 1] == b[n];
    }
  }

  lemma {:induction false} TopLevelAt(ln: Line, rest: seq<Line>)
    ensures TopLevel([ln] + rest) ==
            (if ln.Pair? && ln.indent.Top? then map[ln.key := ln.value] else map[]) + TopLevel(rest)
  {
    TopLevelAppend([ln], rest);
    assert [ln][..0] == [];
  }

  lemma {:induction false} KeptTopLevel(lines: seq<Line>, keys: set<string>, k: string)
    ensures Get(TopLevel(Kept(lines, keys)), k) == if k in keys then None else Get(TopLevel(lines), k)
  {
    if lines != [] {
      var ln, rest := lines[0], lines[1..];
      KeptTopLevel(rest, keys, k);
      assert lines == [ln] + rest;
      TopLevelAt(ln, rest);
      if StampKey(ln) in keys {
        assert Kept(lines, keys) == Kept(rest, keys);
      } else {
        assert Kept(lines, keys) == [ln] + Kept(rest, keys);
        TopLevelAt(ln, Kept(rest, keys));
      }
    }
  }

  ghost predicate DistinctKeys(kv: Stamps) {
    forall i, j | 0 <= i < j < |kv| :: kv[i].0 != kv[j].0
  }

  lemma {:induction false} AddedTopLevel(kv: Stamps, k: string)
    requires DistinctKeys(kv)
    ensures forall i | 0 <= i < |kv| && kv[i].0 == k :: Get(TopLevel(Added(kv)), k) == kv[i].1
    ensures k !in StampedKeys(kv) ==> k !in TopLevel(Added(kv))
  {
    if kv != [] {
      AddedTopLevel(kv[1..], k);
      forall i | 0 <= i < |kv[1..]| && kv[1..][i].0 == k ensures k in StampedKeys(kv) {
        assert kv[1..][i] == kv[i + 1];
      }
      if kv[0].1.Some? {
        TopLevelAt(Pair(Top, kv[0].0, kv[0].1.value), Added(kv[1..]));
      } else {
        assert [] + Added(kv[1..]) == Added(kv[1..]);
      }
      if kv[0].0 == k {
        assert k !in StampedKeys(kv[1..]);
      }
      forall i | 0 < i < |kv| && kv[i].0 == k ensures Get(TopLevel(Added(kv)), k) == kv[i].1 {
        assert kv[1..][i - 1] == kv[i];
      }
    }
  }

  /** Reading a stamped note back: a stamped key has exactly the stamped value
      (absent when the value is None), every other top-level key is as before. */
  lemma StampReadBack(n: Note, kv: Stamps, k: string)
    requires DistinctKeys(kv) && (!n.hadFm ==> n.lines == [])
    ensures forall i | 0 <= i < |kv| && kv[i].0 == k :: Get(TopLevel(Stamp(n, kv).lines), k) == kv[i].1
    ensures k !in StampedKeys(kv) ==> Get(TopLevel(Stamp(n, kv).lines), k) == Get(TopLevel(n.lines), k)
  {
    AddedTopLevel(kv, k);
    KeptTopLevel(n.lines, StampedKeys(kv), k);
    TopLevelAppend(Kept(n.lines, StampedKeys(kv)), Added(kv));
    forall i | 0 <= i < |kv| && kv[i].0 == k ensures k in StampedKeys(kv) { }
  }

  lemma {:induction false} KeptAppend(a: seq<Line>, b: seq<Line>, keys: set<string>)
    ensures Kept(a + b, keys) == Kept(a, keys) + Kept(b, keys)
  {
    if a == [] {
      assert a + b == b;
    } else {
      hide *;
      HeadTail(a, b);
      KeptAppend(a[1..], b, keys);
      KeptStep(a, keys);
      KeptStep(a + b, keys);
      Assoc(if StampKey(a[0]) in keys then [] else [a[0]], Kept(a[1..], keys), Kept(b, keys));
    }
  }

  lemma KeptStep(lines: seq<Line>, keys: set<string>)
    requires lines != []
    ensures Kept(lines, keys) == (if StampKey(lines[0]) in keys then [] else [lines[0]]) + Kept(lines[1..], keys)
  {
  }

  lemma {:induction false} KeptAll(lines: seq<Line>, keys: set<string>)
    requires forall ln :: ln in lines ==> StampKey(ln) !in keys
    ensures Kept(lines, keys) == lines
  {
    if lines != [] { KeptAll(lines[1..], keys); }
  }

  lemma {:induction false} KeptNone(lines: seq<Line>, keys: set<string>)
    requires forall ln :: ln in lines ==> StampKey(ln) in keys
    ensures Kept(lines, keys) == []
  {
    if lines != [] { KeptNone(lines[1..], keys); }
  }

  /** Stamping is idempotent, as its documentation promises. */
  lemma StampIdempotent(n: Note, kv: Stamps)
    ensures Stamp(Stamp(n, kv), kv) == Stamp(n, kv)
  {
    var keys, kept := StampedKeys(kv), Kept(n.lines, StampedKeys(kv));
    if n.hadFm || Added(kv) != [] {
      KeptAppend(kept, Added(kv), keys);
      KeptAll(kept, keys);
      AddedAreStamped(kv);
      KeptNone(Added(kv), keys);
      assert kept + [] == kept;
    }
  }

  // ----- what the readers read

  /** Line `i` is the last top-level pair of its key. */
  predicate IsLastOf(lines: seq<Line>, i: nat, k: string) {
    && i < |lines| && IsTopPair(lines[i], k)
    && forall j | i < j < |lines| :: !IsTopPair(lines[j], k)
  }

  predicate IsTopPair(ln: Line, k: string) {
    ln.Pair? && ln.indent.Top? && ln.key == k
  }

  /** A key reads as its last unindented pair says, and not at all without one. */
  lemma {:induction false} TopLevelIs(lines: seq<Line>, k: string)
    ensures forall i: nat | IsLastOf(lines, i, k) :: Get(TopLevel(lines), k) == Some(lines[i].value)
    ensures (forall i | 0 <= i < |lines| :: !IsTopPair(lines[i], k)) ==> Get(TopLevel(lines), k) == None
  {
    if lines != [] {
      var n := |lines| - 1;
      TopLevelStep(lines, k);
      hide TopLevel, IsTopPair;
      TopLevelIs(lines[..n], k);
      assert forall j | 0 <= j < n :: lines[..n][j] == lines[j];
      forall i: nat | IsLastOf(lines, i, k) ensures Get(TopLevel(lines), k) == Some(lines[i].value) {
        if i < n { assert IsLastOf(lines[..n], i, k); }
      }
    }
  }

  lemma TopLevelStep(lines: seq<Line>, k: string)
    requires lines != []
    ensures var n := |lines| - 1;
      Get(TopLevel(lines), k) == if IsTopPair(lines[n], k) then Some(lines[n].value) else Get(TopLevel(lines[..n]), k)
  {
  }

  /** Line `i` is the first of the children with the key. */
  predicate IsFirstOf(lines: seq<Line>, i: nat, k: string) {
    i < |lines| && lines[i].Pair? && lines[i].key == k && forall j | 0 <= j < i :: !(lines[j].Pair? && lines[j].key == k)
  }

  lemma {:induction false} LiftedReads(c: seq<Line>, taken: set<string>, k: string)
    requires forall ln | ln in c :: ln.Pair?
    ensures k in taken ==> k !in TopLevel(Lifted(c, taken))
    ensures forall i: nat | IsFirstOf(c, i, k) && k !in taken :: Get(TopLevel(Lifted(c, taken)), k) == Some(c[i].value)
    ensures (forall ln | ln in c :: ln.key != k) ==> k !in TopLevel(Lifted(c, taken))
  {
    if c != [] {
      assert c[0] in c && forall ln | ln in c[1..] :: ln in c;
      var rest := if c[0].key in taken then taken else taken + {c[0].key};
      LiftedReads(c[1..], rest, k);
      if c[0].key !in taken {
        TopLevelAt(Pair(Top, c[0].key, c[0].value), Lifted(c[1..], rest));
      }
      forall i: nat | IsFirstOf(c, i, k) && k !in taken ensures Get(TopLevel(Lifted(c, taken)), k) == Some(c[i].value) {
        if i > 0 {
          assert c[1..][i - 1] == c[i] && forall j | 0 <= j < i - 1 :: c[1..][j] == c[j + 1];
          assert IsFirstOf(c[1..], i - 1, k);
        }
      }
    }
  }

  lemma {:induction false} NoMetaBefore(a: seq<Line>, m: Line, b: seq<Line>)
    requires (forall ln | ln in a :: !IsMeta(ln)) && IsMeta(m)
    ensures FirstMeta(a + ([m] + b)) == |a|
  {
    hide IsMeta;
    if a == [] {
      assert a + ([m] + b) == [m] + b;
    } else {
      assert a[0] in a && forall ln | ln in a[1..] :: ln in a;
      HeadTail(a, [m] + b);
      NoMetaBefore(a[1..], m, b);
    }
  }

  lemma {:induction false} NoMeta(a: seq<Line>)
    ensures FirstMeta(a) == |a| <==> forall ln | ln in a :: !IsMeta(ln)
  {
    hide IsMeta;
    if a != [] && !IsMeta(a[0]) {
      NoMeta(a[1..]);
      assert forall ln :: ln in a <==> ln == a[0] || ln in a[1..];
    }
  }

  lemma {:induction false} BlockIs(c: seq<Line>, rest: seq<Line>)
    requires (forall ln | ln in c :: !ln.indent.Top?) && (rest == [] || rest[0].indent.Top?)
    ensures BlockLength(c + rest) == |c|
  {
    if c == [] {
      assert c + rest == rest;
    } else {
      assert c[0] in c && forall ln | ln in c[1..] :: ln in c;
      HeadTail(c, rest);
      BlockIs(c[1..], rest);
    }
  }

  /** One block of plain children under a bare `metadata:` reads as if it were flat: the
      top-level line of a key wins, then the first child. */
  lemma FlatReads(a: seq<Line>, m: Line, c: seq<Line>, rest: seq<Line>, k: string)
    requires m == Pair(Top, "metadata", "") || m == Spaced(Top, "metadata", "")
    requires (forall ln | ln in a :: !IsMeta(ln)) && (forall ln | ln in rest :: !IsMeta(ln))
    requires (forall ln | ln in c :: ln.Pair? && ln.indent.Child?) && (rest == [] || rest[0].indent.Top?)
    ensures var fm := Flat(a + ([m] + (c + rest)));
      if exists ln | ln in a + rest :: !ln.Other? && ln.indent.Top? && ln.key == k then Get(fm, k) == Get(TopLevel(a + rest), k)
      else
        && (forall i: nat | IsFirstOf(c, i, k) :: Get(fm, k) == Some(c[i].value))
        && ((forall ln | ln in c :: ln.key != k) ==> Get(fm, k) == None)
  {
    var taken := TopKeys(a + rest);
    FlatShape(a, m, c, rest);
    LiftedReads(c, taken, k);
    TopLevelAppend(a + Lifted(c, taken), rest);
    TopLevelAppend(a, Lifted(c, taken));
    TopLevelAppend(a, rest);
    hide Flatten, Lifted;
    NotTopNotRead(a + rest, k);
    assert k in taken <==> exists ln | ln in a + rest :: !ln.Other? && ln.indent.Top? && ln.key == k;
  }

  lemma NotTopNotRead(lines: seq<Line>, k: string)
    ensures k !in TopKeys(lines) ==> k !in TopLevel(lines)
  {
    TopLevelIs(lines, k);
    if k !in TopKeys(lines) {
      assert forall i | 0 <= i < |lines| :: lines[i] in lines && !IsTopPair(lines[i], k);
    }
  }

  lemma FlatShape(a: seq<Line>, m: Line, c: seq<Line>, rest: seq<Line>)
    requires (forall ln | ln in a :: !IsMeta(ln)) && IsMeta(m) && m.value == "" && (forall ln | ln in rest :: !IsMeta(ln))
    requires (forall ln | ln in c :: ln.Pair? && ln.indent.Child?) && (rest == [] || rest[0].indent.Top?)
    ensures Flatten(a + ([m] + (c + rest))) == a + Lifted(c, TopKeys(a + rest)) + rest
  {
    var lines := a + ([m] + (c + rest));
    NoMetaBefore(a, m, c + rest);
    BlockIs(c, rest);
    NoMeta(rest);
    hide FirstMeta, BlockLength, Lifted, TopKeys;
    assert lines[|a|] == m && lines[|a| + 1..] == c + rest && lines[..|a|] == a;
    assert (c + rest)[..|c|] == c && (c + rest)[|c|..] == rest;
  }

  /** Any other shape is read as it stands: an inline value, a child that is not a plain
      pair, a second block. */
  lemma FlatFailsClosed(a: seq<Line>, m: Line, c: seq<Line>, rest: seq<Line>)
    requires !m.Other? && (m == Pair(Top, "metadata", m.value) || m == Spaced(Top, "metadata", m.value))
    requires forall ln | ln in a :: !IsMeta(ln)
    requires (forall ln | ln in c :: !ln.indent.Top?) && (rest == [] || rest[0].indent.Top?)
    requires m.value != "" || (exists ln | ln in c :: !ln.Pair? || !ln.indent.Child?) || (exists ln | ln in rest :: IsMeta(ln))
    ensures Flat(a + ([m] + (c + rest))) == TopLevel(a + ([m] + (c + rest)))
  {
    var lines := a + ([m] + (c + rest));
    NoMetaBefore(a, m, c + rest);
    BlockIs(c, rest);
    NoMeta(rest);
    hide FirstMeta, BlockLength, Lifted, TopKeys;
    assert lines[|a|] == m && lines[|a| + 1..] == c + rest;
    assert (c + rest)[..|c|] == c && (c + rest)[|c|..] == rest;
  }

  /** Without a metadata line the flat reading is the plain one. */
  lemma FlatOfFlat(lines: seq<Line>)
    requires forall ln | ln in lines :: !IsMeta(ln)
    ensures Flat(lines) == TopLevel(lines)
  {
    NoMeta(lines);
  }

  /** Stamping drops the lines of the stamped keys, at any indentation, keeps every other one
      and the body, and adds a line for each key with a value. */
  lemma StampHolds(n: Note, kv: Stamps, ln: Line)
    requires !n.hadFm ==> n.lines == []
    ensures ln in Stamp(n, kv).lines <==>
      || (ln in n.lines && !exists i | 0 <= i < |kv| :: kv[i].0 == if ln.Other? then ln.head else ln.key)
      || (exists i | 0 <= i < |kv| :: kv[i].1.Some? && ln == Pair(Top, kv[i].0, kv[i].1.value))
    ensures Stamp(n, kv).body == n.body
  {
    KeptHolds(n.lines, StampedKeys(kv), ln);
    AddedHolds(kv, ln);
    hide Kept, Added;
  }

  lemma {:induction false} KeptHolds(lines: seq<Line>, keys: set<string>, ln: Line)
    ensures ln in Kept(lines, keys) <==> ln in lines && StampKey(ln) !in keys
  {
    hide StampKey;
    if lines != [] {
      KeptHolds(lines[1..], keys, ln);
      assert ln in lines <==> ln == lines[0] || ln in lines[1..];
    }
  }

  lemma {:induction false} AddedHolds(kv: Stamps, ln: Line)
    ensures ln in Added(kv) <==> exists i | 0 <= i < |kv| :: kv[i].1.Some? && ln == Pair(Top, kv[i].0, kv[i].1.value)
  {
    if kv != [] {
      AddedHolds(kv[1..], ln);
      if i :| 0 <= i < |kv| && kv[i].1.Some? && ln == Pair(Top, kv[i].0, kv[i].1.value) {
        if i > 0 { assert kv[1..][i - 1] == kv[i]; }
      }
      if i :| 0 <= i < |kv[1..]| && kv[1..][i].1.Some? && ln == Pair(Top, kv[1..][i].0, kv[1..][i].1.value) {
        assert kv[i + 1] == kv[1..][i];
      }
    }
  }
}
