/** BM25 over a small corpus, twice: through a postings map (bench/memsom_vs_improved.py)
    and directly per document (bench/prefix_probe.py). Reals stand for the floats, and the
    logarithm is a parameter. */
module Bm25 {

  type Doc = seq<string>
  type Counts = map<string, nat>
  type Postings = map<string, map<nat, nat>>

  const K1 := 1.2
  const B := 0.75

  // ----- the formula

  function Count(w: string, toks: Doc): nat {
    if toks == [] then 0 else Count(w, toks[..|toks| - 1]) + if toks[|toks| - 1] == w then 1 else 0
  }

  /** In how many documents the term occurs. */
  function Df(w: string, docs: seq<Doc>): (n: nat)
    ensures n <= |docs|
  {
    if docs == [] then 0 else Df(w, docs[..|docs| - 1]) + if Count(w, docs[|docs| - 1]) > 0 then 1 else 0
  }

  function Total(docs: seq<Doc>): nat {
    if docs == [] then 0 else Total(docs[..|docs| - 1]) + |docs[|docs| - 1]|
  }

  function Avgdl(docs: seq<Doc>): real {
    if docs == [] then 0.0 else Total(docs) as real / |docs| as real
  }

  function IdfOf(n: nat, df: nat, log: real -> real): real {
    log((n as real - df as real + 0.5) / (df as real + 0.5) + 1.0)
  }

  function Idf(w: string, docs: seq<Doc>, log: real -> real): real {
    IdfOf(|docs|, Df(w, docs), log)
  }

  function Denom(f: nat, len: real, avgdl: real): real
    requires avgdl > 0.0
  {
    f as real + K1 * (1.0 - B + B * len / avgdl)
  }

  lemma DenomIsAtLeast(f: nat, len: real, avgdl: real)
    requires avgdl > 0.0 && len >= 0.0
    ensures Denom(f, len, avgdl) > f as real
  {
    assert B * len / avgdl >= 0.0;
  }

  /** What one query term adds to the score of one document. */
  ghost function Term(w: string, docs: seq<Doc>, i: nat, log: real -> real): real
    requires i < |docs|
  {
    var f := Count(w, docs[i]);
    if f == 0 || Avgdl(docs) <= 0.0 then 0.0
    else
      DenomIsAtLeast(f, |docs[i]| as real, Avgdl(docs));
      Idf(w, docs, log) * (f as real * (K1 + 1.0)) / Denom(f, |docs[i]| as real, Avgdl(docs))
  }

  /** The score of a document: the sum over the set of query terms, in no order. */
  ghost function Score(query: set<string>, docs: seq<Doc>, i: nat, log: real -> real): real
    requires i < |docs|
  {
    if query == {} then 0.0
    else
      var w :| w in query;
      Term(w, docs, i, log) + Score(query - {w}, docs, i, log)
  }

  /** Any term may be taken first. */
  lemma {:induction false} AnyTermFirst(query: set<string>, docs: seq<Doc>, i: nat, log: real -> real, w: string)
    requires i < |docs| && w in query
    ensures Score(query, docs, i, log) == Term(w, docs, i, log) + Score(query - {w}, docs, i, log)
    decreases query
  {
    hide Term;
    var v :| v in query && Score(query, docs, i, log) == Term(v, docs, i, log) + Score(query - {v}, docs, i, log);
    if v != w {
      AnyTermFirst(query - {v}, docs, i, log, w);
      AnyTermFirst(query - {w}, docs, i, log, v);
      assert query - {v} - {w} == query - {w} - {v};
    }
  }

  // ----- counting

  /** The term counts of one document, as both programs build them. */
  method CountTokens(toks: Doc) returns (tf: Counts)
    ensures forall w :: w in tf <==> Count(w, toks) > 0
    ensures forall w | w in tf :: tf[w] == Count(w, toks)
  {
    tf := map[];
    for k := 0 to |toks|
      invariant forall w :: w in tf <==> Count(w, toks[..k]) > 0
      invariant forall w | w in tf :: tf[w] == Count(w, toks[..k])
    {
      assert toks[..k + 1][..k] == toks[..k];
      tf := tf[toks[k] := (if toks[k] in tf then tf[toks[k]] else 0) + 1];
    }
    assert toks[..|toks|] == toks;
  }

  predicate Posted(p: Postings, w: string, i: nat) {
    w in p && i in p[w]
  }

  /** The map lists for every term the first `k` documents it occurs in, with its count. */
  ghost predicate PostingsOf(p: Postings, docs: seq<Doc>, k: nat)
    requires k <= |docs|
  {
    && (forall w, i: nat :: Posted(p, w, i) <==> i < k && Count(w, docs[i]) > 0)
    && (forall w, i: nat | Posted(p, w, i) :: p[w][i] == Count(w, docs[i]))
    && (forall w | w in p :: p[w] != map[])
  }

  /** Entering one document's counts. */
  method PostDocument(p0: Postings, i: nat, tf: Counts) returns (p: Postings)
    requires forall w :: !Posted(p0, w, i)
    requires forall w | w in p0 :: p0[w] != map[]
    ensures forall w, j: nat :: Posted(p, w, j) <==> Posted(p0, w, j) || (j == i && w in tf)
    ensures forall w | w in tf :: Posted(p, w, i) && p[w][i] == tf[w]
    ensures forall w, j: nat | j != i && Posted(p0, w, j) :: Posted(p, w, j) && p[w][j] == p0[w][j]
    ensures forall w | w in p :: p[w] != map[]
  {
    p := p0;
    var left := tf.Keys;
    while left != {}
      invariant left <= tf.Keys
      invariant forall w, j: nat :: Posted(p, w, j) <==> Posted(p0, w, j) || (j == i && w in tf.Keys - left)
      invariant forall w | w in tf.Keys - left :: Posted(p, w, i) && p[w][i] == tf[w]
      invariant forall w, j: nat | j != i && Posted(p0, w, j) :: Posted(p, w, j) && p[w][j] == p0[w][j]
      invariant forall w | w in p :: p[w] != map[]
    {
      var w :| w in left;
      ghost var before := p;
      var row: map<nat, nat> := if w in p then p[w] else map[];
      p := p[w := row[i := tf[w]]];
      left := left - {w};
      PostedOne(before, p, w, i);
    }
  }

  lemma PostedOne(before: Postings, p: Postings, w: string, i: nat)
    requires w in p && (forall v | v != w :: (v in p <==> v in before) && (v in p ==> p[v] == before[v]))
    requires i in p[w] && forall j: nat | j != i :: j in p[w] <==> Posted(before, w, j)
    ensures forall v, j: nat :: Posted(p, v, j) <==> Posted(before, v, j) || (j == i && v == w)
    ensures p[w] != map[]
  {
    assert i in p[w];
  }

  // ----- the inverted index

  lemma TotalStep(docs: seq<Doc>, k: nat)
    requires k < |docs|
    ensures Total(docs[..k + 1]) == Total(docs[..k]) + |docs[k]|
  {
    assert docs[..k + 1][..k] == docs[..k];
  }

  /** The documents a term is posted for. */
  ghost function Holding(w: string, docs: seq<Doc>): set<nat> {
    set i: nat | i < |docs| && Count(w, docs[i]) > 0
  }

  lemma {:induction false} HoldingHasDf(w: string, docs: seq<Doc>)
    ensures |Holding(w, docs)| == Df(w, docs)
  {
    if docs != [] {
      var n := |docs| - 1;
      HoldingHasDf(w, docs[..n]);
      hide Count, Df;
      assert Holding(w, docs) == Holding(w, docs[..n]) + if Count(w, docs[n]) > 0 then {n} else {};
      DfStep(w, docs);
    }
  }

  lemma DfStep(w: string, docs: seq<Doc>)
    requires docs != []
    ensures Df(w, docs) == Df(w, docs[..|docs| - 1]) + if Count(w, docs[|docs| - 1]) > 0 then 1 else 0
  {
  }

  lemma PostedHasDf(p: Postings, docs: seq<Doc>, w: string)
    requires PostingsOf(p, docs, |docs|)
    ensures w in p ==> |p[w]| == Df(w, docs)
    ensures w in p <==> Df(w, docs) > 0
  {
    HoldingHasDf(w, docs);
    hide Count, Df;
    if w in p {
      assert p[w].Keys == Holding(w, docs) by {
        forall i: nat ensures i in p[w].Keys <==> i in Holding(w, docs) { assert Posted(p, w, i) <==> i in p[w]; }
      }
      assert |p[w].Keys| == |p[w]|;
      assert p[w].Keys != {};
    } else {
      forall i: nat ensures i !in Holding(w, docs) { assert !Posted(p, w, i); }
    }
  }

  /** build_bm25. */
  method BuildBm25(docs: seq<Doc>, log: real -> real)
    returns (postings: Postings, doclen: array<real>, avgdl: real, idf: map<string, real>)
    ensures PostingsOf(postings, docs, |docs|)
    ensures fresh(doclen) && doclen.Length == |docs|
    ensures forall i | 0 <= i < |docs| :: doclen[i] == |docs[i]| as real
    ensures avgdl == Avgdl(docs)
    ensures idf.Keys == postings.Keys && forall w | w in idf :: idf[w] == Idf(w, docs, log)
  {
    postings, doclen := map[], new real[|docs|];
    var total := 0;
    for i := 0 to |docs|
      invariant PostingsOf(postings, docs, i)
      invariant forall j | 0 <= j < i :: doclen[j] == |docs[j]| as real
      invariant total == Total(docs[..i])
    {
      doclen[i] := |docs[i]| as real;
      var tf := CountTokens(docs[i]);
      postings := PostDocument(postings, i, tf);
      TotalStep(docs, i);
      total := total + |docs[i]|;
    }
    assert docs[..|docs|] == docs;
    avgdl := if docs == [] then 0.0 else total as real / |docs| as real;
    idf := IdfTable(postings, docs, log);
  }

  method IdfTable(postings: Postings, docs: seq<Doc>, log: real -> real) returns (idf: map<string, real>)
    requires PostingsOf(postings, docs, |docs|)
    ensures idf.Keys == postings.Keys && forall w | w in idf :: idf[w] == Idf(w, docs, log)
  {
    idf := map[];
    var left := postings.Keys;
    while left != {}
      invariant left <= postings.Keys && idf.Keys == postings.Keys - left
      invariant forall w | w in idf :: idf[w] == Idf(w, docs, log)
    {
      var w :| w in left;
      PostedHasDf(postings, docs, w);
      hide PostingsOf, Df, IdfOf;
      idf := idf[w := IdfOf(|docs|, |postings[w]|, log)];
      left := left - {w};
    }
  }

  lemma {:induction false} EmptyCorpus(docs: seq<Doc>)
    requires Total(docs) == 0
    ensures forall i | 0 <= i < |docs| :: docs[i] == []
  {
    if docs != [] {
      EmptyCorpus(docs[..|docs| - 1]);
      assert forall i | 0 <= i < |docs| - 1 :: docs[..|docs| - 1][i] == docs[i];
    }
  }

  lemma AvgdlSign(docs: seq<Doc>)
    ensures Avgdl(docs) >= 0.0
    ensures Avgdl(docs) == 0.0 ==> Total(docs) == 0
  {
    if docs != [] {
      var t, n := Total(docs) as real, |docs| as real;
      assert t / n * n == t;
    }
  }

  /** Without tokens nothing scores. */
  lemma {:induction false} NothingScores(query: set<string>, docs: seq<Doc>, i: nat, log: real -> real)
    requires i < |docs| && (Avgdl(docs) == 0.0 || query == {})
    ensures Score(query, docs, i, log) == 0.0
    decreases query
  {
    if query != {} {
      var w :| w in query;
      AnyTermFirst(query, docs, i, log, w);
      NothingScores(query - {w}, docs, i, log);
    }
  }

  ghost predicate Scores(s: seq<real>, query: set<string>, docs: seq<Doc>, log: real -> real) {
    |s| == |docs| && forall i | 0 <= i < |docs| :: s[i] == Score(query, docs, i, log)
  }

  /** bm25_scores: accumulate through the postings, the query terms and a term's postings
      taken in any order. */
  method Bm25Scores(query: set<string>, postings: Postings, doclen: array<real>, avgdl: real, idf: map<string, real>,
      n: nat, ghost docs: seq<Doc>, log: real -> real) returns (s: array<real>)
    requires PostingsOf(postings, docs, |docs|) && n == |docs| == doclen.Length
    requires forall i | 0 <= i < n :: doclen[i] == |docs[i]| as real
    requires avgdl == Avgdl(docs)
    requires idf.Keys == postings.Keys && forall w | w in idf :: idf[w] == Idf(w, docs, log)
    ensures fresh(s) && Scores(s[..], query, docs, log)
  {
    hide Score, Term, Avgdl, Idf, Df, Count;
    s := new real[n](_ => 0.0);
    AvgdlSign(docs);
    if avgdl == 0.0 {
      forall i | 0 <= i < n ensures Score(query, docs, i, log) == 0.0 { NothingScores(query, docs, i, log); }
      return;
    }
    forall i | 0 <= i < n ensures Score({}, docs, i, log) == 0.0 { NothingScores({}, docs, i, log); }
    var left := query;
    assert query - left == {};
    while left != {}
      invariant left <= query
      invariant forall i | 0 <= i < n :: s[i] == Score(query - left, docs, i, log)
    {
      var w :| w in left;
      ghost var done := query - left;
      assert query - (left - {w}) == done + {w} && done + {w} - {w} == done;
      forall i | 0 <= i < n ensures Score(done + {w}, docs, i, log) == Term(w, docs, i, log) + Score(done, docs, i, log) {
        AnyTermFirst(done + {w}, docs, i, log, w);
      }
      if w in postings {
        PostedRow(postings, docs, w);
        AddTerm(s, w, postings[w], idf[w], doclen, avgdl, docs, log);
      } else {
        forall i | 0 <= i < n ensures Term(w, docs, i, log) == 0.0 { NotPosted(postings, w, docs, i, log); }
      }
      left := left - {w};
    }
    assert query - left == query;
  }

  lemma PostedRow(p: Postings, docs: seq<Doc>, w: string)
    requires PostingsOf(p, docs, |docs|) && w in p
    ensures forall i: nat :: i in p[w] <==> i < |docs| && Count(w, docs[i]) > 0
    ensures forall i: nat | i in p[w] :: p[w][i] == Count(w, docs[i])
  {
    hide Count;
    forall i: nat
      ensures i in p[w] <==> i < |docs| && Count(w, docs[i]) > 0
      ensures i in p[w] ==> p[w][i] == Count(w, docs[i])
    {
      assert Posted(p, w, i) <==> i in p[w];
    }
  }

  lemma NotPosted(p: Postings, w: string, docs: seq<Doc>, i: nat, log: real -> real)
    requires PostingsOf(p, docs, |docs|) && i < |docs| && !Posted(p, w, i)
    ensures Term(w, docs, i, log) == 0.0
  {
  }

  lemma PostedTerm(w: string, docs: seq<Doc>, i: nat, log: real -> real, len: real)
    requires i < |docs| && Count(w, docs[i]) > 0 && Avgdl(docs) > 0.0 && len == |docs[i]| as real
    ensures Denom(Count(w, docs[i]), len, Avgdl(docs)) > 0.0
    ensures var f := Count(w, docs[i]);
      Idf(w, docs, log) * ((f as real * (K1 + 1.0)) / Denom(f, len, Avgdl(docs))) == Term(w, docs, i, log)
    ensures var f := Count(w, docs[i]);
      Idf(w, docs, log) * (f as real * (K1 + 1.0)) / Denom(f, len, Avgdl(docs)) == Term(w, docs, i, log)
  {
    hide Count, Idf, Avgdl, Denom;
    var f := Count(w, docs[i]);
    DenomIsAtLeast(f, len, Avgdl(docs));
    Regroup(Idf(w, docs, log), f as real * (K1 + 1.0), Denom(f, len, Avgdl(docs)));
  }

  lemma Regroup(a: real, b: real, d: real)
    requires d > 0.0
    ensures a * (b / d) == a * b / d
  {
    assert b / d * d == b;
    assert a * (b / d) * d == a * b;
  }

  /** The inner loop of bm25_scores: one term, over its postings. */
  method AddTerm(s: array<real>, w: string, posted: map<nat, nat>, wid: real, doclen: array<real>, avgdl: real,
      ghost docs: seq<Doc>, log: real -> real)
    requires s != doclen && s.Length == doclen.Length == |docs|
    requires forall i: nat :: i in posted <==> i < |docs| && Count(w, docs[i]) > 0
    requires forall i: nat | i in posted :: posted[i] == Count(w, docs[i])
    requires forall i | 0 <= i < |docs| :: doclen[i] == |docs[i]| as real
    requires avgdl == Avgdl(docs) > 0.0 && wid == Idf(w, docs, log)
    modifies s
    ensures forall i | 0 <= i < |docs| :: s[i] == Term(w, docs, i, log) + old(s[i])
  {
    hide Term, Avgdl, Idf, Df, Count, Denom;
    var left := posted.Keys;
    while left != {}
      invariant left <= posted.Keys
      invariant forall i | 0 <= i < |docs| ::
        s[i] == (if i in posted.Keys - left then Term(w, docs, i, log) else 0.0) + old(s[i])
    {
      var i :| i in left;
      PostedTerm(w, docs, i, log, doclen[i]);
      var tfNorm := (posted[i] as real * (K1 + 1.0)) / Denom(posted[i], doclen[i], avgdl);
      s[i] := s[i] + wid * tfNorm;
      left := left - {i};
    }
    forall i | 0 <= i < |docs| && i !in posted ensures Term(w, docs, i, log) == 0.0 { NoCount(w, docs, i, log); }
  }

  lemma NoCount(w: string, docs: seq<Doc>, i: nat, log: real -> real)
    requires i < |docs| && Count(w, docs[i]) == 0
    ensures Term(w, docs, i, log) == 0.0
  {
  }

  // ----- the direct computation

  method CountHolding(tf: seq<Counts>, w: string, docs: seq<Doc>) returns (df: nat)
    requires |tf| == |docs|
    requires forall i | 0 <= i < |docs| :: w in tf[i] <==> Count(w, docs[i]) > 0
    ensures df == Df(w, docs)
  {
    hide Count;
    df := 0;
    for i := 0 to |tf|
      invariant df == Df(w, docs[..i])
    {
      DfStep(w, docs[..i + 1]);
      assert docs[..i + 1][..i] == docs[..i];
      df := df + if w in tf[i] then 1 else 0;
    }
    assert docs[..|docs|] == docs;
  }

  /** Higher scores first; documents of equal score keep their order. */
  predicate Ahead(a: (nat, real), b: (nat, real)) {
    a.1 > b.1 || (a.1 == b.1 && a.0 < b.0)
  }

  predicate InOrder(ranked: seq<(nat, real)>) {
    forall k, m | 0 <= k < m < |ranked| :: Ahead(ranked[k], ranked[m])
  }

  /** `ranked` has every document once, with its score, in that order. */
  ghost predicate Ranks(ranked: seq<(nat, real)>, scores: seq<real>) {
    && |ranked| == |scores| && InOrder(ranked)
    && forall e :: e in ranked <==> e.0 < |scores| && e.1 == scores[e.0]
  }

  /** The stable sort of enumerate(scores), highest first. */
  method RankAll(scores: seq<real>) returns (ranked: seq<(nat, real)>)
    ensures Ranks(ranked, scores)
  {
    ranked := [];
    for i := 0 to |scores|
      invariant Ranks(ranked, scores[..i])
    {
      var at := i;
      while at > 0 && ranked[at - 1].1 < scores[i]
        invariant 0 <= at <= i
        invariant forall k | at <= k < i :: Ahead((i, scores[i]), ranked[k])
      {
        at := at - 1;
      }
      PlacedAt(ranked, scores, i, at);
      ranked := ranked[..at] + [(i, scores[i])] + ranked[at..];
    }
    assert scores[..|scores|] == scores;
  }

  lemma PlacedAt(ranked: seq<(nat, real)>, scores: seq<real>, i: nat, at: nat)
    requires i < |scores| && Ranks(ranked, scores[..i]) && at <= i
    requires (forall k | at <= k < i :: Ahead((i, scores[i]), ranked[k])) && (at > 0 ==> ranked[at - 1].1 >= scores[i])
    ensures Ranks(ranked[..at] + [(i, scores[i])] + ranked[at..], scores[..i + 1])
  {
    var x := (i, scores[i]);
    var a, b := ranked[..at], ranked[at..];
    assert a + b == ranked;
    assert at > 0 ==> ranked[at - 1] in ranked;
    forall k | 0 <= k < at ensures Ahead(ranked[k], x) {
      if k < at - 1 { assert Ahead(ranked[k], ranked[at - 1]); }
    }
    Between(a, x, b);
    hide InOrder, Ahead;
    forall e: (nat, real) ensures e in a + [x] + b <==> e.0 < i + 1 && e.1 == scores[..i + 1][e.0] {
      assert e in a + b <==> e.0 < i && e.1 == scores[..i][e.0];
    }
  }

  lemma Between(a: seq<(nat, real)>, x: (nat, real), b: seq<(nat, real)>)
    requires InOrder(a + b) && (forall k | 0 <= k < |a| :: Ahead(a[k], x)) && (forall k | 0 <= k < |b| :: Ahead(x, b[k]))
    ensures InOrder(a + [x] + b)
  {
    hide Ahead;
    var q := a + [x] + b;
    forall k, m | 0 <= k < m < |q| ensures Ahead(q[k], q[m]) {
      if k != |a| && m != |a| {
        assert Ahead((a + b)[if k < |a| then k else k - 1], (a + b)[if m < |a| then m else m - 1]);
      }
    }
  }

  /** A corpus is ranked in one way only. */
  lemma {:induction false} RankingUnique(p: seq<(nat, real)>, q: seq<(nat, real)>)
    requires InOrder(p) && InOrder(q) && forall e :: e in p <==> e in q
    ensures p == q
    decreases |p|
  {
    BothEmpty(p, q);
    if p != [] {
      assert p[0] in q && q[0] in p;
      assert p[0] == q[0];
      RankingTail(p);
      RankingTail(q);
      hide Ahead, InOrder;
      RankingUnique(p[1..], q[1..]);
      assert p == [p[0]] + p[1..] && q == [q[0]] + q[1..];
    }
  }

  lemma BothEmpty(p: seq<(nat, real)>, q: seq<(nat, real)>)
    requires forall e :: e in p <==> e in q
    ensures p == [] <==> q == []
  {
    assert (p != [] ==> p[0] in p) && (q != [] ==> q[0] in q);
  }

  lemma RankingTail(q: seq<(nat, real)>)
    requires InOrder(q) && q != []
    ensures InOrder(q[1..]) && forall e :: e in q[1..] <==> e in q && e != q[0]
  {
    forall e ensures e in q[1..] <==> e in q && e != q[0] {
      if e in q[1..] {
        var k :| 0 <= k < |q| - 1 && q[1..][k] == e;
        assert Ahead(q[0], q[k + 1]);
      }
      if e in q && e != q[0] {
        var k :| 0 <= k < |q| && q[k] == e;
        assert q[1..][k - 1] == e;
      }
    }
  }

  /** bm25_rank: every document once with its score, ranked. */
  method Bm25Rank(query: set<string>, docs: seq<Doc>, log: real -> real) returns (ranked: seq<(nat, real)>)
    ensures |ranked| == |docs| && InOrder(ranked)
    ensures forall k, m | 0 <= k < m < |ranked| ::
      ranked[k].1 > ranked[m].1 || (ranked[k].1 == ranked[m].1 && ranked[k].0 < ranked[m].0)
    ensures forall e :: e in ranked <==> e.0 < |docs| && e.1 == Score(query, docs, e.0, log)
  {
    hide Score;
    var scores := ScoreAll(query, docs, log);
    ranked := RankAll(scores[..]);
  }

  /** The scores of all documents, directly from their counts. */
  method ScoreAll(query: set<string>, docs: seq<Doc>, log: real -> real) returns (scores: array<real>)
    ensures fresh(scores) && Scores(scores[..], query, docs, log)
  {
    hide Score, Term, Idf, Df, Count;
    var n := |docs|;
    var total := 0;
    var tf: seq<Counts> := [];
    for i := 0 to n
      invariant total == Total(docs[..i]) && |tf| == i
      invariant forall j | 0 <= j < i :: forall w :: w in tf[j] <==> Count(w, docs[j]) > 0
      invariant forall j | 0 <= j < i :: forall w | w in tf[j] :: tf[j][w] == Count(w, docs[j])
    {
      var counts := CountTokens(docs[i]);
      tf := tf + [counts];
      TotalStep(docs, i);
      total := total + |docs[i]|;
    }
    assert docs[..n] == docs;
    var avgdl := if n == 0 then 0.0 else total as real / n as real;
    assert avgdl == Avgdl(docs);
    AvgdlSign(docs);
    hide Avgdl, Total;
    scores := new real[n](_ => 0.0);
    if query == {} || avgdl == 0.0 {
      forall i | 0 <= i < n ensures Score(query, docs, i, log) == 0.0 { NothingScores(query, docs, i, log); }
      return;
    }
    forall i | 0 <= i < n ensures Score({}, docs, i, log) == 0.0 { NothingScores({}, docs, i, log); }
    var left := query;
    assert query - left == {};
    while left != {}
      invariant left <= query
      invariant forall i | 0 <= i < n :: scores[i] == Score(query - left, docs, i, log)
    {
      var w :| w in left;
      ghost var done := query - left;
      assert query - (left - {w}) == done + {w} && done + {w} - {w} == done;
      forall i | 0 <= i < n ensures Score(done + {w}, docs, i, log) == Term(w, docs, i, log) + Score(done, docs, i, log) {
        AnyTermFirst(done + {w}, docs, i, log, w);
      }
      AddDirectly(scores, w, tf, avgdl, docs, log);
      left := left - {w};
    }
    assert query - left == query;
  }

  /** The inner loop of bm25_rank: one term, over all documents. */
  method AddDirectly(scores: array<real>, w: string, tf: seq<Counts>, avgdl: real, docs: seq<Doc>, log: real -> real)
    requires scores.Length == |docs| == |tf| && avgdl == Avgdl(docs) > 0.0
    requires forall i | 0 <= i < |docs| :: w in tf[i] <==> Count(w, docs[i]) > 0
    requires forall i | 0 <= i < |docs| && w in tf[i] :: tf[i][w] == Count(w, docs[i])
    modifies scores
    ensures forall i | 0 <= i < |docs| :: scores[i] == Term(w, docs, i, log) + old(scores[i])
  {
    hide Term, Avgdl, Df, Count, Denom;
    var df := CountHolding(tf, w, docs);
    if df == 0 {
      forall i | 0 <= i < |docs| ensures Term(w, docs, i, log) == 0.0 { DfZero(w, docs, i, log); }
      return;
    }
    var idf := IdfOf(|docs|, df, log);
    for i := 0 to |docs|
      invariant forall j | 0 <= j < i :: scores[j] == Term(w, docs, j, log) + old(scores[j])
      invariant forall j | i <= j < |docs| :: scores[j] == old(scores[j])
    {
      if w in tf[i] {
        PostedTerm(w, docs, i, log, |docs[i]| as real);
        var f := tf[i][w];
        scores[i] := scores[i] + idf * (f as real * (K1 + 1.0)) / Denom(f, |docs[i]| as real, avgdl);
      } else {
        NoCount(w, docs, i, log);
      }
    }
  }

  lemma {:induction false} DfZero(w: string, docs: seq<Doc>, i: nat, log: real -> real)
    requires i < |docs| && Df(w, docs) == 0
    ensures Term(w, docs, i, log) == 0.0
  {
    HoldingHasDf(w, docs);
    assert i !in Holding(w, docs);
  }

  // ----- a bound

  /** The terms of the query that occur in a document. */
  ghost function Matched(query: set<string>, doc: Doc): set<string> {
    set w | w in query && Count(w, doc) > 0
  }

  ghost function IdfSum(terms: set<string>, docs: seq<Doc>, log: real -> real): real {
    if terms == {} then 0.0
    else
      var w :| w in terms;
      Idf(w, docs, log) + IdfSum(terms - {w}, docs, log)
  }

  lemma {:induction false} AnyIdfFirst(terms: set<string>, docs: seq<Doc>, log: real -> real, w: string)
    requires w in terms
    ensures IdfSum(terms, docs, log) == Idf(w, docs, log) + IdfSum(terms - {w}, docs, log)
    decreases terms
  {
    hide Idf;
    var v :| v in terms && IdfSum(terms, docs, log) == Idf(v, docs, log) + IdfSum(terms - {v}, docs, log);
    if v != w {
      AnyIdfFirst(terms - {v}, docs, log, w);
      AnyIdfFirst(terms - {w}, docs, log, v);
      assert terms - {v} - {w} == terms - {w} - {v};
    }
  }

  ghost predicate LogFromOne(log: real -> real) {
    forall x :: x >= 1.0 ==> log(x) >= 0.0
  }

  lemma IdfIsNotNegative(w: string, docs: seq<Doc>, log: real -> real)
    requires LogFromOne(log)
    ensures Idf(w, docs, log) >= 0.0
  {
    var n, df := |docs| as real, Df(w, docs) as real;
    assert (n - df + 0.5) / (df + 0.5) >= 0.0;
  }

  lemma TermBound(w: string, docs: seq<Doc>, i: nat, log: real -> real)
    requires i < |docs| && LogFromOne(log)
    ensures 0.0 <= Term(w, docs, i, log) <= if Count(w, docs[i]) > 0 then (K1 + 1.0) * Idf(w, docs, log) else 0.0
  {
    IdfIsNotNegative(w, docs, log);
    var f := Count(w, docs[i]);
    if f > 0 && Avgdl(docs) > 0.0 {
      PostedTerm(w, docs, i, log, |docs[i]| as real);
      DenomIsAtLeast(f, |docs[i]| as real, Avgdl(docs));
      Fraction(Idf(w, docs, log), f as real, Denom(f, |docs[i]| as real, Avgdl(docs)));
    }
  }

  lemma Fraction(a: real, f: real, d: real)
    requires a >= 0.0 && 0.0 < f <= d
    ensures 0.0 <= a * (f * (K1 + 1.0)) / d <= (K1 + 1.0) * a
  {
    var x := a * (K1 + 1.0);
    assert a * (f * (K1 + 1.0)) == x * f;
    assert x * f <= x * d;
    assert x * f / d * d == x * f;
  }

  /** Every score lies between 0 and (K1 + 1) times the summed idf of the matched terms. */
  lemma {:induction false} ScoreBound(query: set<string>, docs: seq<Doc>, i: nat, log: real -> real)
    requires i < |docs| && LogFromOne(log)
    ensures 0.0 <= Score(query, docs, i, log) <= (K1 + 1.0) * IdfSum(Matched(query, docs[i]), docs, log)
    decreases query
  {
    if query != {} {
      var w :| w in query;
      var rest := query - {w};
      AnyTermFirst(query, docs, i, log, w);
      ScoreBound(rest, docs, i, log);
      TermBound(w, docs, i, log);
      hide Term, Idf, Score, IdfSum, Count;
      var m := Matched(query, docs[i]);
      if Count(w, docs[i]) > 0 {
        AnyIdfFirst(m, docs, log, w);
        assert m - {w} == Matched(rest, docs[i]);
      } else {
        assert m == Matched(rest, docs[i]);
      }
    } else {
      assert Matched(query, docs[i]) == {};
    }
  }

  // ----- what length, count and rarity do to a score

  lemma TermIs(w: string, docs: seq<Doc>, i: nat, log: real -> real) returns (c: real)
    requires i < |docs| && Count(w, docs[i]) > 0
    ensures Avgdl(docs) > 0.0 && c > 0.0 && c == 0.3 + 0.9 * |docs[i]| as real / Avgdl(docs)
    ensures var f := Count(w, docs[i]) as real;
      Term(w, docs, i, log) == Idf(w, docs, log) * (f * 2.2) / (f + c)
  {
    CountedIsNotEmpty(w, docs, i);
    var len, avg := |docs[i]| as real, Avgdl(docs);
    c := 0.3 + 0.9 * len / avg;
    NotNegative(len, avg);
    hide Avgdl, Idf, Count;
    FormIs(Count(w, docs[i]), len, avg);
  }

  lemma CountedIsNotEmpty(w: string, docs: seq<Doc>, i: nat)
    requires i < |docs| && Count(w, docs[i]) > 0
    ensures Avgdl(docs) > 0.0
  {
    assert docs[i] != [];
    TotalIsAtLeast(docs, i);
  }

  lemma {:induction false} TotalIsAtLeast(docs: seq<Doc>, i: nat)
    requires i < |docs|
    ensures Total(docs) >= |docs[i]|
  {
    var n := |docs| - 1;
    if i < n { TotalIsAtLeast(docs[..n], i); }
  }

  lemma FormIs(f: nat, len: real, avg: real)
    requires avg > 0.0
    ensures Denom(f, len, avg) == f as real + (0.3 + 0.9 * len / avg)
  {
    Scaled(len, avg);
  }

  lemma Scaled(len: real, avg: real)
    requires avg > 0.0
    ensures 1.2 * (1.0 - 0.75 + 0.75 * len / avg) == 0.3 + 0.9 * len / avg
  {
    assert 0.75 * len / avg == 0.75 * (len / avg) && 0.9 * len / avg == 0.9 * (len / avg);
  }

  lemma NotNegative(len: real, avg: real)
    requires avg > 0.0 && len >= 0.0
    ensures 0.9 * len / avg >= 0.0
  {
  }

  lemma Cancel(p: real, q: real, m: real)
    requires m > 0.0 && p * m < q * m
    ensures p < q
  {
    assert (q - p) * m > 0.0;
  }

  /** Comparing two fractions across. */
  lemma CrossLess(a: real, b: real, c: real, d: real)
    requires b > 0.0 && d > 0.0 && a * d < c * b
    ensures a / b < c / d
  {
    var p, q := a / b, c / d;
    assert p * b == a && q * d == c;
    assert p * (b * d) == a * d && q * (b * d) == c * b;
    Cancel(p, q, b * d);
  }

  /** x / (f + c) shrinks as c grows. */
  lemma LargerBelow(x: real, f: real, c: real, d: real)
    requires x > 0.0 && f > 0.0 && 0.0 < c < d
    ensures x / (f + d) < x / (f + c)
  {
    assert x * (f + c) < x * (f + d);
    CrossLess(x, f + d, x, f + c);
  }

  /** a f / (f + c) grows with f. */
  lemma LargerAbove(a: real, f: real, g: real, c: real)
    requires a > 0.0 && 0.0 <= f < g && c > 0.0
    ensures a * (f * 2.2) / (f + c) < a * (g * 2.2) / (g + c)
  {
    assert a * (f * 2.2) == a * 2.2 * f && a * (g * 2.2) == a * 2.2 * g;
    ShareGrows(a * 2.2, f, g, c);
  }

  lemma ShareGrows(k: real, f: real, g: real, c: real)
    requires k > 0.0 && 0.0 <= f < g && c > 0.0
    ensures k * f / (f + c) < k * g / (g + c)
  {
    var x, y := k * f, k * g;
    Crossed(k, f, g, c, x, y);
    CrossLess(x, f + c, y, g + c);
  }

  lemma Crossed(k: real, f: real, g: real, c: real, x: real, y: real)
    requires k > 0.0 && 0.0 <= f < g && c > 0.0 && x == k * f && y == k * g
    ensures x * (g + c) < y * (f + c)
  {
    assert x * g == y * f;
    assert x < y;
    assert x * c < y * c;
  }

  /** At equal count, the longer document gets less. */
  lemma LongerGetsLess(w: string, docs: seq<Doc>, i: nat, j: nat, log: real -> real)
    requires i < |docs| && j < |docs| && Count(w, docs[i]) == Count(w, docs[j]) > 0
    requires Idf(w, docs, log) > 0.0 && |docs[i]| < |docs[j]|
    ensures Term(w, docs, j, log) < Term(w, docs, i, log)
  {
    hide *;
    var c := TermIs(w, docs, i, log);
    var d := TermIs(w, docs, j, log);
    var f := Count(w, docs[i]) as real;
    LargerShare(|docs[i]| as real, |docs[j]| as real, Avgdl(docs));
    PositiveProduct(Idf(w, docs, log), f);
    LargerBelow(Idf(w, docs, log) * (f * 2.2), f, c, d);
  }

  lemma LargerShare(a: real, b: real, avg: real)
    requires avg > 0.0 && a < b
    ensures 0.9 * a / avg < 0.9 * b / avg
  {
    CrossLess(0.9 * a, avg, 0.9 * b, avg);
  }

  /** At equal length, the document that has the term more often gets more. */
  lemma OftenerGetsMore(w: string, docs: seq<Doc>, i: nat, j: nat, log: real -> real)
    requires i < |docs| && j < |docs| && 0 < Count(w, docs[i]) < Count(w, docs[j])
    requires Idf(w, docs, log) > 0.0 && |docs[i]| == |docs[j]|
    ensures Term(w, docs, i, log) < Term(w, docs, j, log)
  {
    hide *;
    var c := TermIs(w, docs, i, log);
    var d := TermIs(w, docs, j, log);
    LargerAbove(Idf(w, docs, log), Count(w, docs[i]) as real, Count(w, docs[j]) as real, c);
  }

  /** Found once in a document of average length a term gives its idf; once at twice that
      length 22/31 of it, and twice at that length 11/8. */
  lemma ShareOfIdf(w: string, docs: seq<Doc>, i: nat, log: real -> real)
    requires i < |docs| && Count(w, docs[i]) > 0
    ensures var f, len, avg, idf := Count(w, docs[i]), |docs[i]| as real, Avgdl(docs), Idf(w, docs, log);
      && (f == 1 && len == avg ==> Term(w, docs, i, log) == idf)
      && (f == 1 && len == 2.0 * avg ==> Term(w, docs, i, log) == idf * 22.0 / 31.0)
      && (f == 2 && len == avg ==> Term(w, docs, i, log) == idf * 11.0 / 8.0)
  {
    var c := TermIs(w, docs, i, log);
    var len, avg := |docs[i]| as real, Avgdl(docs);
    hide *;
    SharesAre(len, avg);
    SharesOf(Idf(w, docs, log));
  }

  lemma SharesAre(len: real, avg: real)
    requires avg > 0.0
    ensures len == avg ==> 0.9 * len / avg == 0.9
    ensures len == 2.0 * avg ==> 0.9 * len / avg == 1.8
  {
    var x := 0.9 * len / avg;
    assert x * avg == 0.9 * len;
  }

  lemma SharesOf(idf: real)
    ensures idf * (1.0 * 2.2) / (1.0 + 1.2) == idf
    ensures idf * (1.0 * 2.2) / (1.0 + (0.3 + 1.8)) == idf * 22.0 / 31.0
    ensures idf * (2.0 * 2.2) / (2.0 + 1.2) == idf * 11.0 / 8.0
  {
  }

  ghost predicate Increasing(log: real -> real) {
    forall x, y | 0.0 < x < y :: log(x) < log(y)
  }

  /** A term in fewer documents has the larger idf; one in half of them has log 2, and one
      in all of them the least there is, still over log 1. */
  lemma RarerWeighsMore(w: string, v: string, docs: seq<Doc>, log: real -> real)
    requires Increasing(log)
    ensures Df(w, docs) < Df(v, docs) ==> Idf(w, docs, log) > Idf(v, docs, log)
    ensures 2 * Df(w, docs) == |docs| ==> Idf(w, docs, log) == log(2.0)
    ensures Df(w, docs) == |docs| == 1 ==> Idf(w, docs, log) == log(0.5 / 1.5 + 1.0)
    ensures Idf(w, docs, log) > log(1.0)
  {
    var n, a, b := |docs| as real, Df(w, docs) as real, Df(v, docs) as real;
    PositiveOdds(n, a);
    PositiveOdds(n, b);
    hide Df;
    if Df(w, docs) < Df(v, docs) { Rarer(n, a, b); }
    if 2 * Df(w, docs) == |docs| { HalfOdds(n, a); }
  }

  lemma PositiveOdds(n: real, a: real)
    requires 0.0 <= a <= n
    ensures (n - a + 0.5) / (a + 0.5) > 0.0
  {
  }

  lemma HalfOdds(n: real, a: real)
    requires a >= 0.0 && n == 2.0 * a
    ensures (n - a + 0.5) / (a + 0.5) == 1.0
  {
    assert n - a + 0.5 == a + 0.5;
  }

  lemma Rarer(n: real, a: real, b: real)
    requires 0.0 <= a < b <= n
    ensures (n - b + 0.5) / (b + 0.5) < (n - a + 0.5) / (a + 0.5)
  {
    LessTimesMore(n - b + 0.5, n - a + 0.5, a + 0.5, b + 0.5);
    CrossLess(n - b + 0.5, b + 0.5, n - a + 0.5, a + 0.5);
  }

  lemma LessTimesMore(p: real, q: real, x: real, y: real)
    requires 0.0 < p < q && 0.0 < x < y
    ensures p * x < q * y
  {
    assert p * x < q * x && q * x < q * y;
  }

  /** Of two documents with the same counts of every query term the longer one scores less,
      as soon as one term found in them has a positive idf and none a negative one. */
  lemma {:induction false} LongerScoresLess(query: set<string>, docs: seq<Doc>, i: nat, j: nat, log: real -> real)
    requires i < |docs| && j < |docs| && |docs[i]| < |docs[j]|
    requires forall w | w in query :: Count(w, docs[i]) == Count(w, docs[j]) && Idf(w, docs, log) >= 0.0
    ensures Score(query, docs, j, log) <= Score(query, docs, i, log)
    ensures (exists w | w in query :: Count(w, docs[i]) > 0 && Idf(w, docs, log) > 0.0) ==>
      Score(query, docs, j, log) < Score(query, docs, i, log)
    decreases query
  {
    if query != {} {
      var w :| w in query;
      var rest := query - {w};
      AnyTermFirst(query, docs, i, log, w);
      AnyTermFirst(query, docs, j, log, w);
      LongerScoresLess(rest, docs, i, j, log);
      if Count(w, docs[i]) > 0 && Idf(w, docs, log) > 0.0 {
        LongerGetsLess(w, docs, i, j, log);
      } else {
        NothingEitherWay(w, docs, i, log);
        NothingEitherWay(w, docs, j, log);
      }
      hide Term, Score, Idf, Count;
      assert forall v | v in query :: v == w || v in rest;
    }
  }

  lemma NothingEitherWay(w: string, docs: seq<Doc>, i: nat, log: real -> real)
    requires i < |docs| && (Count(w, docs[i]) == 0 || Idf(w, docs, log) == 0.0)
    ensures Term(w, docs, i, log) == 0.0
  {
    if Count(w, docs[i]) > 0 {
      var c := TermIs(w, docs, i, log);
      assert 0.0 * (Count(w, docs[i]) as real * 2.2) == 0.0;
    }
  }

  /** And of two as long as each other the one that has some query term oftener, and none
      less often, scores more. */
  lemma {:induction false} OftenerScoresMore(query: set<string>, docs: seq<Doc>, i: nat, j: nat, log: real -> real)
    requires i < |docs| && j < |docs| && |docs[i]| == |docs[j]|
    requires forall w | w in query :: Count(w, docs[i]) <= Count(w, docs[j]) && Idf(w, docs, log) > 0.0
    ensures Score(query, docs, i, log) <= Score(query, docs, j, log)
    ensures (exists w | w in query :: Count(w, docs[i]) < Count(w, docs[j])) ==> Score(query, docs, i, log) < Score(query, docs, j, log)
    decreases query
  {
    if query != {} {
      var w :| w in query;
      var rest := query - {w};
      AnyTermFirst(query, docs, i, log, w);
      AnyTermFirst(query, docs, j, log, w);
      OftenerScoresMore(rest, docs, i, j, log);
      OftenerGetsNoLess(w, docs, i, j, log);
      hide Term, Score, Idf, Count;
      assert forall v | v in query :: v == w || v in rest;
    }
  }

  lemma OftenerGetsNoLess(w: string, docs: seq<Doc>, i: nat, j: nat, log: real -> real)
    requires i < |docs| && j < |docs| && |docs[i]| == |docs[j]|
    requires Count(w, docs[i]) <= Count(w, docs[j]) && Idf(w, docs, log) > 0.0
    ensures Count(w, docs[i]) == Count(w, docs[j]) ==> Term(w, docs, i, log) == Term(w, docs, j, log)
    ensures Count(w, docs[i]) < Count(w, docs[j]) ==> Term(w, docs, i, log) < Term(w, docs, j, log)
  {
    if 0 < Count(w, docs[i]) < Count(w, docs[j]) {
      OftenerGetsMore(w, docs, i, j, log);
    } else if Count(w, docs[i]) == 0 && Count(w, docs[j]) > 0 {
      hide *;
      NothingEitherWay(w, docs, i, log);
      var c := TermIs(w, docs, j, log);
      PositiveShare(Idf(w, docs, log), Count(w, docs[j]) as real, c);
    } else if Count(w, docs[i]) == 0 {
      NothingEitherWay(w, docs, i, log);
      NothingEitherWay(w, docs, j, log);
    } else {
      SameGetsSame(w, docs, i, j, log);
    }
  }

  lemma SameGetsSame(w: string, docs: seq<Doc>, i: nat, j: nat, log: real -> real)
    requires i < |docs| && j < |docs| && |docs[i]| == |docs[j]| && Count(w, docs[i]) == Count(w, docs[j]) > 0
    ensures Term(w, docs, i, log) == Term(w, docs, j, log)
  {
    hide *;
    var c := TermIs(w, docs, i, log);
    var d := TermIs(w, docs, j, log);
  }

  lemma PositiveProduct(a: real, f: real)
    requires a > 0.0 && f > 0.0
    ensures a * (f * 2.2) > 0.0
  {
  }

  lemma PositiveShare(a: real, f: real, c: real)
    requires a > 0.0 && f > 0.0 && c > 0.0
    ensures a * (f * 2.2) / (f + c) > 0.0
  {
    PositiveProduct(a, f);
  }
}
