/** POSIX path strings: os.path.join, normpath and relpath as string functions, and what
    they do to the segments of a path. */
module PathText {
  import opened Base

  /** The pieces of a text between separators; always at least one. */
  function Split(s: string, seps: set<char>): (r: seq<string>)
    ensures r != []
  {
    if s == "" then [""]
    else
      var rest := Split(s[1..], seps);
      if s[0] in seps then [""] + rest else [[s[0]] + rest[0]] + rest[1..]
  }

  const SLASH: set<char> := {'/'}
  const SEPARATORS: set<char> := {'/', '\\'}

  /** Pieces that name something: neither empty nor the current directory. */
  function Kept(segs: seq<string>): seq<string> {
    if segs == [] then []
    else (if segs[0] == "" || segs[0] == "." then [] else [segs[0]]) + Kept(segs[1..])
  }

  function JoinSegs(segs: seq<string>): string {
    if segs == [] then "" else if |segs| == 1 then segs[0] else segs[0] + "/" + JoinSegs(segs[1..])
  }

  /** The absolute path with these segments. */
  function Render(segs: seq<string>): string {
    "/" + JoinSegs(segs)
  }

  /** Segments of a canonical path. */
  predicate CleanSeg(x: string) {
    x != "" && x != "." && x != ".." && '/' !in x
  }

  ghost predicate Clean(segs: seq<string>) {
    forall x | x in segs :: CleanSeg(x)
  }

  /** os.path.join of two paths. */
  function JoinTwo(a: string, b: string): string {
    if StartsWith(b, "/") || a == "" then b
    else if EndsWith(a, "/") then a + b
    else a + "/" + b
  }

  function JoinAll(a: string, parts: seq<string>): string
    decreases |parts|
  {
    if parts == [] then a else JoinAll(JoinTwo(a, parts[0]), parts[1..])
  }

  /** The segment loop of normpath. */
  function Reduce(segs: seq<string>, rooted: bool, acc: seq<string>): seq<string> {
    if segs == [] then acc
    else if segs[0] == "" || segs[0] == "." then Reduce(segs[1..], rooted, acc)
    else if segs[0] != ".." || (!rooted && acc == []) || (acc != [] && acc[|acc| - 1] == "..") then
      Reduce(segs[1..], rooted, acc + [segs[0]])
    else if acc != [] then Reduce(segs[1..], rooted, acc[..|acc| - 1])
    else Reduce(segs[1..], rooted, acc)
  }

  function LeadingSlashes(s: string): string {
    if !StartsWith(s, "/") then ""
    else if StartsWith(s, "//") && !StartsWith(s, "///") then "//" else "/"
  }

  function Normpath(s: string): string {
    var lead := LeadingSlashes(s);
    var path := lead + JoinSegs(Reduce(Split(s, SLASH), lead != "", []));
    if s == "" || path == "" then "." else path
  }

  function Common(a: seq<string>, b: seq<string>): (n: nat)
    ensures n <= |a| && n <= |b|
  {
    if a == [] || b == [] || a[0] != b[0] then 0 else 1 + Common(a[1..], b[1..])
  }

  function Ups(n: nat): seq<string> {
    if n == 0 then [] else [".."] + Ups(n - 1)
  }

  /** os.path.relpath of an absolute path against the directory with segments `root`. */
  function Relpath(path: string, root: seq<string>): string {
    var segs := Kept(Split(path, SLASH));
    var i := Common(root, segs);
    var rel := Ups(|root| - i) + segs[i..];
    if rel == [] then "." else JoinSegs(rel)
  }

  // ----- lemmas on splitting and joining

  lemma SplitStep(s: string, seps: set<char>)
    requires s != ""
    ensures var rest := Split(s[1..], seps);
      Split(s, seps) == if s[0] in seps then [""] + rest else [[s[0]] + rest[0]] + rest[1..]
  {
  }

  lemma {:induction false} SplitAt(a: string, c: char, b: string, seps: set<char>)
    requires c in seps
    ensures Split(a + [c] + b, seps) == Split(a, seps) + Split(b, seps)
  {
    if a == "" {
      assert "" + [c] + b == [c] + b && ([c] + b)[1..] == b;
    } else {
      hide *;
      SplitAt(a[1..], c, b, seps);
      Assoc(a, [c], b);
      Assoc(a[1..], [c], b);
      HeadTail(a, [c] + b);
      SplitStep(a, seps);
      SplitStep(a + [c] + b, seps);
      var rest := Split(a[1..], seps);
      HeadTail(rest, Split(b, seps));
      Assoc([""], rest, Split(b, seps));
      Assoc([[a[0]] + rest[0]], rest[1..], Split(b, seps));
    }
  }

  lemma {:induction false} SplitPlain(s: string, seps: set<char>)
    requires forall c | c in s :: c !in seps
    ensures Split(s, seps) == [s]
  {
    if s != "" {
      assert s[0] in s && forall c | c in s[1..] :: c in s;
      SplitPlain(s[1..], seps);
      assert [s[1..]][1..] == [] && [s[0]] + s[1..] == s;
      assert Split(s, seps) == [[s[0]] + s[1..]] + [];
    }
  }

  lemma {:induction false} PiecesArePlain(s: string, seps: set<char>)
    ensures forall x, c | x in Split(s, seps) && c in x :: c !in seps
  {
    if s != "" {
      PiecesArePlain(s[1..], seps);
      var rest := Split(s[1..], seps);
      assert rest[0] in rest && forall x | x in rest[1..] :: x in rest;
    }
  }

  lemma {:induction false} KeptAppend(a: seq<string>, b: seq<string>)
    ensures Kept(a + b) == Kept(a) + Kept(b)
  {
    if a == [] {
      assert a + b == b;
    } else {
      hide *;
      HeadTail(a, b);
      KeptAppend(a[1..], b);
      KeptStep(a);
      KeptStep(a + b);
      Assoc(if a[0] == "" || a[0] == "." then [] else [a[0]], Kept(a[1..]), Kept(b));
    }
  }

  lemma KeptStep(segs: seq<string>)
    requires segs != []
    ensures Kept(segs) == (if segs[0] == "" || segs[0] == "." then [] else [segs[0]]) + Kept(segs[1..])
  {
  }

  lemma {:induction false} KeptIsClean(segs: seq<string>)
    requires forall x | x in segs :: '/' !in x && x != ".."
    ensures Clean(Kept(segs))
  {
    if segs != [] {
      assert segs[0] in segs && forall x | x in segs[1..] :: x in segs;
      KeptIsClean(segs[1..]);
    }
  }

  lemma {:induction false} CleanIsKept(segs: seq<string>)
    requires Clean(segs)
    ensures Kept(segs) == segs
  {
    if segs != [] {
      assert segs[0] in segs && forall x | x in segs[1..] :: x in segs;
      CleanIsKept(segs[1..]);
    }
  }

  lemma {:induction false} SplitJoined(segs: seq<string>)
    requires segs != [] && Clean(segs)
    ensures Split(JoinSegs(segs), SLASH) == segs
  {
    assert segs[0] in segs && forall x | x in segs[1..] :: x in segs;
    SplitPlain(segs[0], SLASH);
    if |segs| > 1 {
      SplitJoined(segs[1..]);
      SplitAt(segs[0], '/', JoinSegs(segs[1..]), SLASH);
    }
  }

  /** A rendered path splits back into its segments. */
  lemma SplitRendered(segs: seq<string>)
    requires Clean(segs)
    ensures Split(Render(segs), SLASH) == [""] + if segs == [] then [""] else segs
    ensures Kept(Split(Render(segs), SLASH)) == segs
  {
    SplitAt("", '/', JoinSegs(segs), SLASH);
    assert "" + ['/'] + JoinSegs(segs) == Render(segs);
    if segs != [] { SplitJoined(segs); }
    CleanIsKept(segs);
    assert ([""] + Split(JoinSegs(segs), SLASH))[1..] == Split(JoinSegs(segs), SLASH);
  }

  lemma {:induction false} JoinAppend(a: seq<string>, b: seq<string>)
    requires a != [] && b != []
    ensures JoinSegs(a + b) == JoinSegs(a) + "/" + JoinSegs(b)
  {
    assert (a + b)[1..] == a[1..] + b;
    if |a| == 1 {
      assert a[1..] + b == b;
    } else {
      JoinAppend(a[1..], b);
    }
  }

  lemma ReduceStep(segs: seq<string>, rooted: bool, acc: seq<string>)
    requires segs != [] && segs[0] != ".."
    ensures Reduce(segs, rooted, acc) ==
      Reduce(segs[1..], rooted, if segs[0] == "" || segs[0] == "." then acc else acc + [segs[0]])
  {
  }

  lemma {:induction false} ReduceKeeps(segs: seq<string>, rooted: bool, acc: seq<string>)
    requires ".." !in segs
    ensures Reduce(segs, rooted, acc) == acc + Kept(segs)
  {
    if segs != [] {
      assert segs[0] in segs && forall x | x in segs[1..] :: x in segs;
      KeptStep(segs);
      ReduceStep(segs, rooted, acc);
      hide *;
      if segs[0] == "" || segs[0] == "." {
        ReduceKeeps(segs[1..], rooted, acc);
        assert [] + Kept(segs[1..]) == Kept(segs[1..]);
      } else {
        ReduceKeeps(segs[1..], rooted, acc + [segs[0]]);
        Assoc(acc, [segs[0]], Kept(segs[1..]));
      }
    }
  }

  /** An absolute path without `..`: normpath keeps the named segments. */
  lemma NormpathOfAbsolute(s: string)
    requires StartsWith(s, "/") && !StartsWith(s, "//") && ".." !in Split(s, SLASH)
    ensures Normpath(s) == Render(Kept(Split(s, SLASH)))
    ensures Clean(Kept(Split(s, SLASH)))
  {
    ReduceKeeps(Split(s, SLASH), true, []);
    assert [] + Kept(Split(s, SLASH)) == Kept(Split(s, SLASH));
    PiecesArePlain(s, SLASH);
    KeptIsClean(Split(s, SLASH));
  }

  /** A piece without a backslash is a piece also when backslashes separate. */
  lemma {:induction false} PiecesUnderBoth(s: string)
    ensures var p, b := Split(s, SLASH), Split(s, SEPARATORS);
      && ('\\' !in p[0] ==> b[0] == p[0])
      && forall x | x in p[1..] && '\\' !in x :: x in b[1..]
  {
    if s != "" {
      PiecesUnderBoth(s[1..]);
      PiecesStep(s);
    }
  }

  lemma PiecesStep(s: string)
    requires s != ""
    requires var p, b := Split(s[1..], SLASH), Split(s[1..], SEPARATORS);
      && ('\\' !in p[0] ==> b[0] == p[0])
      && forall x | x in p[1..] && '\\' !in x :: x in b[1..]
    ensures var p, b := Split(s, SLASH), Split(s, SEPARATORS);
      && ('\\' !in p[0] ==> b[0] == p[0])
      && forall x | x in p[1..] && '\\' !in x :: x in b[1..]
  {
    var p1, b1 := Split(s[1..], SLASH), Split(s[1..], SEPARATORS);
    assert p1 == [p1[0]] + p1[1..] && b1 == [b1[0]] + b1[1..];
    if s[0] == '/' {
      assert ([""] + p1)[1..] == p1 && ([""] + b1)[1..] == b1;
    } else if s[0] == '\\' {
      assert Split(s, SEPARATORS)[1..] == b1;
      assert Split(s, SLASH)[1..] == p1[1..];
      assert Split(s, SLASH)[0][0] == '\\';
    } else {
      assert Split(s, SLASH) == [[s[0]] + p1[0]] + p1[1..] && Split(s, SLASH)[1..] == p1[1..];
      assert Split(s, SEPARATORS) == [[s[0]] + b1[0]] + b1[1..] && Split(s, SEPARATORS)[1..] == b1[1..];
      assert '\\' in p1[0] ==> '\\' in [s[0]] + p1[0];
    }
  }

  lemma NoDotDot(s: string)
    requires ".." !in Split(s, SEPARATORS)
    ensures ".." !in Split(s, SLASH)
  {
    PiecesUnderBoth(s);
    var p, b := Split(s, SLASH), Split(s, SEPARATORS);
    assert p == [p[0]] + p[1..] && b == [b[0]] + b[1..];
  }

  // ----- joining relative parts under a root

  /** A part that os.path.join appends: relative, and without `..`. */
  predicate Relative(s: string) {
    s != "" && s[0] != '/' && ".." !in Split(s, SLASH)
  }

  function AllKept(parts: seq<string>): seq<string> {
    if parts == [] then [] else Kept(Split(parts[0], SLASH)) + AllKept(parts[1..])
  }

  lemma JoinOne(a: string, b: string)
    requires a != "" && a[0] == '/' && !StartsWith(a, "//") && ".." !in Split(a, SLASH) && Relative(b)
    ensures var j := JoinTwo(a, b);
      && j != "" && j[0] == '/' && !StartsWith(j, "//") && ".." !in Split(j, SLASH)
      && Kept(Split(j, SLASH)) == Kept(Split(a, SLASH)) + Kept(Split(b, SLASH))
  {
    hide Split, Kept;
    assert !StartsWith(b, "/");
    if EndsWith(a, "/") {
      JoinAfterSlash(a, b);
    } else {
      assert a + "/" + b == a + ['/'] + b;
      SplitAt(a, '/', b, SLASH);
      KeptAppend(Split(a, SLASH), Split(b, SLASH));
      assert a != "/" && |a| > 1 && (a + "/" + b)[1] == a[1];
    }
  }

  lemma JoinAfterSlash(a: string, b: string)
    requires a != "" && a[0] == '/' && !StartsWith(a, "//") && ".." !in Split(a, SLASH) && Relative(b) && EndsWith(a, "/")
    ensures var j := a + b;
      && j != "" && j[0] == '/' && !StartsWith(j, "//") && ".." !in Split(j, SLASH)
      && Kept(Split(j, SLASH)) == Kept(Split(a, SLASH)) + Kept(Split(b, SLASH))
  {
    var front := a[..|a| - 1];
    assert a == front + ['/'] + "" && a + b == front + ['/'] + b;
    SplitAt(front, '/', "", SLASH);
    SplitAt(front, '/', b, SLASH);
    assert Split("", SLASH) == [""] && Kept([""]) == [];
    hide Split, Kept;
    KeptAppend(Split(front, SLASH), [""]);
    KeptAppend(Split(front, SLASH), Split(b, SLASH));
    assert forall x | x in Split(front, SLASH) :: x in Split(a, SLASH);
    assert Kept(Split(front, SLASH)) + [] == Kept(Split(front, SLASH));
    assert |a| > 1 ==> (a + b)[1] == a[1];
  }

  lemma {:induction false} JoinedKeeps(a: string, parts: seq<string>)
    requires a != "" && a[0] == '/' && !StartsWith(a, "//") && ".." !in Split(a, SLASH)
    requires forall p | p in parts :: Relative(p)
    ensures var j := JoinAll(a, parts);
      && StartsWith(j, "/") && !StartsWith(j, "//") && ".." !in Split(j, SLASH)
      && Kept(Split(j, SLASH)) == Kept(Split(a, SLASH)) + AllKept(parts)
    decreases |parts|
  {
    hide Split, Kept, JoinTwo, Relative;
    if parts != [] {
      assert parts[0] in parts && forall p | p in parts[1..] :: p in parts;
      JoinOne(a, parts[0]);
      JoinedKeeps(JoinTwo(a, parts[0]), parts[1..]);
    }
  }

  lemma RenderedIsRooted(segs: seq<string>)
    requires Clean(segs)
    ensures var s := Render(segs);
      s != "" && s[0] == '/' && !StartsWith(s, "//") && ".." !in Split(s, SLASH)
  {
    SplitRendered(segs);
    if segs != [] {
      assert segs[0] in segs && JoinSegs(segs)[0] == segs[0][0] && segs[0][0] in segs[0];
    }
  }

  /** Relative parts joined under a canonical root and normalised: the root's segments,
      then the named segments of the parts. */
  lemma JoinUnderRoot(root: seq<string>, parts: seq<string>)
    requires Clean(root) && forall p | p in parts :: Relative(p)
    ensures Normpath(JoinAll(Render(root), parts)) == Render(root + AllKept(parts))
    ensures Clean(root + AllKept(parts))
  {
    RenderedIsRooted(root);
    SplitRendered(root);
    JoinedKeeps(Render(root), parts);
    NormpathOfAbsolute(JoinAll(Render(root), parts));
  }

  // ----- being inside a root

  /** The fence's test on two path strings. */
  predicate Inside(path: string, root: string) {
    path == root || StartsWith(path, root + "/")
  }

  lemma RenderAppend(root: seq<string>, rest: seq<string>)
    requires root != [] && rest != []
    ensures Render(root + rest) == Render(root) + "/" + JoinSegs(rest)
  {
    JoinAppend(root, rest);
  }

  /** Under any root but "/" a longer path is inside. */
  lemma ExtendsIsInside(root: seq<string>, rest: seq<string>)
    requires root != []
    ensures Inside(Render(root + rest), Render(root))
  {
    if rest == [] {
      assert root + rest == root;
    } else {
      RenderAppend(root, rest);
    }
  }

  /** Under "/" only "/" is. */
  lemma InsideSlashIff(segs: seq<string>)
    requires Clean(segs)
    ensures Inside(Render(segs), Render([])) <==> segs == []
  {
    RenderedIsRooted(segs);
    assert Render([]) + "/" == "//";
    if segs != [] { assert segs[0] in segs; }
  }

  /** A canonical path that is inside has the root's segments in front. */
  lemma InsideExtends(segs: seq<string>, root: seq<string>)
    requires Clean(segs) && Clean(root) && Inside(Render(segs), Render(root))
    ensures |root| <= |segs| && segs[..|root|] == root
  {
    SplitRendered(segs);
    SplitRendered(root);
    if Render(segs) != Render(root) {
      if root == [] {
        InsideSlashIff(segs);
      } else {
        var t := Render(segs)[|Render(root)| + 1..];
        assert Render(segs) == Render(root) + ['/'] + t;
        SplitAt(Render(root), '/', t, SLASH);
        KeptAppend(Split(Render(root), SLASH), Split(t, SLASH));
      }
    }
  }

  lemma {:induction false} CommonPrefix(a: seq<string>, b: seq<string>)
    requires |a| <= |b| && b[..|a|] == a
    ensures Common(a, b) == |a|
  {
    if a != [] {
      assert b[0] == b[..|a|][0] && b[1..][..|a| - 1] == b[..|a|][1..];
      CommonPrefix(a[1..], b[1..]);
    }
  }

  /** The relative path of something inside: what follows the root. */
  lemma RelpathOfInside(segs: seq<string>, root: seq<string>)
    requires Clean(segs) && |root| <= |segs| && segs[..|root|] == root
    ensures var rest := segs[|root|..];
      Relpath(Render(segs), root) == if rest == [] then "." else JoinSegs(rest)
  {
    SplitRendered(segs);
    CommonPrefix(root, segs);
    assert [] + segs[|root|..] == segs[|root|..];
  }

  lemma JoinedIsRelative(segs: seq<string>)
    requires segs != [] && Clean(segs)
    ensures Relative(JoinSegs(segs)) && Kept(Split(JoinSegs(segs), SLASH)) == segs
  {
    SplitJoined(segs);
    CleanIsKept(segs);
    assert segs[0] in segs && JoinSegs(segs)[0] == segs[0][0] && segs[0][0] in segs[0];
  }

  // ----- the pieces, without positions

  /** `x` is a piece of `s`: at either side it meets an end or a separator. */
  predicate IsPiece(s: string, seps: set<char>, a: string, x: string, b: string) {
    && IsSplit(s, a, x, b)
    && (a == "" || a[|a| - 1] in seps) && (b == "" || b[0] in seps)
  }

  lemma {:induction false} FirstPiece(s: string, seps: set<char>, x: string)
    requires forall c | c in x :: c !in seps
    ensures Split(s, seps)[0] == x <==> exists b :: IsPiece(s, seps, "", x, b)
  {
    if s == "" {
      if x == "" { assert IsPiece(s, seps, "", x, ""); }
    } else if s[0] in seps {
      if x == "" { assert IsPiece(s, seps, "", x, s); }
      forall b ensures IsPiece(s, seps, "", x, b) ==> x == "" { HeadIsInFirst(s, seps, x, b); }
    } else {
      var tail := if x == "" then "" else x[1..];
      FirstPiece(s[1..], seps, tail);
      SplitStep(s, seps);
      var rest := Split(s[1..], seps);
      hide Split, IsPiece;
      HeadOfFirst(x, s[0], rest[0]);
      if Split(s, seps)[0] == x {
        var b :| IsPiece(s[1..], seps, "", tail, b);
        FirstGrows(s, seps, x, b);
      }
      if b :| IsPiece(s, seps, "", x, b) {
        FirstShrinks(s, seps, x, b);
      }
    }
  }

  lemma HeadOfFirst(x: string, c: char, r: string)
    ensures [c] + r == x <==> x != "" && x[0] == c && x[1..] == r
  {
    if x != "" { assert x == [x[0]] + x[1..]; }
  }

  lemma FirstGrows(s: string, seps: set<char>, x: string, b: string)
    requires s != "" && x != "" && x[0] == s[0] && IsPiece(s[1..], seps, "", x[1..], b)
    ensures IsPiece(s, seps, "", x, b)
  {
    assert s == [s[0]] + s[1..] && x == [x[0]] + x[1..];
    assert "" + x[1..] + b == x[1..] + b && "" + x + b == x + b;
    Assoc([x[0]], x[1..], b);
  }

  lemma FirstShrinks(s: string, seps: set<char>, x: string, b: string)
    requires s != "" && s[0] !in seps && IsPiece(s, seps, "", x, b)
    ensures x != "" && x[0] == s[0] && IsPiece(s[1..], seps, "", x[1..], b)
  {
    assert "" + x + b == x + b;
    assert x == "" ==> x + b == b;
    if x != "" {
      HeadTail(x, b);
      assert "" + x[1..] + b == x[1..] + b;
    }
  }

  lemma HeadIsInFirst(s: string, seps: set<char>, x: string, b: string)
    ensures IsPiece(s, seps, "", x, b) && x != "" ==> s != "" && x[0] == s[0] && x[0] in x
  {
  }

  /** A piece behind a non-empty part is a piece of the rest. */
  lemma PieceOfRest(s: string, seps: set<char>, a: string, x: string, b: string)
    requires s != "" && a != ""
    ensures IsPiece(s, seps, a, x, b) <==>
      a[0] == s[0] && IsSplit(s[1..], a[1..], x, b) && a[|a| - 1] in seps && (b == "" || b[0] in seps)
  {
    HeadTail(a, x + b);
    Assoc(a, x, b);
    Assoc(a[1..], x, b);
    assert s == [s[0]] + s[1..] && a == [a[0]] + a[1..];
    if a[0] == s[0] && IsSplit(s[1..], a[1..], x, b) {
      assert a + (x + b) == [a[0]] + (a[1..] + (x + b));
    }
  }

  lemma PieceParts(s: string, seps: set<char>, a: string, x: string, b: string)
    ensures IsPiece(s, seps, a, x, b) <==>
      IsSplit(s, a, x, b) && (a == "" || a[|a| - 1] in seps) && (b == "" || b[0] in seps)
  {
  }

  lemma {:induction false} LaterPiece(s: string, seps: set<char>, x: string)
    requires forall c | c in x :: c !in seps
    ensures x in Split(s, seps)[1..] <==> exists a, b :: a != "" && IsPiece(s, seps, a, x, b)
  {
    if s != "" {
      var rest := Split(s[1..], seps);
      FirstPiece(s[1..], seps, x);
      LaterPiece(s[1..], seps, x);
      SplitStep(s, seps);
      hide Split, IsPiece;
      assert x in rest <==> x == rest[0] || x in rest[1..] by { assert rest == [rest[0]] + rest[1..]; }
      assert Split(s, seps)[1..] == if s[0] in seps then rest else rest[1..];
      if x in Split(s, seps)[1..] {
        if x in rest[1..] {
          var a, b :| a != "" && IsPiece(s[1..], seps, a, x, b);
          PieceOfRest(s, seps, [s[0]] + a, x, b);
          PieceParts(s[1..], seps, a, x, b);
          assert ([s[0]] + a)[1..] == a;
        } else {
          var b :| IsPiece(s[1..], seps, "", x, b);
          PieceOfRest(s, seps, [s[0]], x, b);
          PieceParts(s[1..], seps, "", x, b);
        }
      }
      if a, b :| a != "" && IsPiece(s, seps, a, x, b) {
        PieceOfRest(s, seps, a, x, b);
        PieceParts(s[1..], seps, a[1..], x, b);
      }
    }
  }

  /** Splitting yields exactly the pieces. */
  lemma SplitIs(s: string, seps: set<char>, x: string)
    requires forall c | c in x :: c !in seps
    ensures x in Split(s, seps) <==> exists a, b :: IsPiece(s, seps, a, x, b)
  {
    FirstPiece(s, seps, x);
    LaterPiece(s, seps, x);
    var p := Split(s, seps);
    assert p == [p[0]] + p[1..];
  }
}
