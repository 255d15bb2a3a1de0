/** The path fence safe_join (memsom/paths.py) on POSIX: rules on the text first, then a
    lexical containment check. */
module SafeJoin {
  import opened Base
  import opened PathText

  datatype Refusal =
    | NoParts | Empty | Nul | Whitespace | UncOrDevice | Absolute | DotDot
    | AbsoluteNotFirst | OutsideRoot | EscapesRoot | LinkOutside

  predicate Padded(s: string) {
    s != "" && (IsSpace(s[0]) || IsSpace(s[|s| - 1]))
  }

  /** The drive a Windows reading of the text has: two leading separators make it a UNC or
      device path, a colon behind the first character a drive letter. */
  predicate Unc(s: string) {
    |s| >= 2 && s[0] in SEPARATORS && s[1] in SEPARATORS
  }

  predicate HasDrive(s: string) {
    |s| >= 2 && s[0] !in SEPARATORS && s[1] == ':'
  }

  predicate IsAbsolute(s: string) {
    HasDrive(s) || (s != "" && s[0] in SEPARATORS)
  }

  /** _scrub: the component is accepted, and whether it is absolute. */
  function Scrub(raw: string, allowAbsolute: bool): Result<bool, Refusal> {
    if raw == "" then Err(Empty)
    else if '\0' in raw then Err(Nul)
    else if Padded(raw) then Err(Whitespace)
    else if Unc(raw) then Err(UncOrDevice)
    else if IsAbsolute(raw) && !allowAbsolute then Err(Absolute)
    else if ".." in Split(if HasDrive(raw) then raw[2..] else raw, SEPARATORS) then Err(DotDot)
    else Ok(IsAbsolute(raw))
  }

  /** An absolute component as a relative one. `resolve` is os.path.realpath, as the segments
      of the canonical path it returns. */
  function Anchored(root: seq<string>, raw: string, resolve: string -> seq<string>): Result<string, Refusal> {
    var norm := Normpath(raw);
    var used := if Inside(norm, Render(root)) then norm else Render(resolve(norm));
    if !Inside(used, Render(root)) then Err(OutsideRoot)
    else
      var rel := Relpath(used, root);
      Ok(if rel == "." then "" else rel)
  }

  /** One turn of the loop over the parts. */
  function Next(root: seq<string>, scrubbed: seq<string>, raw: string, allowAbsolute: bool, resolve: string -> seq<string>)
    : Result<seq<string>, Refusal>
  {
    match Scrub(raw, allowAbsolute)
    case Err(e) => Err(e)
    case Ok(false) => Ok(scrubbed + [raw])
    case Ok(true) =>
      if scrubbed != [] then Err(AbsoluteNotFirst)
      else match Anchored(root, raw, resolve)
        case Err(e) => Err(e)
        case Ok(comp) => Ok(if comp == "" then scrubbed else scrubbed + [comp])
  }

  function Scrubbed(root: seq<string>, done: seq<string>, parts: seq<string>, allowAbsolute: bool, resolve: string -> seq<string>)
    : Result<seq<string>, Refusal>
    decreases |parts|
  {
    if parts == [] then Ok(done)
    else match Next(root, done, parts[0], allowAbsolute, resolve)
      case Err(e) => Err(e)
      case Ok(more) => Scrubbed(root, more, parts[1..], allowAbsolute, resolve)
  }

  function Candidate(root: seq<string>, scrubbed: seq<string>): string {
    if scrubbed == [] then Render(root) else Normpath(JoinAll(Render(root), scrubbed))
  }

  function Finish(root: seq<string>, cand: string, resolveLinks: bool, resolve: string -> seq<string>): Result<string, Refusal> {
    if !Inside(cand, Render(root)) then Err(EscapesRoot)
    else if !resolveLinks then Ok(cand)
    else if !Inside(Render(resolve(cand)), Render(root)) then Err(LinkOutside)
    else Ok(Render(resolve(cand)))
  }

  function Joined(root: seq<string>, parts: seq<string>, allowAbsolute: bool, resolveLinks: bool, resolve: string -> seq<string>)
    : Result<string, Refusal>
  {
    if parts == [] then Err(NoParts)
    else match Scrubbed(root, [], parts, allowAbsolute, resolve)
      case Err(e) => Err(e)
      case Ok(scrubbed) => Finish(root, Candidate(root, scrubbed), resolveLinks, resolve)
  }

  /** safe_join; `root` is the resolved root's segments. */
  method Join(root: seq<string>, parts: seq<string>, allowAbsolute: bool, resolveLinks: bool, resolve: string -> seq<string>)
    returns (r: Result<string, Refusal>)
    ensures r == Joined(root, parts, allowAbsolute, resolveLinks, resolve)
  {
    hide Finish, Candidate, Next;
    if parts == [] {
      return Err(NoParts);
    }
    var scrubbed: seq<string> := [];
    for i := 0 to |parts|
      invariant Scrubbed(root, [], parts, allowAbsolute, resolve) == Scrubbed(root, scrubbed, parts[i..], allowAbsolute, resolve)
    {
      assert parts[i..][0] == parts[i] && parts[i..][1..] == parts[i + 1..];
      var next := Next(root, scrubbed, parts[i], allowAbsolute, resolve);
      if next.Err? {
        return Err(next.error);
      }
      scrubbed := next.value;
    }
    assert parts[|parts|..] == [];
    return Finish(root, Candidate(root, scrubbed), resolveLinks, resolve);
  }

  // ----- what the rules give

  ghost predicate AllRelative(parts: seq<string>) {
    forall p | p in parts :: Relative(p)
  }

  lemma ScrubbedIsRelative(raw: string, allowAbsolute: bool)
    requires Scrub(raw, allowAbsolute) == Ok(false)
    ensures Relative(raw)
  {
    NoDotDot(raw);
  }

  ghost predicate Canonical(resolve: string -> seq<string>) {
    forall s :: Clean(resolve(s))
  }

  /** An absolute component without a drive that starts with a slash is normalised to a
      canonical path. */
  lemma AbsoluteNorm(raw: string, allowAbsolute: bool, root: seq<string>)
    requires Scrub(raw, allowAbsolute) == Ok(true) && Clean(root) && Inside(Normpath(raw), Render(root))
    ensures var segs := Kept(Split(raw, SLASH));
      Clean(segs) && Normpath(raw) == Render(segs)
  {
    hide Normpath, Split, Kept, JoinSegs;
    if StartsWith(raw, "/") {
      NoDotDot(raw);
      assert !StartsWith(raw, "//") by { assert !Unc(raw); }
      NormpathOfAbsolute(raw);
    } else {
      NormpathStaysRelative(raw);
    }
  }

  lemma {:induction false} ReducePlain(segs: seq<string>, rooted: bool, acc: seq<string>)
    requires forall x | x in segs :: '/' !in x
    requires forall x | x in acc :: '/' !in x && x != ""
    ensures forall x | x in Reduce(segs, rooted, acc) :: '/' !in x && x != ""
    decreases |segs|
  {
    if segs != [] {
      assert segs[0] in segs && forall x | x in segs[1..] :: x in segs;
      if segs[0] == "" || segs[0] == "." {
        ReducePlain(segs[1..], rooted, acc);
      } else if segs[0] != ".." || (!rooted && acc == []) || (acc != [] && acc[|acc| - 1] == "..") {
        ReducePlain(segs[1..], rooted, acc + [segs[0]]);
      } else if acc != [] {
        ReducePlain(segs[1..], rooted, acc[..|acc| - 1]);
      } else {
        ReducePlain(segs[1..], rooted, acc);
      }
    }
  }

  lemma NormpathStaysRelative(raw: string)
    requires !StartsWith(raw, "/")
    ensures Normpath(raw) != "" && Normpath(raw)[0] != '/'
  {
    PiecesArePlain(raw, SLASH);
    ReducePlain(Split(raw, SLASH), false, []);
    var segs := Reduce(Split(raw, SLASH), false, []);
    if segs != [] { assert segs[0] in segs && JoinSegs(segs)[0] == segs[0][0] && segs[0][0] in segs[0]; }
    assert "" + JoinSegs(segs) == JoinSegs(segs);
  }

  lemma AnchoredIsRelative(root: seq<string>, raw: string, allowAbsolute: bool, resolve: string -> seq<string>)
    requires Clean(root) && Canonical(resolve) && Scrub(raw, allowAbsolute) == Ok(true)
    requires Anchored(root, raw, resolve).Ok? && Anchored(root, raw, resolve).value != ""
    ensures Relative(Anchored(root, raw, resolve).value)
  {
    var norm := Normpath(raw);
    var segs := if Inside(norm, Render(root)) then Kept(Split(raw, SLASH)) else resolve(norm);
    if Inside(norm, Render(root)) { AbsoluteNorm(raw, allowAbsolute, root); }
    hide Scrub, Split, Kept, Normpath, Relpath, Relative, Inside, Render;
    TailIsRelative(segs, root);
  }

  lemma TailIsRelative(segs: seq<string>, root: seq<string>)
    requires Clean(segs) && Clean(root) && Inside(Render(segs), Render(root))
    ensures Relpath(Render(segs), root) == "." || Relative(Relpath(Render(segs), root))
  {
    hide Relpath, Relative, Inside, Render;
    InsideExtends(segs, root);
    RelpathOfInside(segs, root);
    if segs[|root|..] != [] { JoinedIsRelative(segs[|root|..]); }
  }

  /** Whatever the loop collects is relative and free of `..`. */
  lemma {:induction false} ScrubbedAreRelative(root: seq<string>, done: seq<string>, parts: seq<string>, allowAbsolute: bool,
      resolve: string -> seq<string>)
    requires Clean(root) && Canonical(resolve) && AllRelative(done)
    requires Scrubbed(root, done, parts, allowAbsolute, resolve).Ok?
    ensures AllRelative(Scrubbed(root, done, parts, allowAbsolute, resolve).value)
    decreases |parts|
  {
    if parts != [] {
      hide Scrub, Anchored, Relative;
      if Scrub(parts[0], allowAbsolute) == Ok(false) {
        ScrubbedIsRelative(parts[0], allowAbsolute);
      } else if Anchored(root, parts[0], resolve).Ok? && Anchored(root, parts[0], resolve).value != "" {
        AnchoredIsRelative(root, parts[0], allowAbsolute, resolve);
      }
      ScrubbedAreRelative(root, Next(root, done, parts[0], allowAbsolute, resolve).value, parts[1..], allowAbsolute, resolve);
    }
  }

  lemma CandidateIs(root: seq<string>, scrubbed: seq<string>)
    requires Clean(root) && AllRelative(scrubbed)
    ensures Candidate(root, scrubbed) == Render(root + AllKept(scrubbed)) && Clean(root + AllKept(scrubbed))
  {
    if scrubbed == [] {
      assert root + [] == root;
    } else {
      JoinUnderRoot(root, scrubbed);
    }
  }

  /** For any root but "/" the lexical escape check never rejects. */
  lemma EscapeIsUnreachable(root: seq<string>, parts: seq<string>, allowAbsolute: bool, resolveLinks: bool, resolve: string -> seq<string>)
    requires Clean(root) && root != [] && Canonical(resolve)
    ensures Joined(root, parts, allowAbsolute, resolveLinks, resolve) != Err(EscapesRoot)
  {
    var s := Scrubbed(root, [], parts, allowAbsolute, resolve);
    if s.Ok? {
      ScrubbedAreRelative(root, [], parts, allowAbsolute, resolve);
      CandidateIs(root, s.value);
      ExtendsIsInside(root, AllKept(s.value));
    }
    hide Scrubbed, Candidate, Inside;
    RefusalsOfTheLoop(root, [], parts, allowAbsolute, resolve);
  }

  lemma {:induction false} RefusalsOfTheLoop(root: seq<string>, done: seq<string>, parts: seq<string>, allowAbsolute: bool,
      resolve: string -> seq<string>)
    ensures Scrubbed(root, done, parts, allowAbsolute, resolve) != Err(EscapesRoot)
    decreases |parts|
  {
    if parts != [] {
      NextRefusals(root, done, parts[0], allowAbsolute, resolve);
      hide Next;
      var n := Next(root, done, parts[0], allowAbsolute, resolve);
      if n.Ok? { RefusalsOfTheLoop(root, n.value, parts[1..], allowAbsolute, resolve); }
    }
  }

  lemma NextRefusals(root: seq<string>, done: seq<string>, raw: string, allowAbsolute: bool, resolve: string -> seq<string>)
    ensures Next(root, done, raw, allowAbsolute, resolve) != Err(EscapesRoot)
  {
    hide Normpath, Relpath, Inside, Split;
  }

  /** Every returned path is canonical and has the root's segments in front, links resolved
      or not. */
  lemma ReturnedIsUnderRoot(root: seq<string>, parts: seq<string>, allowAbsolute: bool, resolveLinks: bool, resolve: string -> seq<string>)
    returns (rest: seq<string>)
    requires Clean(root) && Canonical(resolve) && Joined(root, parts, allowAbsolute, resolveLinks, resolve).Ok?
    ensures Clean(rest) && Joined(root, parts, allowAbsolute, resolveLinks, resolve).value == Render(root + rest)
  {
    hide *;
    var s := JoinedFrom(root, parts, allowAbsolute, resolveLinks, resolve);
    var cand := Candidate(root, s);
    CanonicalIsClean(resolve, cand);
    NoneIsRelative();
    ScrubbedAreRelative(root, [], parts, allowAbsolute, resolve);
    CandidateIs(root, s);
    if resolveLinks {
      InsideExtends(resolve(cand), root);
      rest := resolve(cand)[|root|..];
      assert root + rest == resolve(cand);
    } else {
      rest := AllKept(s);
    }
    CleanTail(root, rest);
  }

  lemma JoinedFrom(root: seq<string>, parts: seq<string>, allowAbsolute: bool, resolveLinks: bool, resolve: string -> seq<string>)
    returns (s: seq<string>)
    requires Joined(root, parts, allowAbsolute, resolveLinks, resolve).Ok?
    ensures Scrubbed(root, [], parts, allowAbsolute, resolve) == Ok(s)
    ensures var cand := Candidate(root, s);
      && (resolveLinks ==> Inside(Render(resolve(cand)), Render(root)))
      && Joined(root, parts, allowAbsolute, resolveLinks, resolve).value == if resolveLinks then Render(resolve(cand)) else cand
  {
    hide Scrubbed, Candidate, Inside, Render;
    s := Scrubbed(root, [], parts, allowAbsolute, resolve).value;
  }

  lemma CanonicalIsClean(resolve: string -> seq<string>, path: string)
    requires Canonical(resolve)
    ensures Clean(resolve(path))
  {
    hide Clean;
  }

  lemma NoneIsRelative()
    ensures AllRelative([])
  {
  }

  lemma CleanTail(root: seq<string>, rest: seq<string>)
    requires Clean(root + rest)
    ensures Clean(rest)
  {
    assert forall x | x in rest :: x in root + rest;
  }

  // ----- what is accepted

  /** How many parts in front are absolute. */
  function Lead(parts: seq<string>): (k: nat)
    ensures k <= |parts| && (forall i | 0 <= i < k :: IsAbsolute(parts[i])) && (k < |parts| ==> !IsAbsolute(parts[k]))
  {
    if parts == [] || !IsAbsolute(parts[0]) then 0 else 1 + Lead(parts[1..])
  }

  /** The segments of the path an absolute part stands for: its own, or the resolved ones
      when its text is outside the root. */
  function Anchor(root: seq<string>, raw: string, resolve: string -> seq<string>): seq<string> {
    if Inside(Normpath(raw), Render(root)) then Kept(Split(raw, SLASH)) else resolve(Normpath(raw))
  }

  /** The segments the parts name: those of the last absolute part, or of the root, and those
      of the relative parts behind it. */
  function Named(root: seq<string>, parts: seq<string>, resolve: string -> seq<string>): seq<string> {
    var k := Lead(parts);
    (if k == 0 then root else Anchor(root, parts[k - 1], resolve)) + AllKept(parts[k..])
  }

  /** The rules accept every part, the absolute ones come first and lie inside the root, and
      all but the last of these are the root itself. */
  ghost predicate Accepted(root: seq<string>, parts: seq<string>, allowAbsolute: bool, resolve: string -> seq<string>) {
    (forall p | p in parts :: Scrub(p, allowAbsolute).Ok?) && Led(root, parts, resolve)
  }

  ghost predicate Led(root: seq<string>, parts: seq<string>, resolve: string -> seq<string>) {
    && (forall i | Lead(parts) <= i < |parts| :: !IsAbsolute(parts[i]))
    && (forall i | 0 <= i < Lead(parts) :: Inside(Render(Anchor(root, parts[i], resolve)), Render(root)))
    && (forall i | 0 <= i < Lead(parts) - 1 :: Anchor(root, parts[i], resolve) == root)
  }

  /** safe_join accepts exactly what is accepted so, provided that, when links are resolved,
      the resolved path lies inside the root as well; it returns the named path, resolved or
      not. Under "/" it accepts only parts that name nothing, because no path starts with the
      root's own text and a slash. */
  lemma AcceptsExactly(root: seq<string>, parts: seq<string>, allowAbsolute: bool, resolveLinks: bool, resolve: string -> seq<string>)
    requires Clean(root) && Canonical(resolve)
    ensures var r := Joined(root, parts, allowAbsolute, resolveLinks, resolve);
      var named := Named(root, parts, resolve);
      && (r.Ok? <==>
          && parts != [] && Accepted(root, parts, allowAbsolute, resolve) && (root == [] ==> named == [])
          && (resolveLinks ==> Inside(Render(resolve(Render(named))), Render(root))))
      && (r.Ok? ==> r.value == Render(if resolveLinks then resolve(Render(named)) else named))
  {
    LeadLoop(root, parts, allowAbsolute, resolve);
    var s := Scrubbed(root, [], parts, allowAbsolute, resolve);
    hide Scrubbed, Candidate, Named, Accepted, Inside, Render, AllKept, Clean;
    if s.Ok? {
      ScrubbedAreRelative(root, [], parts, allowAbsolute, resolve);
      CandidateIs(root, s.value);
      InsideIff(root, AllKept(s.value));
    }
  }

  lemma InsideIff(root: seq<string>, rest: seq<string>)
    requires Clean(root + rest)
    ensures Inside(Render(root + rest), Render(root)) <==> (root == [] ==> root + rest == [])
  {
    if root == [] {
      assert root + rest == rest;
      InsideSlashIff(rest);
    } else {
      ExtendsIsInside(root, rest);
    }
  }

  /** With relative parts only: the root and their named segments. */
  lemma AcceptsRelative(root: seq<string>, parts: seq<string>, resolve: string -> seq<string>)
    requires Clean(root) && Canonical(resolve)
    ensures var r := Joined(root, parts, false, false, resolve);
      && (r.Ok? <==>
          parts != [] && (forall p | p in parts :: Scrub(p, false).Ok?) && (root == [] ==> AllKept(parts) == []))
      && (r.Ok? ==> r.value == Render(root + AllKept(parts)))
  {
    hide *;
    AcceptsExactly(root, parts, false, false, resolve);
    AllRelativeIff(root, parts, false, resolve);
    NoneAbsolute(parts);
    AcceptedIs(root, parts, resolve);
    assert root == [] ==> root + AllKept(parts) == AllKept(parts);
  }

  lemma NoneAbsolute(parts: seq<string>)
    ensures forall p | p in parts && Scrub(p, false).Ok? :: !IsAbsolute(p)
  {
    hide IsAbsolute, Scrub;
    forall p | p in parts && Scrub(p, false).Ok? ensures !IsAbsolute(p) { ScrubIsAbsolute(p, false); NotAllowed(p); }
  }

  lemma NotAllowed(raw: string)
    ensures Scrub(raw, false) != Ok(true)
  {
    hide Split, IsSpace;
  }

  lemma AcceptedIs(root: seq<string>, parts: seq<string>, resolve: string -> seq<string>)
    ensures Accepted(root, parts, false, resolve) ==> forall p | p in parts :: Scrub(p, false).Ok?
  {
    hide Scrub, Led;
  }

  lemma {:induction false} RelativeLoop(root: seq<string>, done: seq<string>, parts: seq<string>, allowAbsolute: bool,
      resolve: string -> seq<string>)
    requires done != [] || Lead(parts) == 0
    ensures var s := Scrubbed(root, done, parts, allowAbsolute, resolve);
      && (s.Ok? <==> forall p | p in parts :: Scrub(p, allowAbsolute).Ok? && !IsAbsolute(p))
      && (s.Ok? ==> s.value == done + parts)
    decreases |parts|
  {
    if parts != [] {
      assert forall p :: p in parts <==> p == parts[0] || p in parts[1..];
      ScrubIsAbsolute(parts[0], allowAbsolute);
      hide Scrub, Anchored, IsAbsolute;
      if Scrub(parts[0], allowAbsolute) == Ok(false) {
        RelativeLoop(root, done + [parts[0]], parts[1..], allowAbsolute, resolve);
        assert done + [parts[0]] + parts[1..] == done + parts;
      }
    } else {
      assert done + [] == done;
    }
  }

  lemma ScrubIsAbsolute(raw: string, allowAbsolute: bool)
    ensures Scrub(raw, allowAbsolute).Ok? ==> Scrub(raw, allowAbsolute).value == IsAbsolute(raw)
  {
    hide Split;
  }

  /** What an absolute part becomes, in terms of its segments. */
  lemma AnchoredIs(root: seq<string>, raw: string, allowAbsolute: bool, resolve: string -> seq<string>)
    requires Clean(root) && Canonical(resolve) && Scrub(raw, allowAbsolute) == Ok(true)
    ensures var a, segs := Anchored(root, raw, resolve), Anchor(root, raw, resolve);
      && (a.Ok? <==> Inside(Render(segs), Render(root)))
      && (a.Ok? ==> (a.value == "" <==> segs == root))
      && (a.Ok? && a.value != "" ==> root + Kept(Split(a.value, SLASH)) == segs)
  {
    var segs := Anchor(root, raw, resolve);
    if Inside(Normpath(raw), Render(root)) { AbsoluteNorm(raw, allowAbsolute, root); }
    hide Scrub, Split, Kept, Normpath, Relpath, Inside, Render;
    if Inside(Render(segs), Render(root)) { TailOf(segs, root); }
  }

  lemma TailOf(segs: seq<string>, root: seq<string>)
    requires Clean(segs) && Clean(root) && Inside(Render(segs), Render(root))
    ensures var rel := Relpath(Render(segs), root);
      && rel != "" && (rel == "." <==> segs == root)
      && (rel != "." ==> root + Kept(Split(rel, SLASH)) == segs)
  {
    hide Relpath, Split, Kept, Inside, Render;
    InsideExtends(segs, root);
    RelpathOfInside(segs, root);
    var rest := segs[|root|..];
    assert segs == root + rest;
    if rest != [] {
      JoinedIsRelative(rest);
      NamesItself(rest);
    } else {
      assert segs == root;
    }
  }

  lemma NamesItself(segs: seq<string>)
    requires segs != [] && Clean(segs) && Kept(Split(JoinSegs(segs), SLASH)) == segs
    ensures JoinSegs(segs) != "."
  {
    assert Kept(Split(".", SLASH)) == [];
  }

  lemma LedStep(root: seq<string>, parts: seq<string>, resolve: string -> seq<string>)
    requires Lead(parts) > 0
    ensures var first, rest := Anchor(root, parts[0], resolve), parts[1..];
      Led(root, parts, resolve) <==>
        Inside(Render(first), Render(root)) && (first == root || Lead(rest) == 0) && Led(root, rest, resolve)
  {
    hide Anchor, Inside, Render, IsAbsolute;
    var rest := parts[1..];
    var k := Lead(rest);
    assert Lead(parts) == k + 1;
    if Led(root, parts, resolve) {
      assert forall j | 0 <= j < |rest| :: rest[j] == parts[j + 1];
    }
    if Inside(Render(Anchor(root, parts[0], resolve)), Render(root)) && (Anchor(root, parts[0], resolve) == root || k == 0)
      && Led(root, rest, resolve)
    {
      assert forall j | 0 < j < |parts| :: parts[j] == rest[j - 1];
    }
  }

  /** An absolute part in front, and the rest. */
  lemma LeadStep(root: seq<string>, parts: seq<string>, allowAbsolute: bool, resolve: string -> seq<string>)
    requires Lead(parts) > 0
    ensures var first, rest := Anchor(root, parts[0], resolve), parts[1..];
      && (Accepted(root, parts, allowAbsolute, resolve) <==>
          && Scrub(parts[0], allowAbsolute).Ok? && Inside(Render(first), Render(root))
          && (first == root || Lead(rest) == 0) && Accepted(root, rest, allowAbsolute, resolve))
      && (Named(root, parts, resolve) ==
          if Lead(rest) == 0 then first + AllKept(rest) else Named(root, rest, resolve))
  {
    LedStep(root, parts, resolve);
    ScrubStep(parts, allowAbsolute);
    NamedStep(root, parts, resolve);
    hide Scrub, Anchor, AllKept, Inside, Render, Led, Named, Lead;
  }

  lemma ScrubStep(parts: seq<string>, allowAbsolute: bool)
    requires parts != []
    ensures (forall p | p in parts :: Scrub(p, allowAbsolute).Ok?) <==>
      Scrub(parts[0], allowAbsolute).Ok? && forall p | p in parts[1..] :: Scrub(p, allowAbsolute).Ok?
  {
    hide Scrub;
    assert forall p :: p in parts <==> p == parts[0] || p in parts[1..];
  }

  lemma NamedStep(root: seq<string>, parts: seq<string>, resolve: string -> seq<string>)
    requires Lead(parts) > 0
    ensures var first, rest := Anchor(root, parts[0], resolve), parts[1..];
      Named(root, parts, resolve) ==
        if Lead(rest) == 0 then first + AllKept(rest) else Named(root, rest, resolve)
  {
    hide Anchor, AllKept, IsAbsolute;
    var rest := parts[1..];
    var k := Lead(rest);
    assert Lead(parts) == k + 1 && parts[k + 1..] == rest[k..];
    assert k > 0 ==> rest[k - 1] == parts[k];
  }

  /** One turn of the loop with nothing collected yet and an absolute part. */
  lemma LoopStep(root: seq<string>, parts: seq<string>, allowAbsolute: bool, resolve: string -> seq<string>)
    requires parts != [] && Scrub(parts[0], allowAbsolute) == Ok(true)
    ensures var a := Anchored(root, parts[0], resolve);
      var s := Scrubbed(root, [], parts, allowAbsolute, resolve);
      if a.Err? then s.Err?
      else s == Scrubbed(root, if a.value == "" then [] else [a.value], parts[1..], allowAbsolute, resolve)
  {
    hide Scrub, Anchored;
    var a := Anchored(root, parts[0], resolve);
    assert a.Ok? ==> [] + [a.value] == [a.value];
  }

  lemma AllRelativeIff(root: seq<string>, parts: seq<string>, allowAbsolute: bool, resolve: string -> seq<string>)
    ensures (forall p | p in parts :: Scrub(p, allowAbsolute).Ok? && !IsAbsolute(p)) <==>
      Lead(parts) == 0 && Accepted(root, parts, allowAbsolute, resolve)
    ensures Lead(parts) == 0 ==> Named(root, parts, resolve) == root + AllKept(parts)
  {
    hide Scrub, Anchor, AllKept, Inside, Render, IsAbsolute;
    assert forall i | 0 <= i < |parts| :: parts[i] in parts;
    assert parts[0..] == parts;
  }

  lemma RefusedAtOnce(root: seq<string>, parts: seq<string>, allowAbsolute: bool, resolve: string -> seq<string>)
    requires parts != [] && Scrub(parts[0], allowAbsolute).Err?
    ensures Scrubbed(root, [], parts, allowAbsolute, resolve).Err?
  {
    hide Scrub;
  }

  /** The whole loop, absolute parts included. */
  lemma {:induction false} LeadLoop(root: seq<string>, parts: seq<string>, allowAbsolute: bool, resolve: string -> seq<string>)
    requires Clean(root) && Canonical(resolve)
    ensures var s := Scrubbed(root, [], parts, allowAbsolute, resolve);
      && (s.Ok? <==> Accepted(root, parts, allowAbsolute, resolve))
      && (s.Ok? ==> root + AllKept(s.value) == Named(root, parts, resolve))
    decreases |parts|
  {
    hide *;
    if Lead(parts) == 0 {
      RelativeLoop(root, [], parts, allowAbsolute, resolve);
      AllRelativeIff(root, parts, allowAbsolute, resolve);
      assert [] + parts == parts;
    } else {
      LeadStep(root, parts, allowAbsolute, resolve);
      ScrubIsAbsolute(parts[0], allowAbsolute);
      if Scrub(parts[0], allowAbsolute).Err? {
        RefusedAtOnce(root, parts, allowAbsolute, resolve);
      } else {
        AnchoredIs(root, parts[0], allowAbsolute, resolve);
        LoopStep(root, parts, allowAbsolute, resolve);
        var a := Anchored(root, parts[0], resolve);
        if a.Ok? && a.value == "" {
          LeadLoop(root, parts[1..], allowAbsolute, resolve);
          AllRelativeIff(root, parts[1..], allowAbsolute, resolve);
        } else if a.Ok? {
          RelativeTail(root, a.value, parts[1..], allowAbsolute, resolve);
        }
      }
    }
  }

  /** Once an absolute part is anchored, only relative ones may follow. */
  lemma RelativeTail(root: seq<string>, comp: string, rest: seq<string>, allowAbsolute: bool, resolve: string -> seq<string>)
    ensures var s := Scrubbed(root, [comp], rest, allowAbsolute, resolve);
      && (s.Ok? <==> Lead(rest) == 0 && Accepted(root, rest, allowAbsolute, resolve))
      && (s.Ok? ==> root + AllKept(s.value) == (root + Kept(Split(comp, SLASH))) + AllKept(rest))
  {
    RelativeLoop(root, [comp], rest, allowAbsolute, resolve);
    AllRelativeIff(root, rest, allowAbsolute, resolve);
    hide *;
    KeptStepAll(comp, rest);
    Assoc(root, Kept(Split(comp, SLASH)), AllKept(rest));
  }

  lemma KeptStepAll(comp: string, rest: seq<string>)
    ensures AllKept([comp] + rest) == Kept(Split(comp, SLASH)) + AllKept(rest)
  {
    hide Kept, Split;
    assert ([comp] + rest)[1..] == rest;
  }

  // ----- the rules on the text

  /** A component `..` between separators, either slash, or at an end. */
  ghost predicate StepsUp(s: string) {
    exists a, b :: IsPiece(s, {'/', '\\'}, a, "..", b)
  }

  /** A separator or a drive letter in front. */
  predicate Rooted(raw: string) {
    raw != "" && (raw[0] == '/' || raw[0] == '\\' || (|raw| >= 2 && raw[1] == ':'))
  }

  /** What the text rules accept: something without NUL and without white space at its ends,
      no UNC or device path, absolute only where that is allowed, and no step up. */
  lemma ScrubIs(raw: string, allowAbsolute: bool)
    ensures Scrub(raw, allowAbsolute).Ok? <==>
      && raw != "" && '\0' !in raw && !IsSpace(raw[0]) && !IsSpace(raw[|raw| - 1])
      && !(|raw| >= 2 && raw[0] in {'/', '\\'} && raw[1] in {'/', '\\'})
      && (Rooted(raw) ==> allowAbsolute)
      && !StepsUp(if |raw| >= 2 && raw[0] !in {'/', '\\'} && raw[1] == ':' then raw[2..] else raw)
    ensures Scrub(raw, allowAbsolute).Ok? ==> Scrub(raw, allowAbsolute).value == Rooted(raw)
  {
    SplitIs(if HasDrive(raw) then raw[2..] else raw, SEPARATORS, "..");
    hide Split, IsSpace;
  }
}
