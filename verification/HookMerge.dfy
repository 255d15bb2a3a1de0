/** Merging memsom's hooks into a settings file (memsom/bridge/wire_claude.py): list
    surgery in place that must be idempotent. */
module HookMerge {
  import opened Base

  /** One hook handler, or an entry that is not an object. */
  datatype Handler =
    | Hook(kind: Option<string>, command: Option<string>, timeout: Option<int>, extra: map<string, string>)
    | Foreign(text: string)

  /** One group of handlers, or an entry that is not an object. An absent, null or
      empty `hooks` list reads as no handlers. */
  datatype Group =
    | Group(matcher: Option<string>, hooks: Option<seq<Handler>>, extra: map<string, string>)
    | ForeignGroup(text: string)

  function Hooks(g: Group): seq<Handler> {
    if g.Group? && g.hooks.Some? then g.hooks.value else []
  }

  predicate Matches(h: Handler, probe: string) {
    h.Hook? && h.command.Some? && Contains(h.command.value, probe)
  }

  predicate AnyMatch(hs: seq<Handler>, probe: string) {
    exists h | h in hs :: Matches(h, probe)
  }

  /** The handlers that do not match, in order. */
  function Others(hs: seq<Handler>, probe: string): seq<Handler> {
    if hs == [] then []
    else (if Matches(hs[0], probe) then [] else [hs[0]]) + Others(hs[1..], probe)
  }

  function Matching(hs: seq<Handler>, probe: string): seq<Handler> {
    if hs == [] then []
    else (if Matches(hs[0], probe) then [hs[0]] else []) + Matching(hs[1..], probe)
  }

  /** All handlers of a list of groups, in order. */
  function Flat(gs: seq<Group>): seq<Handler> {
    if gs == [] then [] else Hooks(gs[0]) + Flat(gs[1..])
  }

  function FirstMatch(hs: seq<Handler>, probe: string): (i: nat)
    ensures i <= |hs|
    ensures forall j | 0 <= j < i :: !Matches(hs[j], probe)
    ensures i < |hs| ==> Matches(hs[i], probe)
  {
    if hs == [] || Matches(hs[0], probe) then 0 else 1 + FirstMatch(hs[1..], probe)
  }

  // ----- what _upsert_command makes of a list

  /** A group without its matching handlers from position `h` on; it goes away when
      that empties it. */
  function Cut(g: Group, h: nat, probe: string): seq<Group> {
    if h > |Hooks(g)| || !AnyMatch(Hooks(g)[h..], probe) then [g]
    else
      var left := Hooks(g)[..h] + Others(Hooks(g)[h..], probe);
      if left == [] then [] else [g.(hooks := Some(left))]
  }

  function CutAll(gs: seq<Group>, probe: string): seq<Group> {
    if gs == [] then [] else Cut(gs[0], 0, probe) + CutAll(gs[1..], probe)
  }

  predicate Has(gs: seq<Group>, probe: string) {
    exists g | g in gs :: AnyMatch(Hooks(g), probe)
  }

  /** The first match becomes the entry, later ones are dropped, and so are groups
      that this empties. */
  function Replaced(gs: seq<Group>, probe: string, entry: Handler): seq<Group> {
    if gs == [] then []
    else if !AnyMatch(Hooks(gs[0]), probe) then [gs[0]] + Replaced(gs[1..], probe, entry)
    else
      var hs := Hooks(gs[0]);
      var i := FirstMatch(hs, probe);
      if i < |hs| then
        [gs[0].(hooks := Some(hs[..i] + [entry] + Others(hs[i + 1..], probe)))] + CutAll(gs[1..], probe)
      else []
  }

  function Upserted(gs: seq<Group>, probe: string, entry: Handler): seq<Group> {
    if Has(gs, probe) then Replaced(gs, probe, entry)
    else gs + [Group(None, Some([entry]), map[])]
  }

  // ----- positions

  datatype Pos = Pos(g: nat, h: nat)

  predicate Earlier(a: Pos, b: Pos) {
    a.g < b.g || (a.g == b.g && a.h < b.h)
  }

  predicate IsAt(gs: seq<Group>, p: Pos) {
    p.g < |gs| && p.h < |Hooks(gs[p.g])|
  }

  predicate MatchAt(gs: seq<Group>, p: Pos, probe: string) {
    IsAt(gs, p) && Matches(Hooks(gs[p.g])[p.h], probe)
  }

  /** `found` is every matching position, in order. */
  ghost predicate Positions(gs: seq<Group>, probe: string, found: seq<Pos>) {
    && (forall p :: p in found <==> MatchAt(gs, p, probe))
    && (forall i, j | 0 <= i < j < |found| :: Earlier(found[i], found[j]))
  }

  method FindMatches(gs: seq<Group>, probe: string) returns (found: seq<Pos>)
    ensures Positions(gs, probe, found)
  {
    found := [];
    for gi := 0 to |gs|
      invariant forall p :: p in found <==> MatchAt(gs, p, probe) && p.g < gi
      invariant forall i, j | 0 <= i < j < |found| :: Earlier(found[i], found[j])
    {
      var hs := Hooks(gs[gi]);
      for hi := 0 to |hs|
        invariant forall p :: p in found <==> MatchAt(gs, p, probe) && (p.g < gi || (p.g == gi && p.h < hi))
        invariant forall i, j | 0 <= i < j < |found| :: Earlier(found[i], found[j])
      {
        if Matches(hs[hi], probe) {
          assert forall i | 0 <= i < |found| :: found[i] in found;
          found := found + [Pos(gi, hi)];
        }
      }
    }
  }

  // ----- deleting from the back

  /** The list once every match at or behind `p` is deleted. */
  function DeletedFrom(gs: seq<Group>, p: Pos, probe: string): seq<Group>
    requires p.g < |gs|
  {
    gs[..p.g] + Cut(gs[p.g], p.h, probe) + CutAll(gs[p.g + 1..], probe)
  }

  lemma {:induction false} OthersAll(hs: seq<Handler>, probe: string)
    requires forall h | h in hs :: !Matches(h, probe)
    ensures Others(hs, probe) == hs
  {
    if hs != [] {
      assert hs[0] in hs && forall h | h in hs[1..] :: h in hs;
      OthersAll(hs[1..], probe);
    }
  }

  lemma {:induction false} OthersSkip(a: seq<Handler>, b: seq<Handler>, probe: string)
    requires forall h | h in a :: !Matches(h, probe)
    ensures Others(a + b, probe) == a + Others(b, probe)
  {
    if a == [] {
      assert a + b == b;
    } else {
      assert a[0] in a && forall h | h in a[1..] :: h in a;
      OthersSkip(a[1..], b, probe);
      assert (a + b)[1..] == a[1..] + b;
    }
  }

  lemma {:induction false} CutAllNone(gs: seq<Group>, probe: string)
    requires forall g | g in gs :: !AnyMatch(Hooks(g), probe)
    ensures CutAll(gs, probe) == gs
  {
    if gs != [] {
      assert gs[0] in gs && forall g | g in gs[1..] :: g in gs;
      CutAllNone(gs[1..], probe);
      assert Hooks(gs[0])[0..] == Hooks(gs[0]);
    }
  }

  lemma {:induction false} CutAllAppend(a: seq<Group>, b: seq<Group>, probe: string)
    ensures CutAll(a + b, probe) == CutAll(a, probe) + CutAll(b, probe)
  {
    if a == [] {
      assert a + b == b;
    } else {
      hide *;
      HeadTail(a, b);
      CutAllAppend(a[1..], b, probe);
      CutAllStep(a, probe);
      CutAllStep(a + b, probe);
      Assoc(Cut(a[0], 0, probe), CutAll(a[1..], probe), CutAll(b, probe));
    }
  }

  lemma CutAllStep(gs: seq<Group>, probe: string)
    requires gs != []
    ensures CutAll(gs, probe) == Cut(gs[0], 0, probe) + CutAll(gs[1..], probe)
  {
  }

  /** Cutting from a position with no match in front of it is cutting the whole group. */
  lemma CutFromFirst(g: Group, h: nat, probe: string)
    requires h <= |Hooks(g)| && forall j | 0 <= j < h :: !Matches(Hooks(g)[j], probe)
    ensures Cut(g, h, probe) == Cut(g, 0, probe)
  {
    var hs := Hooks(g);
    assert hs[..h] + hs[h..] == hs && hs[0..] == hs && hs[..0] == [];
    forall x | x in hs[..h] ensures !Matches(x, probe) { }
    OthersSkip(hs[..h], hs[h..], probe);
    assert AnyMatch(hs[h..], probe) <==> AnyMatch(hs, probe) by {
      if AnyMatch(hs, probe) {
        var x :| x in hs && Matches(x, probe);
        assert x in hs[..h] + hs[h..];
      }
    }
    assert [] + Others(hs, probe) == Others(hs, probe);
  }

  /** No match lies strictly between two positions. */
  ghost predicate GapFree(gs: seq<Group>, a: Pos, b: Pos, probe: string) {
    forall p :: Earlier(a, p) && Earlier(p, b) ==> !MatchAt(gs, p, probe)
  }

  /** One deletion of the loop: from "every match at or behind `b` is gone" to "every
      match at or behind `a` is gone", `a` being the match in front of `b`. */
  function DeleteAt(gs: seq<Group>, p: Pos): seq<Group>
    requires IsAt(gs, p) && gs[p.g].Group?
  {
    var hs := Hooks(gs[p.g]);
    var left := hs[..p.h] + hs[p.h + 1..];
    if left == [] then gs[..p.g] + gs[p.g + 1..] else gs[p.g := gs[p.g].(hooks := Some(left))]
  }

  lemma CutLastInGroup(g: Group, h: nat, probe: string)
    requires h < |Hooks(g)| && Matches(Hooks(g)[h], probe)
    requires forall j | h < j < |Hooks(g)| :: !Matches(Hooks(g)[j], probe)
    ensures var left := Hooks(g)[..h] + Hooks(g)[h + 1..];
      Cut(g, h, probe) == if left == [] then [] else [g.(hooks := Some(left))]
  {
    var hs := Hooks(g);
    assert hs[h..] == [hs[h]] + hs[h + 1..];
    assert hs[h] in hs[h..];
    forall x | x in hs[h + 1..] ensures !Matches(x, probe) { }
    OthersAll(hs[h + 1..], probe);
    assert [] + hs[h + 1..] == hs[h + 1..];
  }

  /** Between two neighbouring matches in different groups nothing is cut. */
  lemma NothingBetween(gs: seq<Group>, a: Pos, b: Pos, probe: string)
    requires MatchAt(gs, a, probe) && MatchAt(gs, b, probe) && a.g < b.g && GapFree(gs, a, b, probe)
    ensures CutAll(gs[a.g + 1..b.g], probe) == gs[a.g + 1..b.g]
    ensures Cut(gs[b.g], b.h, probe) == Cut(gs[b.g], 0, probe)
    ensures a.h < |Hooks(gs[a.g])| && forall j | a.h < j < |Hooks(gs[a.g])| :: !Matches(Hooks(gs[a.g])[j], probe)
  {
    hide Matches;
    forall j | a.h < j < |Hooks(gs[a.g])| ensures !Matches(Hooks(gs[a.g])[j], probe) {
      assert !MatchAt(gs, Pos(a.g, j), probe);
    }
    forall j | 0 <= j < b.h ensures !Matches(Hooks(gs[b.g])[j], probe) {
      assert !MatchAt(gs, Pos(b.g, j), probe);
    }
    CutFromFirst(gs[b.g], b.h, probe);
    var mid := gs[a.g + 1..b.g];
    forall x | x in mid ensures !AnyMatch(Hooks(x), probe) {
      var i :| 0 <= i < |mid| && mid[i] == x;
      forall j | 0 <= j < |Hooks(x)| ensures !Matches(Hooks(x)[j], probe) {
        assert !MatchAt(gs, Pos(a.g + 1 + i, j), probe);
      }
    }
    CutAllNone(mid, probe);
  }

  lemma CutBehind(gs: seq<Group>, lo: nat, b: nat, probe: string)
    requires lo <= b < |gs|
    ensures CutAll(gs[lo..], probe) == CutAll(gs[lo..b], probe) + (Cut(gs[b], 0, probe) + CutAll(gs[b + 1..], probe))
  {
    assert gs[lo..] == gs[lo..b] + gs[b..];
    CutAllAppend(gs[lo..b], gs[b..], probe);
    assert gs[b..][1..] == gs[b + 1..];
  }

  /** Deleting the match in an earlier group. */
  lemma DeleteInEarlierGroup(gs: seq<Group>, a: Pos, b: Pos, probe: string)
    requires MatchAt(gs, a, probe) && MatchAt(gs, b, probe) && a.g < b.g && GapFree(gs, a, b, probe)
    ensures var t := DeletedFrom(gs, b, probe);
      && IsAt(t, a) && t[a.g] == gs[a.g] && t[a.g].Group?
      && DeleteAt(t, a) == DeletedFrom(gs, a, probe)
  {
    hide Cut, CutAll, Matches, GapFree, AnyMatch, DeleteAt, Hooks;
    NothingBetween(gs, a, b, probe);
    CutBehind(gs, a.g + 1, b.g, probe);
    CutLastInGroup(gs[a.g], a.h, probe);
    HooksOfGroup(gs[a.g]);
    var mid := gs[a.g + 1..b.g];
    var tail := Cut(gs[b.g], b.h, probe) + CutAll(gs[b.g + 1..], probe);
    var t := DeletedFrom(gs, b, probe);
    assert gs[..b.g] == gs[..a.g] + [gs[a.g]] + mid;
    assert t == gs[..a.g] + [gs[a.g]] + (mid + tail);
    Surgery(gs[..a.g], gs[a.g], mid + tail, a);
  }

  lemma HooksOfGroup(g: Group)
    ensures Hooks(g) != [] ==> g.Group?
  {
  }

  lemma Surgery(head: seq<Group>, g: Group, tail: seq<Group>, p: Pos)
    requires p.g == |head| && p.h < |Hooks(g)| && g.Group?
    ensures var left := Hooks(g)[..p.h] + Hooks(g)[p.h + 1..];
      DeleteAt(head + [g] + tail, p) == head + (if left == [] then [] else [g.(hooks := Some(left))]) + tail
  {
    var t := head + [g] + tail;
    assert t[..p.g] == head && t[p.g + 1..] == tail && t[p.g] == g;
  }

  /** Deleting an earlier match in the same group, which is still there. */
  lemma DeleteInSameGroup(gs: seq<Group>, a: Pos, b: Pos, probe: string)
    requires MatchAt(gs, a, probe) && MatchAt(gs, b, probe) && a.g == b.g && a.h < b.h && GapFree(gs, a, b, probe)
    ensures var t := DeletedFrom(gs, b, probe);
      && IsAt(t, a) && t[a.g].Group?
      && DeleteAt(t, a) == DeletedFrom(gs, a, probe)
  {
    var hs := Hooks(gs[a.g]);
    forall j | a.h < j < b.h ensures !Matches(hs[j], probe) { assert !MatchAt(gs, Pos(a.g, j), probe); }
    CutTwice(gs[a.g], a.h, b.h, probe);
    var cut := gs[a.g].(hooks := Some(hs[..b.h] + Others(hs[b.h..], probe)));
    var tail := CutAll(gs[a.g + 1..], probe);
    hide Cut, CutAll, Matches, Others, GapFree;
    assert DeletedFrom(gs, b, probe) == gs[..a.g] + [cut] + tail;
    Surgery(gs[..a.g], cut, tail, a);
  }

  lemma CutTwice(g: Group, a: nat, b: nat, probe: string)
    requires a < b < |Hooks(g)| && Matches(Hooks(g)[a], probe) && Matches(Hooks(g)[b], probe)
    requires forall j | a < j < b :: !Matches(Hooks(g)[j], probe)
    ensures var hs := Hooks(g);
      var at_b := hs[..b] + Others(hs[b..], probe);
      var left := at_b[..a] + at_b[a + 1..];
      && g.Group? && Cut(g, b, probe) == [g.(hooks := Some(at_b))]
      && Cut(g, a, probe) == if left == [] then [] else [g.(hooks := Some(left))]
  {
    var hs := Hooks(g);
    DropHead(hs, a);
    DropHead(hs, b);
    CutFrom(g, a, probe);
    CutFrom(g, b, probe);
    hide *;
    OthersBetween(hs, a, b, probe);
    WithoutOne(hs, a, b, Others(hs[b..], probe));
  }

  lemma WithoutOne(hs: seq<Handler>, a: nat, b: nat, tail: seq<Handler>)
    requires a < b <= |hs|
    ensures var t := hs[..b] + tail;
      t[..a] == hs[..a] && t[a + 1..] == hs[a + 1..b] + tail
  {
  }

  lemma CutFrom(g: Group, h: nat, probe: string)
    requires h < |Hooks(g)| && Matches(Hooks(g)[h], probe)
    ensures var left := Hooks(g)[..h] + Others(Hooks(g)[h..], probe);
      g.Group? && Cut(g, h, probe) == (if left == [] then [] else [g.(hooks := Some(left))])
    ensures h > 0 ==> Hooks(g)[..h] + Others(Hooks(g)[h..], probe) != []
  {
    DropHead(Hooks(g), h);
    hide Others;
    if h > 0 { assert Hooks(g)[..h] != []; }
  }

  lemma OthersBetween(hs: seq<Handler>, a: nat, b: nat, probe: string)
    requires a < b < |hs| && Matches(hs[a], probe) && forall j | a < j < b :: !Matches(hs[j], probe)
    ensures Others(hs[a..], probe) == hs[a + 1..b] + Others(hs[b..], probe)
  {
    hide Matches;
    DropHead(hs, a);
    OthersStep(hs[a..], probe);
    hide Others;
    var mid := hs[a + 1..b];
    forall x | x in mid ensures !Matches(x, probe) {
      var i :| 0 <= i < |mid| && mid[i] == x;
      assert mid[i] == hs[a + 1 + i];
    }
    assert hs[a + 1..] == mid + hs[b..];
    OthersSkip(mid, hs[b..], probe);
  }

  /** One round of the deletion loop. */
  lemma DeleteRound(gs: seq<Group>, a: Pos, b: Pos, probe: string)
    requires MatchAt(gs, a, probe) && MatchAt(gs, b, probe) && Earlier(a, b) && GapFree(gs, a, b, probe)
    ensures var t := DeletedFrom(gs, b, probe);
      IsAt(t, a) && t[a.g].Group? && DeleteAt(t, a) == DeletedFrom(gs, a, probe)
  {
    hide *;
    assert a.g < b.g || (a.g == b.g && a.h < b.h) by { EarlierCases(a, b); }
    if a.g < b.g { DeleteInEarlierGroup(gs, a, b, probe); } else { DeleteInSameGroup(gs, a, b, probe); }
  }

  lemma EarlierCases(a: Pos, b: Pos)
    requires Earlier(a, b)
    ensures a.g < b.g || (a.g == b.g && a.h < b.h)
  {
  }

  /** The first round: the last match of all. */
  lemma DeleteLast(gs: seq<Group>, a: Pos, probe: string)
    requires MatchAt(gs, a, probe) && forall p | Earlier(a, p) :: !MatchAt(gs, p, probe)
    ensures DeleteAt(gs, a) == DeletedFrom(gs, a, probe)
  {
    hide *;
    LastFacts(gs, a, probe);
    var g := gs[a.g];
    CutLastInGroup(g, a.h, probe);
    NoMatchBehind(gs, a, probe);
    DeletedParts(gs, a, probe);
    assert gs == gs[..a.g] + [g] + gs[a.g + 1..];
    Surgery(gs[..a.g], g, gs[a.g + 1..], a);
  }

  lemma LastFacts(gs: seq<Group>, a: Pos, probe: string)
    requires MatchAt(gs, a, probe) && forall p | Earlier(a, p) :: !MatchAt(gs, p, probe)
    ensures IsAt(gs, a) && a.g < |gs| && a.h < |Hooks(gs[a.g])| && gs[a.g].Group? && Matches(Hooks(gs[a.g])[a.h], probe)
    ensures forall j | a.h < j < |Hooks(gs[a.g])| :: !Matches(Hooks(gs[a.g])[j], probe)
  {
    forall j | a.h < j < |Hooks(gs[a.g])| ensures !Matches(Hooks(gs[a.g])[j], probe) { assert !MatchAt(gs, Pos(a.g, j), probe); }
  }

  // ----- from the deletions to the specification

  function SetAt(gs: seq<Group>, p: Pos, entry: Handler): seq<Group>
    requires IsAt(gs, p) && gs[p.g].Group?
  {
    gs[p.g := gs[p.g].(hooks := Some(Hooks(gs[p.g])[p.h := entry]))]
  }

  lemma {:induction false} ReplacedAt(gs: seq<Group>, p: Pos, probe: string, entry: Handler)
    requires MatchAt(gs, p, probe) && forall q | Earlier(q, p) :: !MatchAt(gs, q, probe)
    ensures gs[p.g].Group?
    ensures var hs := Hooks(gs[p.g]);
      Replaced(gs, probe, entry) == gs[..p.g] +
        [gs[p.g].(hooks := Some(hs[..p.h] + [entry] + Others(hs[p.h + 1..], probe)))] + CutAll(gs[p.g + 1..], probe)
    decreases p.g
  {
    hide Replaced, Matches, Others, CutAll, FirstMatch, AnyMatch;
    if p.g == 0 {
      FirstIsHere(gs, p, probe);
      ReplacedHead(gs, p.h, probe, entry);
      hide *;
      assert gs[..0] == [];
    } else {
      NoneInHead(gs, p, probe);
      ReplacedTail(gs, probe, entry);
      var q := Pos(p.g - 1, p.h);
      ReplacedAt(gs[1..], q, probe, entry);
      ReplacedShift(gs, p, probe, entry);
    }
  }

  lemma FirstIsHere(gs: seq<Group>, p: Pos, probe: string)
    requires MatchAt(gs, p, probe) && p.g == 0 && forall q | Earlier(q, p) :: !MatchAt(gs, q, probe)
    ensures AnyMatch(Hooks(gs[0]), probe) && FirstMatch(Hooks(gs[0]), probe) == p.h
  {
    var hs := Hooks(gs[0]);
    assert hs[p.h] in hs;
    forall j | 0 <= j < p.h ensures !Matches(hs[j], probe) { assert !MatchAt(gs, Pos(0, j), probe); }
  }

  lemma NoneInHead(gs: seq<Group>, p: Pos, probe: string)
    requires MatchAt(gs, p, probe) && p.g > 0 && forall q | Earlier(q, p) :: !MatchAt(gs, q, probe)
    ensures !AnyMatch(Hooks(gs[0]), probe)
    ensures var q := Pos(p.g - 1, p.h);
      MatchAt(gs[1..], q, probe) && forall r | Earlier(r, q) :: !MatchAt(gs[1..], r, probe)
  {
    hide Matches;
    forall j | 0 <= j < |Hooks(gs[0])| ensures !Matches(Hooks(gs[0])[j], probe) { assert !MatchAt(gs, Pos(0, j), probe); }
    var q := Pos(p.g - 1, p.h);
    forall r | Earlier(r, q) ensures !MatchAt(gs[1..], r, probe) { assert !MatchAt(gs, Pos(r.g + 1, r.h), probe); }
  }

  lemma ReplacedShift(gs: seq<Group>, p: Pos, probe: string, entry: Handler)
    requires 0 < p.g < |gs|
    ensures gs[..p.g] == [gs[0]] + gs[1..][..p.g - 1] && gs[1..][p.g - 1] == gs[p.g] && gs[1..][p.g..] == gs[p.g + 1..]
  {
  }

  /** With a single match there is nothing to delete. */
  lemma SingleMatch(gs: seq<Group>, p: Pos, probe: string, entry: Handler)
    requires MatchAt(gs, p, probe) && forall q | q != p :: !MatchAt(gs, q, probe)
    ensures gs[p.g].Group? && SetAt(gs, p, entry) == Replaced(gs, probe, entry)
  {
    hide Matches, CutAll, Cut, AnyMatch, Others, Replaced, SetAt;
    ReplacedAt(gs, p, probe, entry);
    NoMatchBehind(gs, p, probe);
    SetParts(gs, p, entry);
  }

  lemma SetParts(gs: seq<Group>, p: Pos, entry: Handler)
    requires IsAt(gs, p) && gs[p.g].Group?
    ensures var hs := Hooks(gs[p.g]);
      SetAt(gs, p, entry) ==
        gs[..p.g] + [gs[p.g].(hooks := Some(hs[..p.h] + [entry] + hs[p.h + 1..]))] + gs[p.g + 1..]
  {
    var hs := Hooks(gs[p.g]);
    assert hs[p.h := entry] == hs[..p.h] + [entry] + hs[p.h + 1..];
  }

  lemma NoMatchBehind(gs: seq<Group>, p: Pos, probe: string)
    requires IsAt(gs, p) && forall q | Earlier(p, q) :: !MatchAt(gs, q, probe)
    ensures Others(Hooks(gs[p.g])[p.h + 1..], probe) == Hooks(gs[p.g])[p.h + 1..]
    ensures CutAll(gs[p.g + 1..], probe) == gs[p.g + 1..]
  {
    hide Matches;
    var post, rest := Hooks(gs[p.g])[p.h + 1..], gs[p.g + 1..];
    forall x | x in post ensures !Matches(x, probe) {
      var i :| 0 <= i < |post| && post[i] == x;
      assert !MatchAt(gs, Pos(p.g, p.h + 1 + i), probe);
    }
    OthersAll(post, probe);
    forall x | x in rest ensures !AnyMatch(Hooks(x), probe) {
      var i :| 0 <= i < |rest| && rest[i] == x;
      forall j | 0 <= j < |Hooks(x)| ensures !Matches(Hooks(x)[j], probe) {
        assert !MatchAt(gs, Pos(p.g + 1 + i, j), probe);
      }
    }
    CutAllNone(rest, probe);
  }

  /** With more than one, deleting everything from the second match on, after the
      first is overwritten, gives the specified list. */
  lemma SeveralMatches(gs: seq<Group>, a: Pos, b: Pos, probe: string, entry: Handler)
    requires MatchAt(gs, a, probe) && MatchAt(gs, b, probe) && Earlier(a, b) && GapFree(gs, a, b, probe)
    requires forall q | Earlier(q, a) :: !MatchAt(gs, q, probe)
    ensures gs[a.g].Group? && b.g < |gs|
    ensures DeletedFrom(SetAt(gs, a, entry), b, probe) == Replaced(gs, probe, entry)
  {
    ReplacedAt(gs, a, probe, entry);
    if a.g < b.g {
      SeveralAcross(gs, a, b, probe, entry);
    } else {
      SeveralWithin(gs, a, b, probe, entry);
    }
  }

  lemma SeveralAcross(gs: seq<Group>, a: Pos, b: Pos, probe: string, entry: Handler)
    requires MatchAt(gs, a, probe) && MatchAt(gs, b, probe) && a.g < b.g && GapFree(gs, a, b, probe)
    requires IsAt(gs, a) && gs[a.g].Group? && b.g < |gs|
    ensures var hs := Hooks(gs[a.g]);
      DeletedFrom(SetAt(gs, a, entry), b, probe) == gs[..a.g] +
        [gs[a.g].(hooks := Some(hs[..a.h] + [entry] + Others(hs[a.h + 1..], probe)))] + CutAll(gs[a.g + 1..], probe)
  {
    hide *;
    var hs := Hooks(gs[a.g]);
    NothingBetween(gs, a, b, probe);
    CutBehind(gs, a.g + 1, b.g, probe);
    NoneLeft(hs, a.h + 1, probe);
    SetSplit(gs, a, b.g, entry);
    DeletedParts(SetAt(gs, a, entry), b, probe);
    Regroup(gs[..a.g], [SetAt(gs, a, entry)[a.g]], gs[a.g + 1..b.g], Cut(gs[b.g], b.h, probe), CutAll(gs[b.g + 1..], probe));
  }

  lemma Regroup(a: seq<Group>, b: seq<Group>, c: seq<Group>, d: seq<Group>, e: seq<Group>)
    ensures (a + b + c) + d + e == a + b + (c + (d + e))
  {
  }

  lemma DeletedParts(gs: seq<Group>, p: Pos, probe: string)
    requires p.g < |gs|
    ensures DeletedFrom(gs, p, probe) == gs[..p.g] + Cut(gs[p.g], p.h, probe) + CutAll(gs[p.g + 1..], probe)
  {
  }

  lemma NoneLeft(hs: seq<Handler>, from: nat, probe: string)
    requires from <= |hs| && forall i | from <= i < |hs| :: !Matches(hs[i], probe)
    ensures Others(hs[from..], probe) == hs[from..]
  {
    OthersAll(hs[from..], probe);
  }

  lemma SetSplit(gs: seq<Group>, a: Pos, b: nat, entry: Handler)
    requires IsAt(gs, a) && gs[a.g].Group? && a.g < b < |gs|
    ensures var t := SetAt(gs, a, entry);
      var hs := Hooks(gs[a.g]);
      && |t| == |gs| && t[..b] == gs[..a.g] + [t[a.g]] + gs[a.g + 1..b] && t[b] == gs[b] && t[b + 1..] == gs[b + 1..]
      && t[a.g] == gs[a.g].(hooks := Some(hs[..a.h] + [entry] + hs[a.h + 1..]))
  {
    var hs := Hooks(gs[a.g]);
    assert hs[a.h := entry] == hs[..a.h] + [entry] + hs[a.h + 1..];
  }

  lemma SeveralWithin(gs: seq<Group>, a: Pos, b: Pos, probe: string, entry: Handler)
    requires MatchAt(gs, a, probe) && MatchAt(gs, b, probe) && a.g == b.g && a.h < b.h && GapFree(gs, a, b, probe)
    requires gs[a.g].Group?
    ensures var hs := Hooks(gs[a.g]);
      DeletedFrom(SetAt(gs, a, entry), b, probe) == gs[..a.g] +
        [gs[a.g].(hooks := Some(hs[..a.h] + [entry] + Others(hs[a.h + 1..], probe)))] + CutAll(gs[a.g + 1..], probe)
  {
    var hs := Hooks(gs[a.g]);
    forall j | a.h < j < b.h ensures !Matches(hs[j], probe) { assert !MatchAt(gs, Pos(a.g, j), probe); }
    CutAfterSet(gs[a.g], a.h, b.h, probe, entry);
    hide Cut, CutAll, Matches, Others, GapFree, AnyMatch;
    var t := SetAt(gs, a, entry);
    assert t[..a.g] == gs[..a.g] && t[a.g + 1..] == gs[a.g + 1..];
  }

  lemma CutAfterSet(g: Group, a: nat, b: nat, probe: string, entry: Handler)
    requires g.Group? && a < b < |Hooks(g)| && Matches(Hooks(g)[b], probe)
    requires forall j | a < j < b :: !Matches(Hooks(g)[j], probe)
    ensures var hs := Hooks(g);
      Cut(g.(hooks := Some(hs[a := entry])), b, probe) ==
        [g.(hooks := Some(hs[..a] + [entry] + Others(hs[a + 1..], probe)))]
  {
    var hs := Hooks(g);
    var hs1 := hs[a := entry];
    assert hs1[b..] == hs[b..] && hs[b..][0] == hs[b] && hs[b] in hs[b..];
    var mid := hs[a + 1..b];
    forall x | x in mid ensures !Matches(x, probe) {
      var i :| 0 <= i < |mid| && mid[i] == x;
      assert mid[i] == hs[a + 1 + i];
    }
    assert hs[a + 1..] == mid + hs[b..];
    OthersSkip(mid, hs[b..], probe);
    assert hs1[..b] == hs[..a] + [entry] + mid;
    assert hs[..a] + [entry] + mid + Others(hs[b..], probe) == hs[..a] + [entry] + (mid + Others(hs[b..], probe));
  }

  // ----- the list edited in place

  class HookList {
    var groups: seq<Group>

    constructor (gs: seq<Group>)
      ensures groups == gs
    {
      groups := gs;
    }

    /** _upsert_command: overwrite the first match, delete the later ones from the back,
        append a new group when there is none. */
    method UpsertCommand(probe: string, entry: Handler) returns (changed: bool)
      modifies this
      ensures groups == Upserted(old(groups), probe, entry)
      ensures !changed ==> groups == old(groups)
      ensures changed && Matches(entry, probe) ==> groups != old(groups)
    {
      ghost var gs := groups;
      var found := FindMatches(groups, probe);
      HasIffFound(gs, probe, found);
      if found == [] {
        groups := groups + [Group(None, Some([entry]), map[])];
        return true;
      }
      var p := found[0];
      FoundShape(gs, probe, found);
      changed := Hooks(groups[p.g])[p.h] != entry;
      if changed {
        groups := groups[p.g := groups[p.g].(hooks := Some(Hooks(groups[p.g])[p.h := entry]))];
      }
      ghost var gs1 := SetAt(gs, p, entry);
      SetAtSame(gs, p, entry);
      var k := |found|;
      while k > 1
        invariant 1 <= k <= |found|
        invariant forall i | 1 <= i < |found| :: found[i].g < |gs1|
        invariant groups == if k == |found| then gs1 else DeletedFrom(gs1, found[k], probe)
        invariant k < |found| ==> changed
        invariant k == |found| ==> (changed <==> gs1 != gs)
      {
        hide *;
        DeletionRound(gs, probe, found, entry, k);
        groups := DeleteAt(groups, found[k - 1]);
        changed := true;
        k := k - 1;
      }
      UpsertDone(gs, probe, found, entry);
    }

    /** _upgrade_bare: replace every outdated handler for the probe where it stands,
        unless the entry's own command is bare. */
    method UpgradeBare(probe: string, entry: Handler, bare: string -> bool, stale: string -> bool) returns (changed: bool)
      requires entry.Hook? && entry.command.Some?
      modifies this
      ensures groups == if bare(entry.command.value) then old(groups) else Upgraded(old(groups), probe, entry, stale)
      ensures changed <==> groups != old(groups)
    {
      if bare(entry.command.value) {
        return false;
      }
      ghost var gs := groups;
      changed := false;
      for gi := 0 to |groups|
        invariant |groups| == |gs|
        invariant forall i | 0 <= i < gi :: groups[i] == UpgradedGroup(gs[i], probe, entry, stale)
        invariant forall i | gi <= i < |gs| :: groups[i] == gs[i]
        invariant changed <==> exists i | 0 <= i < |gs| :: groups[i] != gs[i]
      {
        if groups[gi].Group? && groups[gi].hooks.Some? {
          var hs, touched := RefitHooks(groups[gi].hooks.value, probe, entry, stale);
          groups := groups[gi := groups[gi].(hooks := Some(hs))];
          assert touched <==> groups[gi] != gs[gi];
          changed := changed || touched;
        }
      }
      assert !changed ==> groups == gs;
    }
  }

  /** The inner loop of _upgrade_bare over the handlers of one group. */
  method RefitHooks(start: seq<Handler>, probe: string, entry: Handler, stale: string -> bool)
    returns (hs: seq<Handler>, touched: bool)
    ensures hs == RefitAll(start, probe, entry, stale)
    ensures touched <==> hs != start
  {
    hs, touched := start, false;
    for hi := 0 to |hs|
      invariant |hs| == |start|
      invariant forall j | 0 <= j < hi :: hs[j] == Refit(start[j], probe, entry, stale)
      invariant forall j | hi <= j < |hs| :: hs[j] == start[j]
      invariant touched <==> exists j | 0 <= j < |hs| :: hs[j] != start[j]
    {
      if Outdated(hs[hi], probe, entry, stale) {
        ghost var before := hs;
        hs := hs[hi := entry];
        touched := true;
        assert hs[hi] != start[hi];
      }
    }
    assert !touched ==> hs == start;
  }

  // ----- upgrading stale handlers in place

  /** A handler `_upgrade_bare` replaces. Whether a command can still run is a question
      to the file system, so `stale` is a parameter. */
  predicate Outdated(h: Handler, probe: string, entry: Handler, stale: string -> bool) {
    Matches(h, probe) && stale(h.command.value) && h != entry
  }

  function Refit(h: Handler, probe: string, entry: Handler, stale: string -> bool): Handler {
    if Outdated(h, probe, entry, stale) then entry else h
  }

  function RefitAll(hs: seq<Handler>, probe: string, entry: Handler, stale: string -> bool): seq<Handler> {
    seq(|hs|, j requires 0 <= j < |hs| => Refit(hs[j], probe, entry, stale))
  }

  function UpgradedGroup(g: Group, probe: string, entry: Handler, stale: string -> bool): Group {
    if g.Group? && g.hooks.Some? then g.(hooks := Some(RefitAll(g.hooks.value, probe, entry, stale))) else g
  }

  function Upgraded(gs: seq<Group>, probe: string, entry: Handler, stale: string -> bool): seq<Group> {
    seq(|gs|, i requires 0 <= i < |gs| => UpgradedGroup(gs[i], probe, entry, stale))
  }

  /** An upgrade keeps the number and place of all handlers; a group is matched after it
      exactly if it was before. */
  lemma UpgradeKeepsMatches(gs: seq<Group>, probe: string, entry: Handler, stale: string -> bool)
    requires Matches(entry, probe)
    ensures forall p :: MatchAt(Upgraded(gs, probe, entry, stale), p, probe) <==> MatchAt(gs, p, probe)
    ensures Has(Upgraded(gs, probe, entry, stale), probe) <==> Has(gs, probe)
  {
    HasIffPlace(gs, probe);
    HasIffPlace(Upgraded(gs, probe, entry, stale), probe);
  }

  ghost predicate SomeMatch(gs: seq<Group>, probe: string) {
    exists p :: MatchAt(gs, p, probe)
  }

  lemma HasIffPlace(gs: seq<Group>, probe: string)
    ensures Has(gs, probe) <==> SomeMatch(gs, probe)
  {
    hide Matches;
    if Has(gs, probe) {
      var g :| g in gs && AnyMatch(Hooks(g), probe);
      var h :| h in Hooks(g) && Matches(h, probe);
      var i :| 0 <= i < |gs| && gs[i] == g;
      var j :| 0 <= j < |Hooks(g)| && Hooks(g)[j] == h;
      assert MatchAt(gs, Pos(i, j), probe);
    }
    if SomeMatch(gs, probe) {
      var p :| MatchAt(gs, p, probe);
      assert gs[p.g] in gs && Hooks(gs[p.g])[p.h] in Hooks(gs[p.g]);
    }
  }

  /** No outdated handler is left, so a second upgrade changes nothing. */
  lemma UpgradeTwice(gs: seq<Group>, probe: string, entry: Handler, stale: string -> bool)
    ensures var made := Upgraded(gs, probe, entry, stale);
      Upgraded(made, probe, entry, stale) == made
  {
    var made := Upgraded(gs, probe, entry, stale);
    forall i | 0 <= i < |gs| ensures UpgradedGroup(made[i], probe, entry, stale) == made[i] {
      if gs[i].Group? && gs[i].hooks.Some? {
        var hs := RefitAll(gs[i].hooks.value, probe, entry, stale);
        assert RefitAll(hs, probe, entry, stale) == hs;
      }
    }
  }

  lemma SetAtSame(gs: seq<Group>, p: Pos, entry: Handler)
    requires IsAt(gs, p) && gs[p.g].Group? && Hooks(gs[p.g]) != []
    ensures SetAt(gs, p, entry) == gs <==> Hooks(gs[p.g])[p.h] == entry
  {
    var hs := Hooks(gs[p.g]);
    assert SetAt(gs, p, entry)[p.g].hooks == Some(hs[p.h := entry]);
    if hs[p.h] == entry {
      assert hs[p.h := entry] == hs;
    } else {
      assert hs[p.h := entry][p.h] != hs[p.h];
    }
  }

  lemma OneFound(gs: seq<Group>, probe: string, found: seq<Pos>)
    requires Positions(gs, probe, found) && |found| == 1
    ensures forall q | q != found[0] :: !MatchAt(gs, q, probe)
  {
  }

  lemma HasIffFound(gs: seq<Group>, probe: string, found: seq<Pos>)
    requires Positions(gs, probe, found)
    ensures Has(gs, probe) <==> found != []
  {
    HasIffPlace(gs, probe);
    if SomeMatch(gs, probe) {
      var p :| MatchAt(gs, p, probe);
      assert p in found;
    }
    if found != [] { assert found[0] in found; }
  }

  lemma FoundShape(gs: seq<Group>, probe: string, found: seq<Pos>)
    requires Positions(gs, probe, found)
    ensures forall i | 0 <= i < |found| :: MatchAt(gs, found[i], probe) && gs[found[i].g].Group?
  {
    forall i | 0 <= i < |found| ensures MatchAt(gs, found[i], probe) && gs[found[i].g].Group? { assert found[i] in found; }
  }

  /** Matches of the list after the first one was overwritten, away from it. */
  lemma MatchesAfterSet(gs: seq<Group>, a: Pos, entry: Handler, probe: string)
    requires IsAt(gs, a) && gs[a.g].Group?
    ensures forall p | p != a :: MatchAt(SetAt(gs, a, entry), p, probe) <==> MatchAt(gs, p, probe)
  {
  }

  lemma {:induction false} FoundGaps(gs: seq<Group>, probe: string, found: seq<Pos>, k: nat)
    requires Positions(gs, probe, found) && k < |found|
    ensures k > 0 ==> GapFree(gs, found[k - 1], found[k], probe) && Earlier(found[k - 1], found[k])
    ensures k == 0 ==> forall q | Earlier(q, found[0]) :: !MatchAt(gs, q, probe)
    ensures k == |found| - 1 ==> forall q | Earlier(found[k], q) :: !MatchAt(gs, q, probe)
    ensures k > 0 ==> Earlier(found[0], found[k])
  {
    forall q | MatchAt(gs, q, probe)
      ensures k > 0 ==> !(Earlier(found[k - 1], q) && Earlier(q, found[k]))
      ensures k == 0 ==> !Earlier(q, found[0])
      ensures k == |found| - 1 ==> !Earlier(found[k], q)
    {
      assert q in found;
      var i :| 0 <= i < |found| && found[i] == q;
    }
  }

  lemma DeletionRound(gs: seq<Group>, probe: string, found: seq<Pos>, entry: Handler, k: nat)
    requires Positions(gs, probe, found) && 1 < k <= |found|
    ensures IsAt(gs, found[0]) && gs[found[0].g].Group?
    ensures var gs1 := SetAt(gs, found[0], entry);
      && found[k - 1].g < |gs1| && (k < |found| ==> found[k].g < |gs1|)
      && var t := if k == |found| then gs1 else DeletedFrom(gs1, found[k], probe);
        IsAt(t, found[k - 1]) && t[found[k - 1].g].Group? && DeleteAt(t, found[k - 1]) == DeletedFrom(gs1, found[k - 1], probe)
  {
    FoundShape(gs, probe, found);
    var gs1 := SetAt(gs, found[0], entry);
    MatchesAfterSet(gs, found[0], entry, probe);
    FoundGaps(gs, probe, found, k - 1);
    if k == |found| {
      hide Matches, Cut, CutAll;
      LastAfterSet(gs, gs1, found[0], found[k - 1], probe);
      DeleteLast(gs1, found[k - 1], probe);
    } else {
      FoundGaps(gs, probe, found, k);
      hide Matches, Cut, CutAll;
      GapAfterSet(gs, gs1, found[0], found[k - 1], found[k], probe);
      DeleteRound(gs1, found[k - 1], found[k], probe);
    }
  }

  lemma LastAfterSet(gs: seq<Group>, gs1: seq<Group>, first: Pos, a: Pos, probe: string)
    requires forall p | p != first :: MatchAt(gs1, p, probe) <==> MatchAt(gs, p, probe)
    requires Earlier(first, a) && MatchAt(gs, a, probe) && forall q | Earlier(a, q) :: !MatchAt(gs, q, probe)
    ensures MatchAt(gs1, a, probe) && forall q | Earlier(a, q) :: !MatchAt(gs1, q, probe)
    ensures gs1[a.g].Group?
  {
  }

  lemma GapAfterSet(gs: seq<Group>, gs1: seq<Group>, first: Pos, a: Pos, b: Pos, probe: string)
    requires forall p | p != first :: MatchAt(gs1, p, probe) <==> MatchAt(gs, p, probe)
    requires Earlier(first, a) && Earlier(a, b) && MatchAt(gs, a, probe) && MatchAt(gs, b, probe) && GapFree(gs, a, b, probe)
    ensures MatchAt(gs1, a, probe) && MatchAt(gs1, b, probe) && GapFree(gs1, a, b, probe)
  {
  }

  lemma UpsertDone(gs: seq<Group>, probe: string, found: seq<Pos>, entry: Handler)
    requires Positions(gs, probe, found) && found != []
    ensures IsAt(gs, found[0]) && gs[found[0].g].Group?
    ensures var gs1 := SetAt(gs, found[0], entry);
      && (|found| > 1 ==> found[1].g < |gs1|)
      && Upserted(gs, probe, entry) == if |found| == 1 then gs1 else DeletedFrom(gs1, found[1], probe)
    ensures |found| > 1 && Matches(entry, probe) ==> Upserted(gs, probe, entry) != gs
  {
    HasIffFound(gs, probe, found);
    FoundShape(gs, probe, found);
    FoundGaps(gs, probe, found, 0);
    if |found| == 1 {
      OneFound(gs, probe, found);
      SingleMatch(gs, found[0], probe, entry);
    } else {
      FoundGaps(gs, probe, found, 1);
      SeveralMatches(gs, found[0], found[1], probe, entry);
      if Matches(entry, probe) && Upserted(gs, probe, entry) == gs {
        UpsertLeavesOne(gs, probe, entry);
        TwoMatches(gs, found[0], found[1], probe);
      }
    }
  }

  // ----- what the list holds afterwards

  lemma {:induction false} OthersAppend(a: seq<Handler>, b: seq<Handler>, probe: string)
    ensures Others(a + b, probe) == Others(a, probe) + Others(b, probe)
    ensures Matching(a + b, probe) == Matching(a, probe) + Matching(b, probe)
  {
    if a == [] {
      assert a + b == b;
    } else {
      hide *;
      HeadTail(a, b);
      OthersAppend(a[1..], b, probe);
      OthersStep(a, probe);
      OthersStep(a + b, probe);
      var m := Matches(a[0], probe);
      Assoc(if m then [] else [a[0]], Others(a[1..], probe), Others(b, probe));
      Assoc(if m then [a[0]] else [], Matching(a[1..], probe), Matching(b, probe));
    }
  }

  lemma OthersStep(hs: seq<Handler>, probe: string)
    requires hs != []
    ensures Others(hs, probe) == (if Matches(hs[0], probe) then [] else [hs[0]]) + Others(hs[1..], probe)
    ensures Matching(hs, probe) == (if Matches(hs[0], probe) then [hs[0]] else []) + Matching(hs[1..], probe)
  {
  }

  lemma {:induction false} MatchingNone(hs: seq<Handler>, probe: string)
    ensures Matching(hs, probe) == [] <==> !AnyMatch(hs, probe)
  {
    if hs != [] {
      MatchingNone(hs[1..], probe);
      assert hs[0] in hs && forall h :: h in hs <==> h == hs[0] || h in hs[1..];
    }
  }

  lemma {:induction false} OthersDoNotMatch(hs: seq<Handler>, probe: string)
    ensures !AnyMatch(Others(hs, probe), probe)
  {
    if hs != [] {
      OthersDoNotMatch(hs[1..], probe);
      var here := if Matches(hs[0], probe) then [] else [hs[0]];
      forall h | h in Others(hs, probe) ensures !Matches(h, probe) {
        assert h in here || h in Others(hs[1..], probe);
      }
    }
  }

  lemma {:induction false} FlatAppend(a: seq<Group>, b: seq<Group>)
    ensures Flat(a + b) == Flat(a) + Flat(b)
  {
    if a == [] {
      assert a + b == b;
    } else {
      hide *;
      HeadTail(a, b);
      FlatAppend(a[1..], b);
      FlatStep(a);
      FlatStep(a + b);
      Assoc(Hooks(a[0]), Flat(a[1..]), Flat(b));
    }
  }

  lemma FlatStep(gs: seq<Group>)
    requires gs != []
    ensures Flat(gs) == Hooks(gs[0]) + Flat(gs[1..])
  {
  }

  lemma {:induction false} HasIffFlat(gs: seq<Group>, probe: string)
    ensures Has(gs, probe) <==> AnyMatch(Flat(gs), probe)
  {
    hide Matches;
    if gs != [] {
      HasIffFlat(gs[1..], probe);
      assert gs[0] in gs && forall g :: g in gs <==> g == gs[0] || g in gs[1..];
      assert forall h :: h in Flat(gs) <==> h in Hooks(gs[0]) || h in Flat(gs[1..]);
    }
  }

  lemma CutGroup(g: Group, probe: string)
    ensures Flat(Cut(g, 0, probe)) == Others(Hooks(g), probe)
    ensures forall c | c in Cut(g, 0, probe) :: !AnyMatch(Hooks(c), probe)
  {
    var hs := Hooks(g);
    assert hs[0..] == hs && hs[..0] == [];
    OthersDoNotMatch(hs, probe);
    if AnyMatch(hs, probe) {
      assert [] + Others(hs, probe) == Others(hs, probe);
    } else {
      OthersAll(hs, probe);
    }
  }

  /** CutAll keeps exactly the handlers that do not match. */
  lemma {:induction false} FlatCutAll(gs: seq<Group>, probe: string)
    ensures Flat(CutAll(gs, probe)) == Others(Flat(gs), probe)
    ensures forall c | c in CutAll(gs, probe) :: !AnyMatch(Hooks(c), probe)
  {
    if gs != [] {
      hide Cut, Others, AnyMatch;
      FlatCutAll(gs[1..], probe);
      CutGroup(gs[0], probe);
      FlatAppend(Cut(gs[0], 0, probe), CutAll(gs[1..], probe));
      OthersAppend(Hooks(gs[0]), Flat(gs[1..]), probe);
    } else {
      OthersAll([], probe);
    }
  }

  lemma MatchingOfOthers(hs: seq<Handler>, probe: string)
    ensures Matching(Others(hs, probe), probe) == []
    ensures Others(Others(hs, probe), probe) == Others(hs, probe)
  {
    OthersDoNotMatch(hs, probe);
    MatchingNone(Others(hs, probe), probe);
    OthersAll(Others(hs, probe), probe);
  }

  lemma CutAllTwice(gs: seq<Group>, probe: string)
    ensures CutAll(CutAll(gs, probe), probe) == CutAll(gs, probe)
    ensures Matching(Flat(CutAll(gs, probe)), probe) == []
  {
    FlatCutAll(gs, probe);
    CutAllNone(CutAll(gs, probe), probe);
    MatchingOfOthers(Flat(gs), probe);
  }

  /** The group that holds the first match, once that is the entry and the rest of the
      group is cleared. */
  lemma ReplacedGroup(g: Group, i: nat, probe: string, entry: Handler)
    requires g.Group? && i < |Hooks(g)| && i == FirstMatch(Hooks(g), probe) && Matches(entry, probe)
    ensures var hs := Hooks(g);
      var made := g.(hooks := Some(hs[..i] + [entry] + Others(hs[i + 1..], probe)));
      && Matching(Hooks(made), probe) == [entry]
      && Cut(made, 0, probe) == Cut(g, 0, probe)
  {
    var hs := Hooks(g);
    var made := hs[..i] + [entry] + Others(hs[i + 1..], probe);
    OneEntry(hs, i, probe, entry);
    assert hs[i] in hs && entry in made;
    assert hs[0..] == hs && made[0..] == made && hs[..0] == [] && made[..0] == [];
  }

  lemma OneEntry(hs: seq<Handler>, i: nat, probe: string, entry: Handler)
    requires i < |hs| && i == FirstMatch(hs, probe) && Matches(entry, probe)
    ensures var made := hs[..i] + [entry] + Others(hs[i + 1..], probe);
      Matching(made, probe) == [entry] && Others(made, probe) == Others(hs, probe)
  {
    hide *;
    var front, back := hs[..i], Others(hs[i + 1..], probe);
    FrontOfFirst(hs, i, probe);
    MatchingOfOthers(hs[i + 1..], probe);
    DropHead(hs, i);
    Assoc(front, [entry], back);
    assert hs == front + hs[i..];
    OthersAppend(front, [entry] + back, probe);
    OthersAppend([entry], back, probe);
    OthersAppend(front, hs[i..], probe);
    OthersAppend([hs[i]], hs[i + 1..], probe);
    Singleton(entry, probe);
    Singleton(hs[i], probe);
  }

  lemma FrontOfFirst(hs: seq<Handler>, i: nat, probe: string)
    requires i < |hs| && i == FirstMatch(hs, probe)
    ensures Matches(hs[i], probe) && Matching(hs[..i], probe) == [] && Others(hs[..i], probe) == hs[..i]
  {
    MatchingNone(hs[..i], probe);
    OthersAll(hs[..i], probe);
  }

  lemma Singleton(h: Handler, probe: string)
    requires Matches(h, probe)
    ensures Matching([h], probe) == [h] && Others([h], probe) == []
  {
    assert [h][1..] == [];
  }

  lemma {:induction false} ReplacedHolds(gs: seq<Group>, probe: string, entry: Handler)
    requires Has(gs, probe) && Matches(entry, probe)
    ensures Matching(Flat(Replaced(gs, probe, entry)), probe) == [entry]
    ensures CutAll(Replaced(gs, probe, entry), probe) == CutAll(gs, probe)
  {
    var g, rest := gs[0], gs[1..];
    if AnyMatch(Hooks(g), probe) {
      var i := FirstInGroup(g, probe);
      ReplacedGroup(g, i, probe, entry);
      CutAllTwice(rest, probe);
      var made := g.(hooks := Some(Hooks(g)[..i] + [entry] + Others(Hooks(g)[i + 1..], probe)));
      ReplacedHead(gs, i, probe, entry);
      hide *;
      JoinHolds(made, CutAll(rest, probe), gs, probe, entry);
    } else {
      assert forall x | x in gs :: x == g || x in rest;
      ReplacedHolds(rest, probe, entry);
      hide Replaced, Matches;
      ReplacedTail(gs, probe, entry);
      MatchingNone(Hooks(g), probe);
      OthersAppend(Hooks(g), Flat(Replaced(rest, probe, entry)), probe);
      FlatAppend([g], Replaced(rest, probe, entry));
      FlatOne(g);
      CutAllAppend([g], Replaced(rest, probe, entry), probe);
      CutAllAppend([g], rest, probe);
      assert gs == [g] + rest;
    }
  }

  lemma FlatOne(g: Group)
    ensures Flat([g]) == Hooks(g)
  {
    assert [g][1..] == [] && Hooks(g) + [] == Hooks(g);
  }

  lemma CutOne(g: Group, probe: string)
    ensures CutAll([g], probe) == Cut(g, 0, probe)
  {
    assert [g][1..] == [] && Cut(g, 0, probe) + [] == Cut(g, 0, probe);
  }

  lemma FirstInGroup(g: Group, probe: string) returns (i: nat)
    requires AnyMatch(Hooks(g), probe)
    ensures g.Group? && i == FirstMatch(Hooks(g), probe) && i < |Hooks(g)|
  {
    i := FirstMatch(Hooks(g), probe);
    var h :| h in Hooks(g) && Matches(h, probe);
    var j :| 0 <= j < |Hooks(g)| && Hooks(g)[j] == h;
  }

  lemma ReplacedHead(gs: seq<Group>, i: nat, probe: string, entry: Handler)
    requires gs != [] && AnyMatch(Hooks(gs[0]), probe) && i == FirstMatch(Hooks(gs[0]), probe)
    requires gs[0].Group? && i < |Hooks(gs[0])|
    ensures var hs := Hooks(gs[0]);
      Replaced(gs, probe, entry) ==
        [gs[0].(hooks := Some(hs[..i] + [entry] + Others(hs[i + 1..], probe)))] + CutAll(gs[1..], probe)
    ensures gs == [gs[0]] + gs[1..]
  {
    hide Matches, Others, CutAll, AnyMatch, Hooks, FirstMatch;
  }

  lemma ReplacedTail(gs: seq<Group>, probe: string, entry: Handler)
    requires gs != [] && !AnyMatch(Hooks(gs[0]), probe)
    ensures Replaced(gs, probe, entry) == [gs[0]] + Replaced(gs[1..], probe, entry)
  {
  }

  lemma JoinHolds(made: Group, tail: seq<Group>, gs: seq<Group>, probe: string, entry: Handler)
    requires gs != [] && gs == [gs[0]] + gs[1..] && tail == CutAll(gs[1..], probe)
    requires Matching(Hooks(made), probe) == [entry] && Cut(made, 0, probe) == Cut(gs[0], 0, probe)
    requires Matching(Flat(tail), probe) == [] && CutAll(tail, probe) == tail
    ensures Matching(Flat([made] + tail), probe) == [entry]
    ensures CutAll([made] + tail, probe) == CutAll(gs, probe)
  {
    hide *;
    FlatAppend([made], tail);
    FlatOne(made);
    OthersAppend(Hooks(made), Flat(tail), probe);
    CutAllAppend([made], tail, probe);
    CutAllAppend([gs[0]], gs[1..], probe);
    CutOne(made, probe);
    CutOne(gs[0], probe);
    assert [entry] + [] == [entry];
  }

  /** After an upsert exactly one handler matches, and it is the entry; taking the
      matching handlers out, with the groups that empties, leaves the same list of
      groups as before, so every other handler is still there, in order and in its
      group. */
  lemma UpsertLeavesOne(gs: seq<Group>, probe: string, entry: Handler)
    requires Matches(entry, probe)
    ensures var made := Upserted(gs, probe, entry);
      && Matching(Flat(made), probe) == [entry]
      && CutAll(made, probe) == CutAll(gs, probe)
      && Others(Flat(made), probe) == Others(Flat(gs), probe)
  {
    var made := Upserted(gs, probe, entry);
    if Has(gs, probe) {
      ReplacedHolds(gs, probe, entry);
    } else {
      AppendHolds(gs, probe, entry);
    }
    FlatCutAll(made, probe);
    FlatCutAll(gs, probe);
  }

  lemma FirstIs(hs: seq<Handler>, i: nat, probe: string)
    requires i <= |hs| && (forall j | 0 <= j < i :: !Matches(hs[j], probe)) && (i < |hs| ==> Matches(hs[i], probe))
    ensures FirstMatch(hs, probe) == i
  {
  }

  lemma FirstMatchAppend(a: seq<Handler>, b: seq<Handler>, probe: string)
    ensures FirstMatch(a + b, probe) ==
      if AnyMatch(a, probe) then FirstMatch(a, probe) else |a| + FirstMatch(b, probe)
    ensures AnyMatch(a, probe) ==> FirstMatch(a, probe) < |a|
  {
    if AnyMatch(a, probe) {
      var h :| h in a && Matches(h, probe);
      var j :| 0 <= j < |a| && a[j] == h;
      FirstIs(a + b, FirstMatch(a, probe), probe);
    } else {
      assert forall j | 0 <= j < |a| :: a[j] in a;
      FirstIs(a + b, |a| + FirstMatch(b, probe), probe);
    }
  }

  /** `made` is `hs` with the entry in place of the first match and without the later
      ones. */
  predicate InPlace(hs: seq<Handler>, made: seq<Handler>, probe: string, entry: Handler) {
    var i := FirstMatch(hs, probe);
    i < |hs| && made == hs[..i] + [entry] + Others(hs[i + 1..], probe)
  }

  /** Where the entry goes: read as one list of handlers, everything in front of the first
      match stays, the entry takes its place, and the handlers that do not match follow. */
  lemma {:induction false} UpsertInPlace(gs: seq<Group>, probe: string, entry: Handler)
    requires Has(gs, probe)
    ensures InPlace(Flat(gs), Flat(Upserted(gs, probe, entry)), probe, entry)
  {
    hide *;
    ReplacedInPlace(gs, probe, entry);
    UpsertedIsReplaced(gs, probe, entry);
  }

  lemma UpsertedIsReplaced(gs: seq<Group>, probe: string, entry: Handler)
    requires Has(gs, probe)
    ensures Upserted(gs, probe, entry) == Replaced(gs, probe, entry)
  {
  }

  lemma {:induction false} ReplacedInPlace(gs: seq<Group>, probe: string, entry: Handler)
    requires Has(gs, probe)
    ensures InPlace(Flat(gs), Flat(Replaced(gs, probe, entry)), probe, entry)
  {
    hide *;
    HasHeadOrRest(gs, probe);
    FlatStep(gs);
    FirstMatchAppend(Hooks(gs[0]), Flat(gs[1..]), probe);
    if AnyMatch(Hooks(gs[0]), probe) {
      InPlaceInHead(gs, probe, entry);
    } else {
      ReplacedInPlace(gs[1..], probe, entry);
      ReplacedTail(gs, probe, entry);
      FlatAppend([gs[0]], Replaced(gs[1..], probe, entry));
      FlatOne(gs[0]);
      PlaceInTail(Hooks(gs[0]), Flat(gs[1..]), Flat(Replaced(gs[1..], probe, entry)), probe, entry);
    }
  }

  lemma HasHeadOrRest(gs: seq<Group>, probe: string)
    requires Has(gs, probe)
    ensures gs != [] && (AnyMatch(Hooks(gs[0]), probe) || Has(gs[1..], probe))
  {
    assert forall x | x in gs :: x == gs[0] || x in gs[1..];
  }

  lemma InPlaceInHead(gs: seq<Group>, probe: string, entry: Handler)
    requires gs != [] && AnyMatch(Hooks(gs[0]), probe)
    ensures InPlace(Hooks(gs[0]) + Flat(gs[1..]), Flat(Replaced(gs, probe, entry)), probe, entry)
  {
    hide *;
    var hs, rest := Hooks(gs[0]), gs[1..];
    var i := FirstInGroup(gs[0], probe);
    ReplacedHead(gs, i, probe, entry);
    var here := hs[..i] + [entry] + Others(hs[i + 1..], probe);
    var made := gs[0].(hooks := Some(here));
    FlatAppend([made], CutAll(rest, probe));
    FlatOne(made);
    HooksOf(gs[0], here);
    FlatCutAll(rest, probe);
    FirstMatchAppend(hs, Flat(rest), probe);
    PlaceInHead(hs, Flat(rest), i, probe, entry);
  }

  lemma HooksOf(g: Group, hs: seq<Handler>)
    requires g.Group?
    ensures Hooks(g.(hooks := Some(hs))) == hs
  {
  }

  lemma PlaceInHead(hs: seq<Handler>, rest: seq<Handler>, i: nat, probe: string, entry: Handler)
    requires i < |hs| && FirstMatch(hs + rest, probe) == i
    ensures InPlace(hs + rest, hs[..i] + [entry] + Others(hs[i + 1..], probe) + Others(rest, probe), probe, entry)
  {
    OthersAppend(hs[i + 1..], rest, probe);
    hide Others, FirstMatch;
    assert (hs + rest)[..i] == hs[..i] && (hs + rest)[i + 1..] == hs[i + 1..] + rest;
    Assoc(hs[..i] + [entry], Others(hs[i + 1..], probe), Others(rest, probe));
  }

  lemma PlaceInTail(hs: seq<Handler>, rest: seq<Handler>, made: seq<Handler>, probe: string, entry: Handler)
    requires InPlace(rest, made, probe, entry) && FirstMatch(hs + rest, probe) == |hs| + FirstMatch(rest, probe)
    ensures InPlace(hs + rest, hs + made, probe, entry)
  {
    hide *;
    var i := FirstMatch(rest, probe);
    PlaceOf(rest, made, probe, entry);
    SliceTail(hs, rest, i);
    Shifted(hs, rest[..i], entry, Others(rest[i + 1..], probe));
    PlaceOf(hs + rest, hs + made, probe, entry);
  }

  lemma PlaceOf(hs: seq<Handler>, made: seq<Handler>, probe: string, entry: Handler)
    ensures InPlace(hs, made, probe, entry) <==>
      (var i := FirstMatch(hs, probe);
       i < |hs| && made == hs[..i] + [entry] + Others(hs[i + 1..], probe))
  {
  }

  lemma SliceTail(hs: seq<Handler>, rest: seq<Handler>, i: nat)
    requires i < |rest|
    ensures (hs + rest)[..|hs| + i] == hs + rest[..i] && (hs + rest)[|hs| + i + 1..] == rest[i + 1..]
  {
  }

  lemma Shifted(hs: seq<Handler>, front: seq<Handler>, entry: Handler, tail: seq<Handler>)
    ensures hs + (front + [entry] + tail) == hs + front + [entry] + tail
  {
  }

  lemma AppendHolds(gs: seq<Group>, probe: string, entry: Handler)
    requires !Has(gs, probe) && Matches(entry, probe)
    ensures var made := gs + [Group(None, Some([entry]), map[])];
      Matching(Flat(made), probe) == [entry] && CutAll(made, probe) == CutAll(gs, probe)
  {
    var g := Group(None, Some([entry]), map[]);
    HasIffFlat(gs, probe);
    MatchingNone(Flat(gs), probe);
    FlatAppend(gs, [g]);
    FlatOne(g);
    OthersAppend(Flat(gs), [entry], probe);
    Singleton(entry, probe);
    CutAllAppend(gs, [g], probe);
    CutOne(g, probe);
    assert entry in [entry] && [entry][0..] == [entry] && [entry][..0] == [];
    assert CutAll(gs, probe) + [] == CutAll(gs, probe);
  }

  lemma {:induction false} AlreadyReplaced(gs: seq<Group>, probe: string, entry: Handler)
    requires Matching(Flat(gs), probe) == [entry]
    ensures Replaced(gs, probe, entry) == gs
  {
    if gs != [] {
      var g, rest := gs[0], gs[1..];
      OthersAppend(Hooks(g), Flat(rest), probe);
      MatchingNone(Hooks(g), probe);
      if AnyMatch(Hooks(g), probe) {
        var i := FirstInGroup(g, probe);
        assert Matching(Flat(rest), probe) == [] && Matching(Hooks(g), probe) == [entry];
        HasIffFlat(rest, probe);
        MatchingNone(Flat(rest), probe);
        CutAllNone(rest, probe);
        OnlyEntry(Hooks(g), i, probe, entry);
        ReplacedHead(gs, i, probe, entry);
      } else {
        assert Matching(Flat(rest), probe) == [entry];
        AlreadyReplaced(rest, probe, entry);
      }
    }
  }

  lemma OnlyEntry(hs: seq<Handler>, i: nat, probe: string, entry: Handler)
    requires Matching(hs, probe) == [entry] && i < |hs| && i == FirstMatch(hs, probe)
    ensures hs[..i] + [entry] + Others(hs[i + 1..], probe) == hs
  {
    hide *;
    var front, back := hs[..i], hs[i + 1..];
    FrontOfFirst(hs, i, probe);
    Singleton(hs[i], probe);
    DropHead(hs, i);
    assert hs == front + ([hs[i]] + back);
    OthersAppend(front, [hs[i]] + back, probe);
    OthersAppend([hs[i]], back, probe);
    OnlyHead(hs[i], entry, Matching(back, probe));
    NoMatching(back, probe);
  }

  lemma OnlyHead(x: Handler, y: Handler, rest: seq<Handler>)
    requires [] + ([x] + rest) == [y]
    ensures x == y && rest == []
  {
    assert ([] + ([x] + rest))[0] == x && |[] + ([x] + rest)| == 1 + |rest|;
  }

  lemma NoMatching(hs: seq<Handler>, probe: string)
    requires Matching(hs, probe) == []
    ensures Others(hs, probe) == hs
  {
    MatchingNone(hs, probe);
    OthersAll(hs, probe);
  }

  /** A second upsert of the same entry changes nothing. */
  lemma UpsertTwice(gs: seq<Group>, probe: string, entry: Handler)
    requires Matches(entry, probe)
    ensures var made := Upserted(gs, probe, entry);
      Upserted(made, probe, entry) == made
  {
    var made := Upserted(gs, probe, entry);
    UpsertLeavesOne(gs, probe, entry);
    AlreadyReplaced(made, probe, entry);
    HasIffFlat(made, probe);
    MatchingNone(Flat(made), probe);
  }

  lemma MatchInFlat(gs: seq<Group>, p: Pos, probe: string)
    requires MatchAt(gs, p, probe)
    ensures Matching(Flat(gs), probe) != []
  {
    assert gs[p.g] in gs && Hooks(gs[p.g])[p.h] in Hooks(gs[p.g]);
    HasIffFlat(gs, probe);
    MatchingNone(Flat(gs), probe);
  }

  lemma TwoMatches(gs: seq<Group>, a: Pos, b: Pos, probe: string)
    requires MatchAt(gs, a, probe) && MatchAt(gs, b, probe) && Earlier(a, b)
    ensures |Matching(Flat(gs), probe)| > 1
  {
    var head, tail := gs[..b.g], gs[b.g..];
    assert gs == head + tail && tail == [gs[b.g]] + gs[b.g + 1..];
    FlatAppend(head, tail);
    OthersAppend(Flat(head), Flat(tail), probe);
    if a.g < b.g {
      MatchInFlat(head, a, probe);
      MatchInFlat(tail, Pos(0, b.h), probe);
    } else {
      var hs := Hooks(gs[b.g]);
      FlatAppend([gs[b.g]], gs[b.g + 1..]);
      FlatOne(gs[b.g]);
      OthersAppend(hs, Flat(gs[b.g + 1..]), probe);
      assert hs == hs[..b.h] + hs[b.h..] && hs[a.h] in hs[..b.h] && hs[b.h] in hs[b.h..];
      OthersAppend(hs[..b.h], hs[b.h..], probe);
      MatchingNone(hs[..b.h], probe);
      MatchingNone(hs[b.h..], probe);
    }
  }
}
