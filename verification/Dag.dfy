/** The derivation DAG (memsom/integrity/dag.py) over the store it shares with
    every other component: the nodes table, the edges table and the id counter. */
module Dag {
  import opened Base
  import opened Closure
  import opened Frontmatter
  import Ordering

  datatype Channel = Endorsed | User | AgentDerived | External

  /** The integrity rank a channel confers. */
  function Rank(c: Channel): int {
    match c
    case Endorsed => 3
    case User => 2
    case AgentDerived => 1
    case External => 0
  }

  /** revoke_reason and stale_reason: free text, or the text a cascade writes. */
  datatype Reason = Text(text: string) | CascadeFrom(seed: nat) | SweepCascade(seed: nat, path: string)

  /** The forgetting layer's columns, carried as they are. */
  datatype Forget = Forget(rs: real, ss: real, count: int, firstSeen: Option<int>, lastUsed: Option<int>, tier: string)

  const FRESH_FORGET := Forget(1.0, 0.0, 0, None, None, "hot")

  datatype Row = Row(
    content: Note, channel: Channel, integrity: int, sourceRef: Option<string>, createdAt: int,
    tombstoned: bool, tombstonedAt: Option<int>, revokeReason: Option<Reason>,
    redacted: bool, quarantined: bool, archived: bool, conf: int,
    stale: bool, staleAt: Option<int>, staleReason: Option<Reason>,
    bridgePath: Option<string>, bridgeMtime: Option<(int, int)>, contentHash: Option<int>, forget: Forget)

  datatype Edge = Edge(child: nat, parent: nat)

  datatype State = State(nodes: map<nat, Row>, edges: set<Edge>, nextId: nat)

  const EMPTY := State(map[], {}, 1)

  datatype Error =
    | NoParents | UnknownParent
    | TombstonedParent | RedactedParent | QuarantinedParent | ArchivedParent
    | LabelOutOfRange | UnknownNode | IntegrityFloorOutOfRange

  // ----- the two directions of the edges table

  function Down(edges: set<Edge>): Relation {
    set e | e in edges :: (e.parent, e.child)
  }

  function Up(edges: set<Edge>): Relation {
    set e | e in edges :: (e.child, e.parent)
  }

  function Parents(edges: set<Edge>, x: nat): (ps: set<nat>)
    ensures forall p :: p in ps <==> Edge(x, p) in edges
  {
    var ps := set e | e in edges && e.child == x :: e.parent;
    assert forall p :: Edge(x, p) in edges ==> Edge(x, p).parent in ps;
    ps
  }

  /** `x` is `a` or came from it, directly or not. */
  ghost predicate Descends(s: State, a: nat, x: nat) {
    Reaches(Down(s.edges), a, x)
  }

  /** `a` is a proper ancestor of `x`. */
  ghost predicate Ancestor(s: State, x: nat, a: nat) {
    ReachedFrom(Up(s.edges), Parents(s.edges, x), a)
  }

  // ----- the effect of each write

  function NewRow(content: Note, channel: Channel, integrity: int, sourceRef: Option<string>, now: int): Row {
    Row(content, channel, integrity, sourceRef, now, false, None, None, false, false, false, 0,
        false, None, None, None, None, None, FRESH_FORGET)
  }

  /** A row as the table makes it: nothing has happened to it yet. */
  predicate IsFresh(r: Row, content: Note, channel: Channel, sourceRef: Option<string>, now: int) {
    && r.content == content && r.channel == channel && r.sourceRef == sourceRef && r.createdAt == now
    && !r.tombstoned && r.tombstonedAt.None? && r.revokeReason.None?
    && !r.redacted && !r.quarantined && !r.archived
    && !r.stale && r.staleAt.None? && r.staleReason.None?
    && r.bridgePath.None? && r.bridgeMtime.None? && r.contentHash.None?
    && r.forget.rs == 1.0 && r.forget.ss == 0.0 && r.forget.count == 0 && r.forget.tier == "hot"
  }

  /** The labels of the channels, most trusted first. */
  predicate IsChannelLabel(c: Channel, rank: int) {
    (c == Endorsed && rank == 3) || (c == User && rank == 2) || (c == AgentDerived && rank == 1) || (c == External && rank == 0)
  }

  function Inserted(s: State, row: Row): State {
    State(s.nodes[s.nextId := row], s.edges, s.nextId + 1)
  }

  ghost predicate IsLeast(m: int, s: set<int>) {
    m in s && forall x :: x in s ==> m <= x
  }

  ghost predicate IsGreatest(m: int, s: set<int>) {
    m in s && forall x :: x in s ==> x <= m
  }

  function Labels(s: State, ids: set<nat>): set<int>
    requires ids <= s.nodes.Keys
  {
    set p | p in ids :: s.nodes[p].integrity
  }

  function Confs(s: State, ids: set<nat>): set<int>
    requires ids <= s.nodes.Keys
  {
    set p | p in ids :: s.nodes[p].conf
  }

  /** The first reason a parent may not be derived from. */
  function Taint(r: Row): Option<Error> {
    if r.tombstoned then Some(TombstonedParent)
    else if r.redacted then Some(RedactedParent)
    else if r.quarantined then Some(QuarantinedParent)
    else if r.archived then Some(ArchivedParent)
    else None
  }

  ghost predicate Derivable(s: State, parents: seq<nat>) {
    && parents != []
    && (forall p | p in parents :: p in s.nodes)
    && (forall p | p in parents :: Taint(s.nodes[p]).None?)
  }

  /** Every parent is there, and none is dead or tainted. */
  predicate AllUsable(nodes: map<nat, Row>, parents: seq<nat>) {
    && parents != []
    && forall p | p in parents :: p in nodes && IsUsable(nodes[p])
  }

  predicate IsUsable(r: Row) {
    !r.tombstoned && !r.redacted && !r.quarantined && !r.archived
  }

  /** No parents, else an unknown one, else one that carries the flag the refusal names. */
  predicate Refuses(nodes: map<nat, Row>, parents: seq<nat>, e: Error) {
    if parents == [] then e == NoParents
    else if exists p | p in parents :: p !in nodes then e == UnknownParent
    else exists p | p in parents :: p in nodes && Carries(nodes[p], e)
  }

  /** The flags are looked at in this order. */
  predicate Carries(r: Row, e: Error) {
    || (e == TombstonedParent && r.tombstoned)
    || (e == RedactedParent && !r.tombstoned && r.redacted)
    || (e == QuarantinedParent && !r.tombstoned && !r.redacted && r.quarantined)
    || (e == ArchivedParent && !r.tombstoned && !r.redacted && !r.quarantined && r.archived)
  }

  /** What a derivation adds: one fresh agent-derived row with the least label and the
      greatest confidentiality of its parents, and an edge to each of them. */
  ghost predicate IsDerived(s: State, t: State, id: nat, rank: int, content: Note, parents: seq<nat>, now: int) {
    && id == s.nextId && t.nextId == id + 1 && id in t.nodes && t.nodes == s.nodes[id := t.nodes[id]]
    && IsFresh(t.nodes[id], content, AgentDerived, None, now) && t.nodes[id].integrity == rank
    && (forall e :: e in t.edges <==> e in s.edges || (e.child == id && e.parent in parents))
    && (forall p | p in parents :: p in s.nodes && rank <= s.nodes[p].integrity && s.nodes[p].conf <= t.nodes[id].conf)
    && (exists p :: p in parents && p in s.nodes && rank == s.nodes[p].integrity)
    && (exists p :: p in parents && p in s.nodes && t.nodes[id].conf == s.nodes[p].conf)
  }

  lemma DerivedIs(s: State, content: Note, parents: seq<nat>, l: int, c: int, now: int)
    requires forall p | p in parents :: p in s.nodes
    requires IsLeast(l, Labels(s, Ids(parents))) && IsGreatest(c, Confs(s, Ids(parents)))
    ensures IsDerived(s, Derived(s, content, Ids(parents), l, c, now), s.nextId, l, content, parents, now)
  {
    var t := Derived(s, content, Ids(parents), l, c, now);
    forall e ensures e in t.edges <==> e in s.edges || (e.child == s.nextId && e.parent in parents) {
      if e.child == s.nextId && e.parent in parents { assert Edge(s.nextId, e.parent) == e; }
    }
    forall p | p in parents ensures l <= s.nodes[p].integrity && s.nodes[p].conf <= c {
      assert s.nodes[p].integrity in Labels(s, Ids(parents)) && s.nodes[p].conf in Confs(s, Ids(parents));
    }
  }

  function Derived(s: State, content: Note, parents: set<nat>, integrity: int, conf: int, now: int): State {
    State(s.nodes[s.nextId := NewRow(content, AgentDerived, integrity, None, now).(conf := conf)],
          s.edges + set p | p in parents :: Edge(s.nextId, p),
          s.nextId + 1)
  }

  function Ids(q: seq<nat>): (s: set<nat>)
    ensures forall p :: p in s <==> p in q
  {
    set p | p in q
  }

  function Kill(r: Row, now: int, reason: Reason): Row {
    r.(tombstoned := true, tombstonedAt := Some(now), revokeReason := Some(reason))
  }

  ghost predicate Dooms(s: State, seed: nat, id: nat) {
    id in s.nodes && Descends(s, seed, id) && !s.nodes[id].tombstoned
  }

  /** The rows a cascade from `seed` covers, dead ones included. */
  ghost function CascadeRows(s: State, seed: nat): set<nat> {
    set x | x in s.nodes && Descends(s, seed, x)
  }

  ghost function Doomed(s: State, seed: nat): set<nat> {
    set x | x in s.nodes && Dooms(s, seed, x)
  }

  ghost function Revoked(s: State, seed: nat, reason: Reason, now: int): State {
    s.(nodes := map id | id in s.nodes ::
      if Dooms(s, seed, id) then Kill(s.nodes[id], now, if id == seed then reason else CascadeFrom(seed))
      else s.nodes[id])
  }

  lemma SubsetOfSameSize(a: set<nat>, b: set<nat>)
    requires a <= b && |a| == |b|
    ensures a == b
  {
    if a != b {
      assert !(b <= a);
      var x :| x in b && x !in a;
      assert |b - {x}| == |b| - 1;
      SubsetSize(a, b - {x});
    }
  }

  lemma {:induction false} SubsetSize(a: set<nat>, b: set<nat>)
    requires a <= b
    ensures |a| <= |b|
  {
    if a != {} {
      var x :| x in a;
      SubsetSize(a - {x}, b - {x});
    }
  }

  /** min over the labels and max over the confidentiality levels of some rows. */
  method Floors(nodes: map<nat, Row>, ids: set<nat>) returns (integrity: int, conf: int)
    requires ids != {} && ids <= nodes.Keys
    ensures IsLeast(integrity, set p | p in ids :: nodes[p].integrity)
    ensures IsGreatest(conf, set p | p in ids :: nodes[p].conf)
  {
    var x :| x in ids;
    integrity, conf := nodes[x].integrity, nodes[x].conf;
    ghost var lx, cx := x, x;
    var rest := ids - {x};
    while rest != {}
      invariant rest <= ids && lx in ids && cx in ids
      invariant integrity == nodes[lx].integrity && conf == nodes[cx].conf
      invariant forall p | p in ids && p !in rest :: integrity <= nodes[p].integrity && nodes[p].conf <= conf
      decreases rest
    {
      var p :| p in rest;
      if nodes[p].integrity < integrity { integrity, lx := nodes[p].integrity, p; }
      if nodes[p].conf > conf { conf, cx := nodes[p].conf, p; }
      rest := rest - {p};
    }
  }

  class Store {
    var nodes: map<nat, Row>
    var edges: set<Edge>
    var nextId: nat

    ghost function Snapshot(): State
      reads this
    {
      State(nodes, edges, nextId)
    }

    constructor ()
      ensures Snapshot() == EMPTY
    {
      nodes, edges, nextId := map[], {}, 1;
    }

    /** insert_node: the label comes from the channel unless one is given; the
        table's CHECK refuses a label outside 0..3. */
    method InsertNode(content: Note, channel: Channel, integrity: Option<int>, sourceRef: Option<string>, now: int)
      returns (r: Result<nat, Error>)
      modifies this
      ensures var l := if integrity.Some? then integrity.value else Rank(channel);
        if 0 <= l <= 3 then
          r == Ok(old(nextId)) && Snapshot() == Inserted(old(Snapshot()), NewRow(content, channel, l, sourceRef, now))
        else r == Err(LabelOutOfRange) && Snapshot() == old(Snapshot())
      ensures r.Ok? ==>
        && r.value == old(nextId) && r.value in nodes && nextId == r.value + 1 && edges == old(edges)
        && nodes == old(nodes)[r.value := nodes[r.value]]
        && IsFresh(nodes[r.value], content, channel, sourceRef, now) && nodes[r.value].conf == 0
        && (integrity.Some? ==> nodes[r.value].integrity == integrity.value)
        && (integrity.None? ==> IsChannelLabel(channel, nodes[r.value].integrity))
    {
      var l := if integrity.Some? then integrity.value else Rank(channel);
      if l < 0 || 3 < l {
        return Err(LabelOutOfRange);
      }
      r := Ok(nextId);
      nodes := nodes[nextId := NewRow(content, channel, l, sourceRef, now)];
      nextId := nextId + 1;
    }

    /** The check of derive_node: the first refusal met, or none. */
    method CheckParents(parents: seq<nat>) returns (e: Option<Error>)
      ensures e.None? <==> Derivable(Snapshot(), parents)
      ensures e.None? <==> AllUsable(nodes, parents)
      ensures e.Some? ==> Refuses(nodes, parents, e.value)
    {
      if parents == [] {
        return Some(NoParents);
      }
      var ids := Ids(parents);
      var known := set p | p in ids && p in nodes;
      if |known| != |ids| {
        assert known != ids;
        assert exists p :: p in ids && p !in known;
        return Some(UnknownParent);
      }
      SubsetOfSameSize(known, ids);
      assert parents[0] in ids;
      var rest := ids;
      while rest != {}
        invariant rest <= ids
        invariant forall p | p in ids && p !in rest :: Taint(nodes[p]).None?
        decreases rest
      {
        var p :| p in rest;
        var t := Taint(nodes[p]);
        if t.Some? {
          assert p in parents && p in known;
          return Some(t.value);
        }
        rest := rest - {p};
      }
      return None;
    }

    /** derive_node: liveness check, node and edges as one unit. The label is the
        least parent label, the confidentiality the greatest; any refusal leaves
        the store as it was. */
    method DeriveNode(content: Note, parents: seq<nat>, now: int) returns (r: Result<(nat, int), Error>)
      modifies this
      ensures r.Ok? <==> Derivable(old(Snapshot()), parents)
      ensures r.Ok? <==> AllUsable(old(nodes), parents)
      ensures r.Ok? ==>
        exists integrity, conf ::
          && r.value == (old(nextId), integrity)
          && IsLeast(integrity, Labels(old(Snapshot()), Ids(parents)))
          && IsGreatest(conf, Confs(old(Snapshot()), Ids(parents)))
          && Snapshot() == Derived(old(Snapshot()), content, Ids(parents), integrity, conf, now)
      ensures r.Ok? ==> IsDerived(old(Snapshot()), Snapshot(), r.value.0, r.value.1, content, parents, now)
      ensures r.Err? ==> Snapshot() == old(Snapshot()) && Refuses(old(nodes), parents, r.error)
    {
      ghost var s := Snapshot();
      var e := CheckParents(parents);
      if e.Some? {
        return Err(e.value);
      }
      var ids := Ids(parents);
      assert parents[0] in ids;
      hide AllUsable, IsDerived, Derivable;
      var integrity, conf := Floors(nodes, ids);
      assert IsLeast(integrity, Labels(s, ids)) && IsGreatest(conf, Confs(s, ids));
      DerivedIs(s, content, parents, integrity, conf, now);
      hide NewRow;
      r := Ok((nextId, integrity));
      nodes := nodes[nextId := NewRow(content, AgentDerived, integrity, None, now).(conf := conf)];
      edges := edges + set p | p in ids :: Edge(nextId, p);
      nextId := nextId + 1;
      assert Snapshot() == Derived(s, content, Ids(parents), integrity, conf, now);
    }

    /** cascade_set: the rows a revocation of `seed` would reach, in id order. */
    method CascadeSet(seed: nat) returns (ids: seq<nat>)
      ensures Ordering.Lists(ids, CascadeRows(Snapshot(), seed), IdKey(nodes))
      ensures forall i, j | 0 <= i < j < |ids| :: ids[i] < ids[j]
    {
      var reached := RecursiveUnion(Down(edges), {seed});
      var rows := set x | x in nodes && x in reached;
      ids := Ordering.OrderBy(rows, IdKey(nodes));
      assert rows == CascadeRows(Snapshot(), seed);
    }

    /** revoke_cascade: tombstone exactly the live rows reachable from the seed,
        and return how many they were. Rows already dead keep their record. */
    method RevokeCascade(seed: nat, reason: Reason, now: int) returns (n: nat)
      modifies this`nodes
      ensures Snapshot() == Revoked(old(Snapshot()), seed, reason, now)
      ensures n == |Doomed(old(Snapshot()), seed)|
    {
      var reached := RecursiveUnion(Down(edges), {seed});
      var doomed := set x | x in nodes && x in reached && !nodes[x].tombstoned;
      assert forall x | x in nodes :: x in doomed <==> Dooms(Snapshot(), seed, x);
      assert doomed == Doomed(Snapshot(), seed);
      n := |doomed|;
      nodes := map x | x in nodes ::
        if x in doomed then Kill(nodes[x], now, if x == seed then reason else CascadeFrom(seed)) else nodes[x];
    }

    /** parents_of: the immediate parents, most trusted first. */
    method ParentsOf(x: nat) returns (ids: seq<nat>)
      ensures Ordering.Lists(ids, nodes.Keys * Parents(edges, x), LabelKey(nodes))
      ensures forall p :: p in ids <==> p in nodes && Edge(x, p) in edges
      ensures InTrustOrder(nodes, ids)
    {
      ids := Ordering.OrderBy(nodes.Keys * Parents(edges, x), LabelKey(nodes));
    }
  }

  /** The more trusted row first, and of two alike the older one. */
  predicate InTrustOrder(nodes: map<nat, Row>, ids: seq<nat>) {
    forall i, j | 0 <= i < j < |ids| && ids[i] in nodes && ids[j] in nodes ::
      var a, b := nodes[ids[i]].integrity, nodes[ids[j]].integrity;
      a > b || (a == b && ids[i] < ids[j])
  }

  /** The key of ORDER BY id. */
  function IdKey(nodes: map<nat, Row>): map<nat, int> {
    map x | x in nodes :: 0
  }

  /** The key of ORDER BY label DESC, id ASC. */
  function LabelKey(nodes: map<nat, Row>): map<nat, int> {
    map x | x in nodes :: nodes[x].integrity
  }
}
