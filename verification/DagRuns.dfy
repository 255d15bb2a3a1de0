/** Every state the DAG's atomic steps can reach, and what holds in all of them:
    labels flatten to the roots, and no live node rests on a dead one. */
module DagRuns {
  import opened Base
  import opened Closure
  import opened Frontmatter
  import opened Dag

  /** One committed unit. `Mark` is any other component setting the redacted,
      quarantined or archived flag of a row; `Classify` is an operator setting the
      confidentiality of any row, refused only below the level of an archived one. */
  datatype Step =
    | Insert(content: Note, channel: Channel, given: Option<int>, sourceRef: Option<string>, now: int)
    | Derive(content: Note, parents: seq<nat>, now: int)
    | Revoke(seed: nat, reason: Reason, now: int)
    | Mark(id: nat, redacted: bool, quarantined: bool, archived: bool)
    | Classify(id: nat, level: int)

  predicate Classifiable(s: State, id: nat, level: int) {
    id in s.nodes && 0 <= level <= 3 && !(s.nodes[id].archived && level < s.nodes[id].conf)
  }

  ghost predicate Parentless(s: State, x: nat) {
    Parents(s.edges, x) == {}
  }

  /** `t` is what one atomic step makes of `s`; a refused step changes nothing. */
  ghost predicate Next(s: State, step: Step, t: State) {
    match step
    case Insert(content, channel, given, sourceRef, now) =>
      var l := if given.Some? then given.value else Rank(channel);
      t == if 0 <= l <= 3 then Inserted(s, NewRow(content, channel, l, sourceRef, now)) else s
    case Derive(content, parents, now) =>
      if Derivable(s, parents) then
        exists l, c ::
          && IsLeast(l, Labels(s, Ids(parents)))
          && IsGreatest(c, Confs(s, Ids(parents)))
          && t == Derived(s, content, Ids(parents), l, c, now)
      else t == s
    case Revoke(seed, reason, now) => t == Revoked(s, seed, reason, now)
    case Mark(id, redacted, quarantined, archived) =>
      t == if id in s.nodes then
        s.(nodes := s.nodes[id := s.nodes[id].(redacted := redacted, quarantined := quarantined, archived := archived)])
      else s
    case Classify(id, level) =>
      t == if Classifiable(s, id, level) then s.(nodes := s.nodes[id := s.nodes[id].(conf := level)]) else s
  }

  ghost predicate IsRun(steps: seq<Step>, trace: seq<State>) {
    && |trace| == |steps| + 1
    && trace[0] == EMPTY
    && forall i | 0 <= i < |steps| :: Next(trace[i], steps[i], trace[i + 1])
  }

  // ----- the invariant

  ghost predicate WellFormed(s: State) {
    && (forall x | x in s.nodes :: x < s.nextId)
    && (forall e | e in s.edges :: e.child in s.nodes && e.parent in s.nodes && e.parent < e.child)
  }

  /** One hop: a node with parents is agent-derived and has their least label. */
  ghost predicate OneHop(s: State)
    requires WellFormed(s)
  {
    forall x | x in s.nodes && !Parentless(s, x) ::
      && s.nodes[x].channel == AgentDerived
      && IsLeast(s.nodes[x].integrity, Labels(s, Parents(s.edges, x)))
  }

  /** One hop of the other lattice: a node with parents has their greatest
      confidentiality. */
  ghost predicate ConfHop(s: State)
    requires WellFormed(s)
  {
    forall x | x in s.nodes && !Parentless(s, x) :: IsGreatest(s.nodes[x].conf, Confs(s, Parents(s.edges, x)))
  }

  ghost predicate LiveOnLive(s: State)
    requires WellFormed(s)
  {
    forall e | e in s.edges :: !s.nodes[e.child].tombstoned ==> !s.nodes[e.parent].tombstoned
  }

  ghost predicate Inv(s: State) {
    WellFormed(s) && OneHop(s) && LiveOnLive(s)
  }

  lemma InsertKeeps(s: State, row: Row)
    requires Inv(s)
    ensures Inv(Inserted(s, row))
    ensures ConfHop(s) ==> ConfHop(Inserted(s, row))
  {
    var t := Inserted(s, row);
    assert WellFormed(t);
    forall x | x in t.nodes && !Parentless(t, x) ensures LabelKept(s, t, x) && ConfKept(s, t, x) {
      var p :| p in Parents(t.edges, x);
      assert Edge(x, p) in s.edges;
      SameParentRows(s, t, x);
    }
    HopsKept(s, t);
  }

  /** Labels and confidentiality over rows that did not change in them. */
  lemma SameParentRows(s: State, t: State, x: nat)
    requires WellFormed(s) && s.nodes.Keys <= t.nodes.Keys
    requires Parents(t.edges, x) == Parents(s.edges, x)
    requires forall p | p in Parents(s.edges, x) ::
      t.nodes[p].integrity == s.nodes[p].integrity && t.nodes[p].conf == s.nodes[p].conf
    ensures Labels(t, Parents(t.edges, x)) == Labels(s, Parents(s.edges, x))
    ensures Confs(t, Parents(t.edges, x)) == Confs(s, Parents(s.edges, x))
  {
    forall p | p in Parents(s.edges, x) ensures Edge(x, p) in s.edges { }
  }

  /** An old row with the same parents, unchanged in what the label hop compares. */
  ghost predicate LabelKept(s: State, t: State, x: nat)
    requires WellFormed(s) && WellFormed(t)
  {
    && x in s.nodes && x in t.nodes && Parents(t.edges, x) == Parents(s.edges, x)
    && t.nodes[x].channel == s.nodes[x].channel && t.nodes[x].integrity == s.nodes[x].integrity
    && (forall p | p in Parents(s.edges, x) :: p in s.nodes && p in t.nodes)
    && Labels(t, Parents(t.edges, x)) == Labels(s, Parents(s.edges, x))
  }

  ghost predicate ConfKept(s: State, t: State, x: nat)
    requires WellFormed(s) && WellFormed(t)
  {
    && x in s.nodes && x in t.nodes && Parents(t.edges, x) == Parents(s.edges, x)
    && t.nodes[x].conf == s.nodes[x].conf
    && (forall p | p in Parents(s.edges, x) :: p in s.nodes && p in t.nodes)
    && Confs(t, Parents(t.edges, x)) == Confs(s, Parents(s.edges, x))
  }

  lemma HopsKept(s: State, t: State)
    requires WellFormed(s) && WellFormed(t)
    ensures (forall x | x in t.nodes && !Parentless(t, x) :: LabelKept(s, t, x)) && OneHop(s) ==> OneHop(t)
    ensures (forall x | x in t.nodes && !Parentless(t, x) :: ConfKept(s, t, x)) && ConfHop(s) ==> ConfHop(t)
  {
    hide IsLeast, IsGreatest, Labels, Confs, Parents;
  }

  lemma DeriveKeeps(s: State, content: Note, parents: seq<nat>, l: int, c: int, now: int)
    requires Inv(s) && Derivable(s, parents)
    requires IsLeast(l, Labels(s, Ids(parents))) && IsGreatest(c, Confs(s, Ids(parents)))
    ensures Inv(Derived(s, content, Ids(parents), l, c, now))
    ensures ConfHop(s) ==> ConfHop(Derived(s, content, Ids(parents), l, c, now))
  {
    var t := Derived(s, content, Ids(parents), l, c, now);
    DerivedParents(s, content, parents, l, c, now);
    DerivedHop(s, content, parents, l, c, now);
    DerivedLive(s, content, parents, l, c, now);
    hide *;
    OldAndNew(s, t);
  }

  /** The hops of a state that adds one row to the hops of another. */
  lemma OldAndNew(s: State, t: State)
    requires WellFormed(s) && WellFormed(t) && OneHop(s) && LiveOnLive(t)
    requires forall x | x in t.nodes && x != s.nextId && !Parentless(t, x) :: LabelKept(s, t, x) && ConfKept(s, t, x)
    requires s.nextId in t.nodes ==> HopAt(t, s.nextId)
    ensures Inv(t) && (ConfHop(s) ==> ConfHop(t))
  {
    hide IsLeast, IsGreatest, Labels, Confs, Parents;
  }

  ghost predicate HopAt(s: State, x: nat)
    requires WellFormed(s) && x in s.nodes
  {
    && s.nodes[x].channel == AgentDerived
    && (forall p | p in Parents(s.edges, x) :: p in s.nodes)
    && IsLeast(s.nodes[x].integrity, Labels(s, Parents(s.edges, x)))
    && IsGreatest(s.nodes[x].conf, Confs(s, Parents(s.edges, x)))
  }

  lemma DerivedHop(s: State, content: Note, parents: seq<nat>, l: int, c: int, now: int)
    requires WellFormed(s) && Derivable(s, parents)
    requires IsLeast(l, Labels(s, Ids(parents))) && IsGreatest(c, Confs(s, Ids(parents)))
    ensures var t := Derived(s, content, Ids(parents), l, c, now);
      && WellFormed(t) && s.nextId in t.nodes && HopAt(t, s.nextId)
      && forall x | x in t.nodes && x != s.nextId && !Parentless(t, x) :: LabelKept(s, t, x) && ConfKept(s, t, x)
  {
    var t := Derived(s, content, Ids(parents), l, c, now);
    DerivedParents(s, content, parents, l, c, now);
    assert Labels(t, Ids(parents)) == Labels(s, Ids(parents));
    assert Confs(t, Ids(parents)) == Confs(s, Ids(parents));
    forall x | x in t.nodes && x != s.nextId && !Parentless(t, x) ensures LabelKept(s, t, x) && ConfKept(s, t, x) {
      EdgesOf(s, x);
      SameParentRows(s, t, x);
    }
    hide IsLeast, IsGreatest, LabelKept, ConfKept;
  }

  lemma DerivedLive(s: State, content: Note, parents: seq<nat>, l: int, c: int, now: int)
    requires WellFormed(s) && LiveOnLive(s) && Derivable(s, parents)
    requires WellFormed(Derived(s, content, Ids(parents), l, c, now))
    ensures LiveOnLive(Derived(s, content, Ids(parents), l, c, now))
  {
  }

  lemma DerivedParents(s: State, content: Note, parents: seq<nat>, l: int, c: int, now: int)
    requires WellFormed(s) && Derivable(s, parents)
    ensures var t := Derived(s, content, Ids(parents), l, c, now);
      && WellFormed(t)
      && Parents(t.edges, s.nextId) == Ids(parents)
      && forall x | x != s.nextId :: Parents(t.edges, x) == Parents(s.edges, x)
  {
    var t := Derived(s, content, Ids(parents), l, c, now);
    forall p | p in Ids(parents) ensures Edge(s.nextId, p) in t.edges { }
  }

  lemma DescendsOn(s: State, seed: nat, e: Edge)
    requires e in s.edges
    ensures Descends(s, seed, e.parent) ==> Descends(s, seed, e.child)
  {
    assert (e.parent, e.child) in Down(s.edges);
    if Descends(s, seed, e.parent) { ReachesStep(Down(s.edges), seed, e.parent, e.child); }
  }

  /** A revocation never leaves a live node under a dead one: what it kills, it
      kills downward. */
  lemma RevokeKeeps(s: State, seed: nat, reason: Reason, now: int)
    requires Inv(s)
    ensures Inv(Revoked(s, seed, reason, now))
    ensures ConfHop(s) ==> ConfHop(Revoked(s, seed, reason, now))
  {
    var t := Revoked(s, seed, reason, now);
    forall e | e in t.edges && !t.nodes[e.child].tombstoned ensures !t.nodes[e.parent].tombstoned {
      DescendsOn(s, seed, e);
    }
    forall x | x in t.nodes && !Parentless(t, x) ensures LabelKept(s, t, x) && ConfKept(s, t, x) {
      EdgesOf(s, x);
      SameParentRows(s, t, x);
    }
    HopsKept(s, t);
  }

  lemma EdgesOf(s: State, x: nat)
    ensures forall p | p in Parents(s.edges, x) :: Edge(x, p) in s.edges
  {
  }

  /** A change of one row that leaves its label, channel and life alone. */
  lemma TouchKeeps(s: State, t: State, id: nat)
    requires Inv(s) && id in s.nodes
    requires id in t.nodes && t == s.(nodes := s.nodes[id := t.nodes[id]])
    requires t.nodes[id].integrity == s.nodes[id].integrity && t.nodes[id].channel == s.nodes[id].channel
    requires t.nodes[id].tombstoned == s.nodes[id].tombstoned
    ensures Inv(t)
    ensures t.nodes[id].conf == s.nodes[id].conf && ConfHop(s) ==> ConfHop(t)
  {
    forall x | x in t.nodes && !Parentless(t, x)
      ensures LabelKept(s, t, x) && (t.nodes[id].conf == s.nodes[id].conf ==> ConfKept(s, t, x))
    {
      EdgesOf(s, x);
    }
    HopsKept(s, t);
  }

  lemma NextKeeps(s: State, step: Step, t: State)
    requires Inv(s) && Next(s, step, t)
    ensures Inv(t)
    ensures ConfHop(s) && !step.Classify? ==> ConfHop(t)
  {
    match step {
      case Insert(content, channel, given, sourceRef, now) =>
        var l := if given.Some? then given.value else Rank(channel);
        if 0 <= l <= 3 { InsertKeeps(s, NewRow(content, channel, l, sourceRef, now)); }
      case Derive(content, parents, now) =>
        if Derivable(s, parents) {
          var l, c :|
            && IsLeast(l, Labels(s, Ids(parents)))
            && IsGreatest(c, Confs(s, Ids(parents)))
            && t == Derived(s, content, Ids(parents), l, c, now);
          DeriveKeeps(s, content, parents, l, c, now);
        }
      case Revoke(seed, reason, now) => RevokeKeeps(s, seed, reason, now);
      case Mark(id, _, _, _) => if id in s.nodes { TouchKeeps(s, t, id); }
      case Classify(id, level) => if Classifiable(s, id, level) { TouchKeeps(s, t, id); }
    }
  }

  // ----- reclassification

  /** Another parent of `c` than `id` has the confidentiality `v`. */
  ghost predicate OtherAt(s: State, c: nat, id: nat, v: int) {
    exists p | p in Parents(s.edges, c) && p != id :: p in s.nodes && s.nodes[p].conf == v
  }

  /** Another parent of `c` than `id` has the confidentiality `c` has. */
  ghost predicate HeldUp(s: State, c: nat, id: nat)
    requires c in s.nodes
  {
    OtherAt(s, c, id, s.nodes[c].conf)
  }

  /** The level leaves the parents and the children of the row consistent: a derived row
      keeps its level, and every child is at least as confidential, and is so either by
      this row or by another parent. */
  ghost predicate LevelFits(s: State, id: nat, level: int)
    requires WellFormed(s) && id in s.nodes
  {
    && (Parentless(s, id) || level == s.nodes[id].conf)
    && forall c | c in s.nodes && id in Parents(s.edges, c) ::
        level <= s.nodes[c].conf && (level == s.nodes[c].conf || HeldUp(s, c, id))
  }

  /** What a step may do to confidentiality: only a reclassification can break the hop, and
      it does exactly when the level does not fit. */
  ghost predicate ConfSafe(s: State, step: Step)
    requires WellFormed(s)
  {
    step.Classify? && Classifiable(s, step.id, step.level) ==> LevelFits(s, step.id, step.level)
  }

  /** Confidentiality of one child before and after its parent is reclassified. */
  lemma ChildFits(s: State, t: State, id: nat, level: int, c: nat)
    requires WellFormed(s) && id in s.nodes && t == s.(nodes := s.nodes[id := s.nodes[id].(conf := level)])
    requires c in s.nodes && id in Parents(s.edges, c) && (forall p | p in Parents(s.edges, c) :: p in s.nodes)
    requires IsGreatest(s.nodes[c].conf, Confs(s, Parents(s.edges, c)))
    ensures WellFormed(t) && (forall p | p in Parents(t.edges, c) :: p in t.nodes)
    ensures IsGreatest(t.nodes[c].conf, Confs(t, Parents(t.edges, c))) <==>
      level <= s.nodes[c].conf && (level == s.nodes[c].conf || HeldUp(s, c, id))
  {
    ConfsAfter(s, t, id, level, c);
    var m := s.nodes[c].conf;
    var after := Confs(t, Parents(t.edges, c));
    assert level in after && (m in after <==> m == level || OtherAt(s, c, id, m));
    forall v | v in after && v != level ensures v <= m {
      assert OtherAt(s, c, id, v);
    }
    hide Confs, Parents, OtherAt;
  }

  lemma ConfsAfter(s: State, t: State, id: nat, level: int, c: nat)
    requires WellFormed(s) && id in s.nodes && t == s.(nodes := s.nodes[id := s.nodes[id].(conf := level)])
    requires c in s.nodes && id in Parents(s.edges, c)
    ensures WellFormed(t) && t.nodes[c].conf == s.nodes[c].conf
    ensures forall p | p in Parents(t.edges, c) :: p in t.nodes
    ensures forall v :: v in Confs(t, Parents(t.edges, c)) <==> v == level || OtherAt(s, c, id, v)
    ensures forall v :: OtherAt(s, c, id, v) ==> v in Confs(s, Parents(s.edges, c))
  {
    EdgesOf(s, c);
    assert Edge(c, id) in s.edges && c != id;
    forall v ensures v in Confs(t, Parents(t.edges, c)) <==> v == level || OtherAt(s, c, id, v) {
      if OtherAt(s, c, id, v) {
        var p :| p in Parents(s.edges, c) && p != id && p in s.nodes && s.nodes[p].conf == v;
        assert t.nodes[p].conf == v;
      }
      assert t.nodes[id].conf in Confs(t, Parents(t.edges, c));
    }
  }

  lemma OwnLevelFits(s: State, t: State, id: nat, level: int)
    requires WellFormed(s) && id in s.nodes && t == s.(nodes := s.nodes[id := s.nodes[id].(conf := level)])
    requires !Parentless(s, id) && IsGreatest(s.nodes[id].conf, Confs(s, Parents(s.edges, id)))
    ensures WellFormed(t)
    ensures IsGreatest(t.nodes[id].conf, Confs(t, Parents(t.edges, id))) <==> level == s.nodes[id].conf
  {
    EdgesOf(s, id);
    assert forall p | p in Parents(s.edges, id) :: p != id;
    assert Confs(t, Parents(t.edges, id)) == Confs(s, Parents(s.edges, id));
  }

  /** classify: a known row takes a level of 0 to 3, unless it is archived and the level is
      lower; otherwise nothing changes. */
  lemma ClassifyIs(s: State, id: nat, level: int, t: State)
    requires Next(s, Classify(id, level), t)
    ensures var accepted := id in s.nodes && level in {0, 1, 2, 3} && (s.nodes[id].archived ==> level >= s.nodes[id].conf);
      && (!accepted ==> t == s)
      && (accepted ==> t.edges == s.edges && t.nextId == s.nextId && t.nodes.Keys == s.nodes.Keys && t.nodes[id].conf == level)
    ensures forall x | x in s.nodes && x != id :: x in t.nodes && t.nodes[x] == s.nodes[x]
    ensures id in s.nodes ==> id in t.nodes && t.nodes[id] == s.nodes[id].(conf := t.nodes[id].conf)
  {
  }

  /** A reclassification keeps the confidentiality hop if and only if the level fits. */
  lemma ClassifyKeepsConfIff(s: State, id: nat, level: int, t: State)
    requires WellFormed(s) && ConfHop(s) && Classifiable(s, id, level) && Next(s, Classify(id, level), t)
    ensures WellFormed(t) && (ConfHop(t) <==> LevelFits(s, id, level))
  {
    forall x | x in s.nodes && !Parentless(s, x)
      ensures IsGreatest(t.nodes[x].conf, Confs(t, Parents(t.edges, x))) <==>
        if x == id then level == s.nodes[id].conf
        else id in Parents(s.edges, x) ==> level <= s.nodes[x].conf && (level == s.nodes[x].conf || HeldUp(s, x, id))
    {
      EdgesOf(s, x);
      if x == id {
        OwnLevelFits(s, t, id, level);
      } else if id in Parents(s.edges, x) {
        ChildFits(s, t, id, level, x);
      } else {
        assert Confs(t, Parents(t.edges, x)) == Confs(s, Parents(s.edges, x));
      }
    }
    EdgesOf(s, id);
    assert id !in Parents(s.edges, id);
    hide IsGreatest, HeldUp;
  }

  /** The invariant holds in every state of every run. */
  lemma {:induction false} RunsKeepInv(steps: seq<Step>, trace: seq<State>, i: nat)
    requires IsRun(steps, trace) && i <= |steps|
    ensures Inv(trace[i])
  {
    if i > 0 {
      RunsKeepInv(steps, trace, i - 1);
      NextKeeps(trace[i - 1], steps[i - 1], trace[i]);
    }
  }

  /** So does the confidentiality hop, as long as every reclassification fits. */
  lemma {:induction false} RunsKeepConf(steps: seq<Step>, trace: seq<State>, i: nat)
    requires IsRun(steps, trace) && i <= |steps|
    requires forall j | 0 <= j < i :: WellFormed(trace[j]) && ConfSafe(trace[j], steps[j])
    ensures Inv(trace[i]) && ConfHop(trace[i])
  {
    if i > 0 {
      RunsKeepConf(steps, trace, i - 1);
      var s, step, t := trace[i - 1], steps[i - 1], trace[i];
      NextKeeps(s, step, t);
      if step.Classify? && Classifiable(s, step.id, step.level) { ClassifyKeepsConfIff(s, step.id, step.level, t); }
    }
  }

  // ----- labels flatten to the roots

  /** The parentless rows `x` came from, `x` itself when it has no parents. */
  ghost function Roots(s: State, x: nat): set<nat> {
    set r | r in s.nodes && Parentless(s, r) && Descends(s, r, x)
  }

  lemma {:induction false} LabelBoundsAncestors(s: State, a: nat, x: nat)
    requires Inv(s) && a in s.nodes && x in s.nodes && Descends(s, a, x)
    ensures s.nodes[x].integrity <= s.nodes[a].integrity
    ensures ConfHop(s) ==> s.nodes[a].conf <= s.nodes[x].conf
    decreases x
  {
    if a != x {
      var p := ReachesLast(Down(s.edges), a, x);
      assert Edge(x, p) in s.edges;
      assert p in Parents(s.edges, x);
      LabelBoundsAncestors(s, a, p);
      assert s.nodes[p].integrity in Labels(s, Parents(s.edges, x));
      assert s.nodes[p].conf in Confs(s, Parents(s.edges, x));
    }
  }

  lemma {:induction false} LabelHasRoot(s: State, x: nat) returns (r: nat)
    requires Inv(s) && x in s.nodes
    ensures r in Roots(s, x) && s.nodes[r].integrity == s.nodes[x].integrity
    decreases x
  {
    if Parentless(s, x) {
      r := x;
      ReachesSelf(Down(s.edges), x);
    } else {
      assert s.nodes[x].integrity in Labels(s, Parents(s.edges, x));
      var p :| p in Parents(s.edges, x) && s.nodes[p].integrity == s.nodes[x].integrity;
      assert Edge(x, p) in s.edges;
      r := LabelHasRoot(s, p);
      assert (p, x) in Down(s.edges);
      ReachesStep(Down(s.edges), r, p, x);
    }
  }

  lemma {:induction false} ConfHasRoot(s: State, x: nat) returns (r: nat)
    requires Inv(s) && ConfHop(s) && x in s.nodes
    ensures r in Roots(s, x) && s.nodes[r].conf == s.nodes[x].conf
    decreases x
  {
    if Parentless(s, x) {
      r := x;
      ReachesSelf(Down(s.edges), x);
    } else {
      assert s.nodes[x].conf in Confs(s, Parents(s.edges, x));
      var p :| p in Parents(s.edges, x) && s.nodes[p].conf == s.nodes[x].conf;
      assert Edge(x, p) in s.edges;
      r := ConfHasRoot(s, p);
      assert (p, x) in Down(s.edges);
      ReachesStep(Down(s.edges), r, p, x);
    }
  }

  /** Min of min is min: across any number of hops a row's label is the least label of
      its roots. */
  lemma LabelsFlattenToRoots(steps: seq<Step>, trace: seq<State>, i: nat, x: nat)
    requires IsRun(steps, trace) && i <= |steps| && x in trace[i].nodes
    ensures IsLeast(trace[i].nodes[x].integrity, Labels(trace[i], Roots(trace[i], x)))
  {
    RunsKeepInv(steps, trace, i);
    var s := trace[i];
    var r := LabelHasRoot(s, x);
    assert s.nodes[r].integrity in Labels(s, Roots(s, x));
    forall a | a in Roots(s, x) ensures s.nodes[x].integrity <= s.nodes[a].integrity {
      LabelBoundsAncestors(s, a, x);
    }
  }

  /** And max of max is max, as long as every reclassification so far fitted. */
  lemma ConfFlattensToRoots(steps: seq<Step>, trace: seq<State>, i: nat, x: nat)
    requires IsRun(steps, trace) && i <= |steps| && x in trace[i].nodes
    requires forall j | 0 <= j < i :: WellFormed(trace[j]) && ConfSafe(trace[j], steps[j])
    ensures IsGreatest(trace[i].nodes[x].conf, Confs(trace[i], Roots(trace[i], x)))
  {
    RunsKeepConf(steps, trace, i);
    var s := trace[i];
    var r := ConfHasRoot(s, x);
    assert s.nodes[r].conf in Confs(s, Roots(s, x));
    forall a | a in Roots(s, x) ensures s.nodes[a].conf <= s.nodes[x].conf {
      LabelBoundsAncestors(s, a, x);
    }
  }

  // ----- liveness

  lemma {:induction false} LiveDownward(s: State, a: nat, x: nat)
    requires Inv(s) && a in s.nodes && x in s.nodes && Descends(s, a, x)
    requires !s.nodes[x].tombstoned
    ensures !s.nodes[a].tombstoned
    decreases x
  {
    if a != x {
      var p := ReachesLast(Down(s.edges), a, x);
      assert Edge(x, p) in s.edges;
      LiveDownward(s, a, p);
    }
  }

  /** Under any interleaving of the atomic steps, no live node has a tombstoned
      ancestor at any distance. */
  lemma NoLiveNodeOnADeadAncestor(steps: seq<Step>, trace: seq<State>, i: nat, a: nat, x: nat)
    requires IsRun(steps, trace) && i <= |steps|
    requires a in trace[i].nodes && x in trace[i].nodes && Descends(trace[i], a, x)
    requires trace[i].nodes[a].tombstoned
    ensures trace[i].nodes[x].tombstoned
  {
    RunsKeepInv(steps, trace, i);
    if !trace[i].nodes[x].tombstoned { LiveDownward(trace[i], a, x); }
  }

  /** Why check and insert must be one unit: let a revocation land between the
      liveness check and the insert, and the result is a live node whose parent is
      dead, for every store and every parent list that passed the check. */
  lemma SplitDeriveBreaksLiveness(s: State, content: Note, parents: seq<nat>, reason: Reason, l: int, c: int, now: int)
    requires Inv(s) && Derivable(s, parents)
    ensures var t := Derived(Revoked(s, parents[0], reason, now), content, Ids(parents), l, c, now);
      WellFormed(t) && !LiveOnLive(t)
  {
    var mid := Revoked(s, parents[0], reason, now);
    var t := Derived(mid, content, Ids(parents), l, c, now);
    ReachesSelf(Down(s.edges), parents[0]);
    assert Dooms(s, parents[0], parents[0]);
    var e := Edge(mid.nextId, parents[0]);
    assert parents[0] in Ids(parents);
    assert e in t.edges;
    assert t.nodes[parents[0]].tombstoned && !t.nodes[e.child].tombstoned;
  }

  // ----- revocations, on any edges table

  ghost function Dead(s: State): set<nat> {
    set x | x in s.nodes && s.nodes[x].tombstoned
  }

  /** What a revocation does to each row: the live rows it reaches die with the
      right record, every other row, dead ones included, is left untouched. */
  lemma RevokeRowByRow(s: State, seed: nat, reason: Reason, now: int)
    ensures var t := Revoked(s, seed, reason, now);
      && t.edges == s.edges && t.nodes.Keys == s.nodes.Keys
      && (forall x | x in s.nodes && (s.nodes[x].tombstoned || !Descends(s, seed, x)) :: t.nodes[x] == s.nodes[x])
      && (forall x | x in s.nodes && !s.nodes[x].tombstoned && Descends(s, seed, x) ::
        && t.nodes[x].tombstoned && t.nodes[x].tombstonedAt == Some(now)
        && t.nodes[x].revokeReason == Some(if x == seed then reason else CascadeFrom(seed)))
    ensures Dead(Revoked(s, seed, reason, now)) == Dead(s) + CascadeRows(s, seed)
  {
    var t := Revoked(s, seed, reason, now);
    forall y | y in s.nodes ensures y in Dead(t) <==> y in Dead(s) + CascadeRows(s, seed) { }
  }

  /** Two revocations leave the same rows dead in either order, and each counts
      only what the other left alive: together they count the union once. */
  lemma RevocationsCommute(s: State, a: nat, b: nat, ra: Reason, rb: Reason, ta: int, tb: int)
    ensures Dead(Revoked(Revoked(s, a, ra, ta), b, rb, tb)) == Dead(Revoked(Revoked(s, b, rb, tb), a, ra, ta))
    ensures |Doomed(s, a)| + |Doomed(Revoked(s, a, ra, ta), b)| == |Doomed(s, b)| + |Doomed(Revoked(s, b, rb, tb), a)|
  {
    DeadAfterTwo(s, a, b, ra, rb, ta, tb);
    DeadAfterTwo(s, b, a, rb, ra, tb, ta);
    assert Doomed(s, a) + Doomed(s, b) == Doomed(s, b) + Doomed(s, a);
  }

  lemma DeadAfterTwo(s: State, a: nat, b: nat, ra: Reason, rb: Reason, ta: int, tb: int)
    ensures Dead(Revoked(Revoked(s, a, ra, ta), b, rb, tb)) == Dead(s) + CascadeRows(s, a) + CascadeRows(s, b)
    ensures |Doomed(s, a)| + |Doomed(Revoked(s, a, ra, ta), b)| == |Doomed(s, a) + Doomed(s, b)|
  {
    var t := Revoked(s, a, ra, ta);
    RevokeRowByRow(s, a, ra, ta);
    RevokeRowByRow(t, b, rb, tb);
    assert CascadeRows(t, b) == CascadeRows(s, b);
    forall x ensures x in Doomed(t, b) <==> x in Doomed(s, b) && x !in Doomed(s, a) { }
    assert Doomed(s, a) + Doomed(s, b) == Doomed(s, a) + Doomed(t, b);
  }

  /** A second revocation of the same seed finds nothing to do and rewrites no record. */
  lemma RevokeIsIdempotent(s: State, a: nat, r: Reason, r2: Reason, now: int, later: int)
    ensures Revoked(Revoked(s, a, r, now), a, r2, later) == Revoked(s, a, r, now)
    ensures Doomed(Revoked(s, a, r, now), a) == {}
  {
    var t := Revoked(s, a, r, now);
    forall x | x in t.nodes ensures !Dooms(t, a, x) {
      assert Descends(t, a, x) == Descends(s, a, x);
    }
    assert Revoked(t, a, r2, later).nodes == t.nodes;
  }
}
