/// The three propagators of the backtracking search, sharing one calling
/// convention: given the network and the variable the search bound last (or
/// none, before any binding), report whether no dead end was found and list
/// every (variable, value) pair pruned; and the recursive support search.
module Propagators {
  import opened Csp

  /** The constraints a propagator starts from: all of them before any
      binding, else those whose scope mentions the variable bound last. */
  function Scheduled(csp: Network, newVar: Option<Variable>): (r: seq<Constraint>)
    reads csp
    ensures forall c :: c in r ==> c in csp.cons
    ensures newVar.Some? ==> forall c :: c in csp.cons && newVar.value in c.scope ==> c in r
    ensures Distinct(csp.cons) ==> Distinct(r)
  {
    if newVar.None? then csp.cons else csp.ConsWithVar(newVar.value)
  }

  /** The tuple of the values the scope variables are bound to. */
  method BoundTuple(c: Constraint) returns (vals: seq<int>)
    requires forall i :: 0 <= i < |c.scope| ==> c.scope[i].IsAssigned()
    ensures |vals| == |c.scope|
    ensures forall i :: 0 <= i < |c.scope| ==> c.scope[i].binding == Some(vals[i])
  {
    vals := [];
    for i := 0 to |c.scope|
      invariant |vals| == i
      invariant forall k :: 0 <= k < i ==> vals[k] == c.scope[k].binding.value
    {
      vals := vals + [c.scope[i].binding.value];
    }
  }

  // ---------------------------------------------------------------------
  // Plain backtracking
  // ---------------------------------------------------------------------

  /** `c` has every scope variable bound under `A` and the bound tuple fails it. */
  ghost predicate BtViolated(c: Constraint, A: AssignmentMap) {
    |UnassignedIn(c, A)| == 0 && !c.Check(BoundValues(c, A))
  }

  /** Checks only the fully bound constraints that mention `newVar`; prunes
      nothing. */
  method PropBT(csp: Network, newVar: Option<Variable>) returns (ok: bool, pruned: seq<(Variable, int)>)
    requires csp.WellFormed()
    ensures pruned == []
    ensures newVar.None? ==> ok
    ensures ok <==> (newVar.None? ||
      forall c :: c in csp.ConsWithVar(newVar.value) ==> !BtViolated(c, csp.Assignment()))
  {
    if newVar.None? {
      return true, [];
    }
    var cons := csp.ConsWithVar(newVar.value);
    ghost var A := csp.Assignment();
    for k := 0 to |cons|
      invariant forall k' :: 0 <= k' < k ==> !BtViolated(cons[k'], A)
    {
      var c := cons[k];
      NUnassignedAgrees(csp, c);
      if c.NUnassigned() == 0 {
        assert UnassignedIn(c, A) == {};
        forall i | 0 <= i < |c.scope| ensures c.scope[i].IsAssigned() {
          assert i !in UnassignedIn(c, A);
          assert c.scope[i] in csp.vars;
        }
        var vals := BoundTuple(c);
        assert vals == BoundValues(c, A);
        if !c.Check(vals) {
          assert c in cons && BtViolated(c, A);
          assert A == csp.Assignment();
          assert c in csp.ConsWithVar(newVar.value);
          return false, [];
        }
      }
    }
    return true, [];
  }

  // ---------------------------------------------------------------------
  // Forward checking
  // ---------------------------------------------------------------------

  /** The one unbound scope variable of a constraint with one unbound
      position (the last unbound one met in scope order). */
  method SoleUnassigned(csp: Network, c: Constraint) returns (u: Variable)
    requires csp.WellFormed() && c in csp.cons && c.NUnassigned() == 1
    ensures u in c.scope && !u.IsAssigned()
    ensures |UnassignedIn(c, csp.Assignment())| == 1 && u == TheUnassigned(c, csp.Assignment())
  {
    NUnassignedAgrees(csp, c);
    ghost var A := csp.Assignment();
    ghost var p :| p in UnassignedIn(c, A);
    TheUnassignedIs(c, A, p);
    u := c.scope[0];
    assert c.scope[p] in csp.vars;
    var found := false;
    for i := 0 to |c.scope|
      invariant found <==> p < i
      invariant found ==> u == c.scope[p]
    {
      if !c.scope[i].IsAssigned() {
        assert c.scope[i] in csp.vars && i in UnassignedIn(c, A);
        u := c.scope[i];
        found := true;
      }
    }
  }

  /** Under `A`, `u` is the one unbound scope variable of `c`, and every other
      scope variable is bound to the value `A` records for it. */
  ghost predicate SoleFree(c: Constraint, A: AssignmentMap, u: Variable)
    reads c.scope, u
  {
    && |UnassignedIn(c, A)| == 1 && u == TheUnassigned(c, A) && u.binding == None
    && forall i :: 0 <= i < |c.scope| && c.scope[i] != u ==>
         c.scope[i] in A && A[c.scope[i]] == c.scope[i].binding && c.scope[i].IsAssigned()
  }

  /** One step of forward checking on `c`, whose only unbound variable is
      `u`: binds `u` to `val`, prunes `val` when the constraint rejects the
      resulting tuple, and unbinds `u` again. `wiped` reports, when
      `stopAtWipeout` is set, that the rejection left `u`'s domain empty. */
  method FcTry(c: Constraint, u: Variable, val: int, stopAtWipeout: bool, ghost A: AssignmentMap)
    returns (pruned: bool, wiped: bool)
    requires SoleFree(c, A, u) && u.dom.Valid()
    modifies u, u.dom
    ensures SoleFree(c, A, u) && u.dom.Valid()
    ensures pruned <==> old(u.dom.Contains(val)) && FcRemoves(c, A, u, val)
    ensures u.dom.current == if pruned then Without(old(u.dom.current), val) else old(u.dom.current)
    ensures wiped <==> stopAtWipeout && FcRemoves(c, A, u, val) && u.dom.current == []
  {
    pruned := false;
    wiped := false;
    u.Assign(val);
    var vals := BoundTuple(c);
    ValuesWithBound(c, A, u, val, vals);
    if !c.Check(vals) {
      if u.dom.Contains(val) {
        u.dom.Prune(val);
        pruned := true;
      }
      if stopAtWipeout && u.dom.Size() == 0 {
        u.Unassign();
        wiped := true;
        return;
      }
    }
    u.Unassign();
  }

  /** The state of forward checking on `u` after the first `j` values of the
      snapshot `curDom`, where `rm` tells the values forward checking
      removes: `more` records the values pruned so far, each one `rm`
      accepts, and `V` is what is left, which holds none of the values
      passed over that `rm` accepts. */
  ghost predicate FcTried(rm: int -> bool, u: Variable, curDom: seq<int>, j: int,
                          more: seq<(Variable, int)>, V: set<int>) {
    && 0 <= j <= |curDom|
    && V == Elements(curDom) - PrunedOf(more, u)
    && Distinct(more)
    && (forall i :: 0 <= i < |more| ==> more[i].0 == u && more[i].1 in curDom[..j] && rm(more[i].1))
    && (forall j' :: 0 <= j' < j && rm(curDom[j']) ==> curDom[j'] !in V)
  }

  /** The value `curDom[j]` of forward checking, not among the first `j`. */
  lemma FcNext(curDom: seq<int>, j: int)
    requires Distinct(curDom) && 0 <= j < |curDom|
    ensures curDom[..j + 1] == curDom[..j] + [curDom[j]]
    ensures curDom[j] !in curDom[..j]
  {
    assert curDom[..j + 1] == curDom[..j] + [curDom[j]];
    forall k | 0 <= k < j ensures curDom[k] != curDom[j] {
      assert curDom[..j][k] == curDom[k];
    }
  }

  /** A value of forward checking that is pruned. */
  lemma FcTriedPrune(rm: int -> bool, u: Variable, curDom: seq<int>, j: int,
                     more: seq<(Variable, int)>, cur: seq<int>)
    requires Distinct(curDom) && 0 <= j < |curDom| && Distinct(cur)
    requires FcTried(rm, u, curDom, j, more, Elements(cur))
    requires curDom[j] in cur && rm(curDom[j])
    ensures FcTried(rm, u, curDom, j + 1, more + [(u, curDom[j])], Elements(Without(cur, curDom[j])))
  {
    var val := curDom[j];
    FcNext(curDom, j);
    assert val !in PrunedOf(more, u);
    PrunedOfAppend(more, [(u, val)], u);
    PrunedOfOne(u, val, u);
  }

  /** A value of forward checking that is kept. */
  lemma FcTriedKeep(rm: int -> bool, u: Variable, curDom: seq<int>, j: int,
                    more: seq<(Variable, int)>, cur: seq<int>)
    requires Distinct(curDom) && 0 <= j < |curDom|
    requires FcTried(rm, u, curDom, j, more, Elements(cur))
    requires !(curDom[j] in cur && rm(curDom[j]))
    ensures FcTried(rm, u, curDom, j + 1, more, Elements(cur))
  {
    FcNext(curDom, j);
  }

  /** Forward checking of `c` on its only unbound variable `u`: each value of
      a snapshot of `u`'s domain is tried in turn. The values pruned are
      exactly those forward checking removes and were still in the domain;
      with `stopAtWipeout` the revision gives up once `u`'s domain is empty. */
  method FcRevise(c: Constraint, u: Variable, stopAtWipeout: bool, ghost A: AssignmentMap)
    returns (more: seq<(Variable, int)>, wiped: bool)
    requires SoleFree(c, A, u) && u.dom.Valid()
    modifies u, u.dom
    ensures u.binding == None && u.dom.Valid()
    ensures Distinct(more)
    ensures forall i :: 0 <= i < |more| ==> more[i].0 == u && more[i].1 in old(u.dom.Values())
    ensures forall i :: 0 <= i < |more| ==> FcRemoves(c, A, u, more[i].1)
    ensures u.dom.Values() == old(u.dom.Values()) - PrunedOf(more, u)
    ensures !wiped ==> forall x :: FcRemoves(c, A, u, x) ==> x !in u.dom.Values()
    ensures !stopAtWipeout ==> !wiped
    ensures wiped ==> more != [] && u.dom.current == []
    ensures stopAtWipeout && !wiped && old(u.dom.current) != [] ==> u.dom.current != []
  {
    var curDom := u.dom.current;
    ghost var rm := x => FcRemoves(c, A, u, x);
    more := [];
    wiped := false;
    for j := 0 to |curDom|
      invariant SoleFree(c, A, u) && u.dom.Valid()
      invariant FcTried(rm, u, curDom, j, more, u.dom.Values())
      invariant stopAtWipeout && curDom != [] ==> u.dom.current != []
    {
      var val := curDom[j];
      ghost var cur := u.dom.current;
      var pr, w := FcTry(c, u, val, stopAtWipeout, A);
      if pr {
        FcTriedPrune(rm, u, curDom, j, more, cur);
      } else {
        FcTriedKeep(rm, u, curDom, j, more, cur);
      }
      if pr {
        more := more + [(u, val)];
      }
      if w {
        wiped := true;
        return;
      }
    }
    assert curDom[..|curDom|] == curDom;
  }

  /** Under one unbound scope position, every other scope variable is bound,
      to the value the assignment map records. */
  lemma OthersBound(csp: Network, c: Constraint)
    requires csp.WellFormed() && c in csp.cons
    requires |UnassignedIn(c, csp.Assignment())| == 1
    ensures TheUnassigned(c, csp.Assignment()) in csp.vars
    ensures SoleFree(c, csp.Assignment(), TheUnassigned(c, csp.Assignment()))
  {
    var A := csp.Assignment();
    var p :| p in UnassignedIn(c, A);
    TheUnassignedIs(c, A, p);
    assert c.scope[p] in csp.vars;
    forall i | 0 <= i < |c.scope| && c.scope[i] != c.scope[p]
      ensures c.scope[i] in A && A[c.scope[i]] == c.scope[i].binding && c.scope[i].IsAssigned()
    {
      assert c.scope[i] in csp.vars;
      assert i !in UnassignedIn(c, A);
    }
  }

  /** The tuple read off the bindings while `u` is bound to `x` is the tuple
      `ValuesWith` describes. */
  lemma ValuesWithBound(c: Constraint, A: AssignmentMap, u: Variable, x: int, vals: seq<int>)
    requires |vals| == |c.scope|
    requires forall i :: 0 <= i < |c.scope| && c.scope[i] == u ==> vals[i] == x
    requires forall i :: 0 <= i < |c.scope| && c.scope[i] != u ==>
      c.scope[i] in A && A[c.scope[i]] == Some(vals[i])
    ensures vals == ValuesWith(c, A, u, x)
  {
  }

  /** A record of prunes of one variable only. */
  lemma RecordsOneVariable(D: DomainMap, u: Variable, more: seq<(Variable, int)>)
    requires u in D && Distinct(more)
    requires forall i :: 0 <= i < |more| ==> more[i].0 == u && more[i].1 in D[u]
    ensures Records(D, D[u := D[u] - PrunedOf(more, u)], more)
  {
    forall v | v in D && v != u ensures PrunedOf(more, v) == {} { }
  }

  /** What revising one constraint `c` under the bindings `A` does to the
      domains `D`, giving `E`: `more` records the change exactly, each pair is
      one forward checking removes, none is left unless the revision was cut
      short by a wipe-out, and a wipe-out leaves the last pruned domain empty. */
  ghost predicate FcStep(c: Constraint, A: AssignmentMap, D: DomainMap, E: DomainMap,
                         more: seq<(Variable, int)>, stopAtWipeout: bool, wiped: bool) {
    && Records(D, E, more)
    && (forall i :: 0 <= i < |more| ==> FcRemoves(c, A, more[i].0, more[i].1))
    && (!wiped ==> forall u, x :: (u in E && FcRemoves(c, A, u, x)) ==> x !in E[u])
    && (!stopAtWipeout ==> !wiped)
    && (wiped ==> more != [] && E[more[|more| - 1].0] == {})
    && (stopAtWipeout && !wiped ==> forall v :: (v in D && D[v] != {}) ==> E[v] != {})
  }

  /** Forward checking of one scheduled constraint: revised when exactly one
      of its scope variables is unbound, left alone otherwise. */
  method FcConstraint(csp: Network, c: Constraint, stopAtWipeout: bool)
    returns (more: seq<(Variable, int)>, wiped: bool)
    requires csp.Valid() && c in csp.cons
    modifies csp.vars, csp.Domains()
    ensures csp.Valid()
    ensures csp.Assignment() == old(csp.Assignment())
    ensures FcStep(c, csp.Assignment(), old(csp.DomMap()), csp.DomMap(), more, stopAtWipeout, wiped)
  {
    ghost var A := csp.Assignment();
    ghost var D0 := csp.DomMap();
    NUnassignedAgrees(csp, c);
    if c.NUnassigned() != 1 {
      RecordsNothing(D0);
      return [], false;
    }
    var u := SoleUnassigned(csp, c);
    OthersBound(csp, c);
    ghost var cur0 := u.dom.current;
    more, wiped := FcRevise(c, u, stopAtWipeout, A);
    AssignmentIs(csp, A);
    DomMapAfter(csp, D0, u);
    RecordsOneVariable(D0, u, more);
    ElementsEmpty(u.dom.current);
    ElementsEmpty(cur0);
  }

  /** Some constraint of `cs` has forward checking remove `x` from `u`. */
  ghost predicate FcRemovedBy(cs: seq<Constraint>, A: AssignmentMap, u: Variable, x: int) {
    exists c :: c in cs && FcRemoves(c, A, u, x)
  }

  /** Under `D` no constraint of `cs` has a value left that forward checking removes. */
  ghost predicate FcComplete(cs: seq<Constraint>, A: AssignmentMap, D: DomainMap) {
    forall c, u, x :: (c in cs && u in D && FcRemoves(c, A, u, x)) ==> x !in D[u]
  }

  /** The state after forward checking the first `k` scheduled constraints
      from the domains `D0` to `D`, pruning `pruned`. */
  ghost predicate FcSoFar(cons: seq<Constraint>, k: int, A: AssignmentMap, D0: DomainMap, D: DomainMap,
                          pruned: seq<(Variable, int)>, stopAtWipeout: bool) {
    && 0 <= k <= |cons|
    && Records(D0, D, pruned)
    && (forall i :: 0 <= i < |pruned| ==> FcRemovedBy(cons[..k], A, pruned[i].0, pruned[i].1))
    && FcComplete(cons[..k], A, D)
    && (stopAtWipeout ==> forall i :: 0 <= i < |pruned| ==> D[pruned[i].0] != {})
  }

  /** Revising the next scheduled constraint extends the state by one
      constraint, or ends the call with a wipe-out. */
  lemma FcSoFarStep(cons: seq<Constraint>, k: int, A: AssignmentMap, D0: DomainMap, D: DomainMap, E: DomainMap,
                    pruned: seq<(Variable, int)>, more: seq<(Variable, int)>, stopAtWipeout: bool, wiped: bool)
    requires FcSoFar(cons, k, A, D0, D, pruned, stopAtWipeout) && k < |cons|
    requires FcStep(cons[k], A, D, E, more, stopAtWipeout, wiped)
    ensures !wiped ==> FcSoFar(cons, k + 1, A, D0, E, pruned + more, stopAtWipeout)
    ensures wiped ==> (Records(D0, E, pruned + more) && pruned + more != [] &&
      E[(pruned + more)[|pruned + more| - 1].0] == {} &&
      forall i :: 0 <= i < |pruned + more| ==> FcRemovedBy(cons, A, (pruned + more)[i].0, (pruned + more)[i].1))
  {
    RecordsCompose(D0, D, E, pruned, more);
    assert cons[..k + 1] == cons[..k] + [cons[k]];
    var pm := pruned + more;
    forall i | 0 <= i < |pm| ensures FcRemovedBy(cons[..k + 1], A, pm[i].0, pm[i].1) {
      if i < |pruned| {
        assert pm[i] == pruned[i];
        var c :| c in cons[..k] && FcRemoves(c, A, pruned[i].0, pruned[i].1);
        assert c in cons[..k + 1];
      } else {
        assert pm[i] == more[i - |pruned|];
        assert cons[k] in cons[..k + 1];
      }
    }
    if wiped {
      assert pm[|pm| - 1] == more[|more| - 1];
      FcRemovedByPrefix(cons, k + 1, A, pm);
    } else if stopAtWipeout {
      forall i | 0 <= i < |pm| ensures E[pm[i].0] != {} {
        if i < |pruned| {
          assert pm[i] == pruned[i];
        } else {
          assert pm[i] == more[i - |pruned|];
        }
      }
    }
  }

  lemma FcRemovedByPrefix(cons: seq<Constraint>, k: int, A: AssignmentMap, pruned: seq<(Variable, int)>)
    requires 0 <= k <= |cons|
    requires forall i :: 0 <= i < |pruned| ==> FcRemovedBy(cons[..k], A, pruned[i].0, pruned[i].1)
    ensures forall i :: 0 <= i < |pruned| ==> FcRemovedBy(cons, A, pruned[i].0, pruned[i].1)
  {
    forall i | 0 <= i < |pruned| ensures FcRemovedBy(cons, A, pruned[i].0, pruned[i].1) {
      var c :| c in cons[..k] && FcRemoves(c, A, pruned[i].0, pruned[i].1);
      assert c in cons;
    }
  }

  /** The loop of forward checking over the scheduled constraints `cons`,
      from the domains `D0` and under the bindings `A`. */
  method FcLoop(csp: Network, cons: seq<Constraint>, stopAtWipeout: bool, ghost A: AssignmentMap, ghost D0: DomainMap)
    returns (ok: bool, pruned: seq<(Variable, int)>)
    requires csp.Valid() && csp.Assignment() == A && csp.DomMap() == D0
    requires forall c :: c in cons ==> c in csp.cons
    modifies csp.vars, csp.Domains()
    ensures csp.Valid() && csp.Assignment() == A
    ensures Records(D0, csp.DomMap(), pruned)
    ensures forall i :: 0 <= i < |pruned| ==> FcRemovedBy(cons, A, pruned[i].0, pruned[i].1)
    ensures ok ==> FcComplete(cons, A, csp.DomMap())
    ensures !stopAtWipeout ==> ok
    ensures !ok ==> pruned != [] && csp.DomMap()[pruned[|pruned| - 1].0] == {}
    ensures stopAtWipeout && ok ==> forall i :: 0 <= i < |pruned| ==> csp.DomMap()[pruned[i].0] != {}
  {
    pruned := [];
    RecordsNothing(D0);
    ghost var D := D0;
    for k := 0 to |cons|
      invariant csp.Valid()
      invariant csp.Assignment() == A
      invariant D == csp.DomMap()
      invariant FcSoFar(cons, k, A, D0, D, pruned, stopAtWipeout)
    {
      var more, wiped := FcConstraint(csp, cons[k], stopAtWipeout);
      FcSoFarStep(cons, k, A, D0, D, csp.DomMap(), pruned, more, stopAtWipeout, wiped);
      if wiped {
        return false, pruned + more;
      }
      pruned := pruned + more;
      D := csp.DomMap();
    }
    assert cons[..|cons|] == cons;
    FcRemovedByPrefix(cons, |cons|, A, pruned);
    return true, pruned;
  }

  /** Forward checking as the search calls it: every scheduled constraint
      with exactly one unbound variable is revised. The pruned pairs are
      exactly recorded, each is a value forward checking removes, and the
      bindings are left as they were found. With `stopAtWipeout` a domain
      wipe-out is reported as a dead end; without it, never. */
  method ForwardCheck(csp: Network, newVar: Option<Variable>, stopAtWipeout: bool)
    returns (ok: bool, pruned: seq<(Variable, int)>)
    requires csp.Valid()
    modifies csp.vars, csp.Domains()
    ensures csp.Valid()
    ensures csp.Assignment() == old(csp.Assignment())
    ensures Records(old(csp.DomMap()), csp.DomMap(), pruned)
    ensures forall i :: 0 <= i < |pruned| ==>
      FcRemovedBy(Scheduled(csp, newVar), csp.Assignment(), pruned[i].0, pruned[i].1)
    ensures ok ==> FcComplete(Scheduled(csp, newVar), csp.Assignment(), csp.DomMap())
    ensures !stopAtWipeout ==> ok
    ensures !ok ==> pruned != [] && csp.DomMap()[pruned[|pruned| - 1].0] == {}
    ensures stopAtWipeout && ok ==> forall i :: 0 <= i < |pruned| ==> csp.DomMap()[pruned[i].0] != {}
  {
    var cons := Scheduled(csp, newVar);
    ok, pruned := FcLoop(csp, cons, stopAtWipeout, csp.Assignment(), csp.DomMap());
  }

  /** `prop_FC` with the dead-end test it documents: forward checking that
      reports a dead end once a pruned domain is empty. */
  method PropFC(csp: Network, newVar: Option<Variable>) returns (ok: bool, pruned: seq<(Variable, int)>)
    requires csp.Valid()
    modifies csp.vars, csp.Domains()
    ensures csp.Valid()
    ensures csp.Assignment() == old(csp.Assignment())
    ensures Records(old(csp.DomMap()), csp.DomMap(), pruned)
    ensures forall i :: 0 <= i < |pruned| ==>
      FcRemovedBy(Scheduled(csp, newVar), csp.Assignment(), pruned[i].0, pruned[i].1)
    ensures ok ==> FcComplete(Scheduled(csp, newVar), csp.Assignment(), csp.DomMap())
    ensures ok ==> forall i :: 0 <= i < |pruned| ==> csp.DomMap()[pruned[i].0] != {}
    ensures !ok ==> pruned != [] && csp.DomMap()[pruned[|pruned| - 1].0] == {}
  {
    ok, pruned := ForwardCheck(csp, newVar, true);
  }

  /** `prop_FC` as written: its dead-end test compares a method object with 0
      and so never fires; the call always succeeds, even with an empty
      domain left behind. */
  method PropFCAsWritten(csp: Network, newVar: Option<Variable>) returns (ok: bool, pruned: seq<(Variable, int)>)
    requires csp.Valid()
    modifies csp.vars, csp.Domains()
    ensures csp.Valid()
    ensures csp.Assignment() == old(csp.Assignment())
    ensures Records(old(csp.DomMap()), csp.DomMap(), pruned)
    ensures forall i :: 0 <= i < |pruned| ==>
      FcRemovedBy(Scheduled(csp, newVar), csp.Assignment(), pruned[i].0, pruned[i].1)
    ensures FcComplete(Scheduled(csp, newVar), csp.Assignment(), csp.DomMap())
    ensures ok
  {
    ok, pruned := ForwardCheck(csp, newVar, false);
  }

  // ---------------------------------------------------------------------
  // The revision queue
  // ---------------------------------------------------------------------

  /** Appends, in order, each constraint of `cs` not already queued. */
  method Enqueue(queue: seq<Constraint>, cs: seq<Constraint>) returns (q: seq<Constraint>)
    requires Distinct(queue)
    ensures Distinct(q) && queue <= q
    ensures forall c :: c in q ==> c in queue || c in cs
    ensures forall c :: c in cs ==> c in q
  {
    q := queue;
    for k := 0 to |cs|
      invariant Distinct(q) && queue <= q
      invariant forall c :: c in q ==> c in queue || c in cs[..k]
      invariant forall c :: c in cs[..k] ==> c in q
    {
      if cs[k] !in q {
        q := q + [cs[k]];
      }
    }
  }

  // ---------------------------------------------------------------------
  // Generalized arc consistency
  // ---------------------------------------------------------------------

  /** The only value `b` leaves possible: the bound one, or none. */
  function BoundSet(b: Option<int>): (r: set<int>)
    ensures forall x :: x in r <==> b == Some(x)
  {
    if b.Some? then {b.value} else {}
  }

  /** The pairs the GAC initialisation prunes from `v`: every value of the
      snapshot `cur` other than the bound value `b`, in order. */
  function InitialPrunes(v: Variable, cur: seq<int>, b: Option<int>): (r: seq<(Variable, int)>)
    ensures forall i :: 0 <= i < |r| ==> r[i].0 == v && r[i].1 in cur && b != Some(r[i].1)
    ensures forall x :: x in cur && b != Some(x) ==> (v, x) in r
    ensures Distinct(cur) ==> Distinct(r)
  {
    if cur == [] then []
    else
      var rest := InitialPrunes(v, cur[..|cur| - 1], b);
      var last := cur[|cur| - 1];
      assert forall x :: x in cur ==> x in cur[..|cur| - 1] || x == last;
      if b != Some(last) then rest + [(v, last)] else rest
  }

  /** The state of the GAC initialisation after the first `j` values of the
      snapshot `cur`: the prunes so far, the values `V` left, and none of the
      values passed over that is not the bound one. */
  ghost predicate BindingSoFar(v: Variable, cur: seq<int>, j: int, b: Option<int>,
                               pruned: seq<(Variable, int)>, V: set<int>) {
    && 0 <= j <= |cur|
    && pruned == InitialPrunes(v, cur[..j], b)
    && V == Elements(cur) - PrunedOf(pruned, v)
    && forall x :: x in cur[..j] && b != Some(x) ==> x !in V
  }

  /** One value of the GAC initialisation: pruned unless it is the bound one. */
  lemma BindingSoFarStep(v: Variable, cur: seq<int>, j: int, b: Option<int>,
                         pruned: seq<(Variable, int)>, V: set<int>)
    requires Distinct(cur) && j < |cur| && BindingSoFar(v, cur, j, b, pruned, V)
    ensures b != Some(cur[j]) ==> BindingSoFar(v, cur, j + 1, b, pruned + [(v, cur[j])], V - {cur[j]})
    ensures b == Some(cur[j]) ==> BindingSoFar(v, cur, j + 1, b, pruned, V)
  {
    assert cur[..j + 1][..j] == cur[..j];
    assert cur[..j + 1] == cur[..j] + [cur[j]];
    assert Distinct(cur[..j]);
    PrunedOfAppend(pruned, [(v, cur[j])], v);
    PrunedOfOne(v, cur[j], v);
  }

  /** The GAC initialisation for the variable bound last: prunes every value of
      a snapshot of its current domain other than its bound value, without
      asking again whether each value is still there. */
  method PruneToBinding(csp: Network, v: Variable) returns (pruned: seq<(Variable, int)>)
    requires csp.Valid() && v in csp.vars
    modifies v.dom
    ensures csp.Valid()
    ensures pruned == InitialPrunes(v, old(v.dom.current), v.binding)
    ensures Records(old(csp.DomMap()), csp.DomMap(), pruned)
    ensures v.dom.Values() <= BoundSet(v.binding)
  {
    ghost var D0 := csp.DomMap();
    ghost var b := v.binding;
    var cur := v.dom.current;
    pruned := [];
    for j := 0 to |cur|
      invariant v.dom.Valid()
      invariant BindingSoFar(v, cur, j, b, pruned, v.dom.Values())
    {
      BindingSoFarStep(v, cur, j, b, pruned, v.dom.Values());
      if Some(cur[j]) != v.binding {
        v.dom.Prune(cur[j]);
        pruned := pruned + [(v, cur[j])];
      }
    }
    assert cur[..|cur|] == cur;
    DomMapAfter(csp, D0, v);
    RecordsOneVariable(D0, v, pruned);
  }

  /** The domains of the scope variables of `c` other than `x` are as `D`
      records them, and are objects apart from `x`'s. */
  ghost predicate OthersAsIn(c: Constraint, x: Variable, D: DomainMap)
    reads c.Domains()
  {
    forall i :: 0 <= i < |c.scope| && c.scope[i] != x ==>
      c.scope[i].dom != x.dom && c.scope[i] in D && D[c.scope[i]] == c.scope[i].dom.Values()
  }

  /** The support test of the network is the value-level one. */
  lemma HasSupportIs(c: Constraint, x: Variable, val: int, D: DomainMap)
    requires OthersAsIn(c, x, D)
    ensures c.HasSupport(x, val) == SupportedIn(c, D, x, val)
  {
    if c.HasSupport(x, val) {
      var t :| t in c.tuples && |t| == |c.scope| &&
        forall i :: 0 <= i < |c.scope| ==>
          if c.scope[i] == x then t[i] == val else t[i] in c.scope[i].dom.current;
      assert SupportsIn(c, D, x, val, t);
    }
    if SupportedIn(c, D, x, val) {
      var t :| t in c.tuples && SupportsIn(c, D, x, val, t);
      assert forall i :: 0 <= i < |c.scope| ==>
          if c.scope[i] == x then t[i] == val else t[i] in c.scope[i].dom.current;
    }
  }

  /** One step of revising `x` against `c`: prunes `val` if it has no support;
      on a wipe-out reports it, otherwise queues the constraints on `x`. */
  method GacTry(csp: Network, c: Constraint, x: Variable, val: int, queue: seq<Constraint>, ghost D: DomainMap)
    returns (q: seq<Constraint>, pruned: bool, wiped: bool)
    requires OthersAsIn(c, x, D) && x.dom.Valid()
    requires Distinct(queue) && forall c' :: c' in queue ==> c' in csp.cons
    modifies x.dom
    ensures x.dom.Valid()
    ensures pruned <==> old(x.dom.Contains(val)) && !SupportedIn(c, D, x, val)
    ensures x.dom.current == if pruned then Without(old(x.dom.current), val) else old(x.dom.current)
    ensures wiped <==> !SupportedIn(c, D, x, val) && x.dom.current == []
    ensures Distinct(q) && queue <= q && forall c' :: c' in q ==> c' in csp.cons
    ensures (SupportedIn(c, D, x, val) || wiped) ==> q == queue
    ensures (!SupportedIn(c, D, x, val) && !wiped) ==> forall c' :: c' in csp.cons && x in c'.scope ==> c' in q
  {
    q := queue;
    pruned := false;
    wiped := false;
    HasSupportIs(c, x, val, D);
    if !c.HasSupport(x, val) {
      if x.dom.Contains(val) {
        x.dom.Prune(val);
        pruned := true;
      }
      if x.dom.Size() == 0 {
        wiped := true;
        return;
      }
      q := Enqueue(q, csp.ConsWithVar(x));
    }
  }

  /** `q` is `queue` with constraints of `cons` appended, no duplicates;
      once `grew`, every constraint of `cons` on `x` is among them. */
  ghost predicate Queued(queue: seq<Constraint>, q: seq<Constraint>, cons: seq<Constraint>, x: Variable, grew: bool) {
    && Distinct(q) && queue <= q && (forall c' :: c' in q ==> c' in cons)
    && (!grew ==> q == queue)
    && (grew ==> forall c' :: c' in cons && x in c'.scope ==> c' in q)
  }

  /** `more` prunes, without repetition, values of `seen` from `x`, none of
      which has a support in `c` under `D`. */
  ghost predicate PrunedUnsupported(c: Constraint, D: DomainMap, x: Variable,
                                    more: seq<(Variable, int)>, seen: seq<int>) {
    && Distinct(more)
    && (forall i :: 0 <= i < |more| ==> more[i].0 == x && more[i].1 in seen)
    && (forall i :: 0 <= i < |more| ==> !SupportedIn(c, D, x, more[i].1))
  }

  /** The state of revising `x` against `c` after the first `j` values of the
      snapshot `cur`: `V` is what is left of `x`'s domain. */
  ghost predicate RevisedSoFar(c: Constraint, D: DomainMap, x: Variable, cur: seq<int>, j: int,
                               V: set<int>, more: seq<(Variable, int)>,
                               queue: seq<Constraint>, q: seq<Constraint>, cons: seq<Constraint>) {
    && 0 <= j <= |cur| && Distinct(cur)
    && V == Elements(cur) - PrunedOf(more, x)
    && PrunedUnsupported(c, D, x, more, cur[..j])
    && (forall j' :: 0 <= j' < j && cur[j'] in V ==> SupportedIn(c, D, x, cur[j']))
    && Queued(queue, q, cons, x, more != [])
  }

  /** Trying the next value of the snapshot extends the state by one value. */
  lemma RevisedSoFarStep(c: Constraint, D: DomainMap, x: Variable, cur: seq<int>, j: int,
                         V: set<int>, V': set<int>, more: seq<(Variable, int)>,
                         queue: seq<Constraint>, q: seq<Constraint>, q': seq<Constraint>,
                         cons: seq<Constraint>, pr: bool, w: bool)
    requires RevisedSoFar(c, D, x, cur, j, V, more, queue, q, cons) && j < |cur|
    requires pr <==> cur[j] in V && !SupportedIn(c, D, x, cur[j])
    requires V' == if pr then V - {cur[j]} else V
    requires w ==> !SupportedIn(c, D, x, cur[j])
    requires Distinct(q') && q <= q' && forall c' :: c' in q' ==> c' in cons
    requires (SupportedIn(c, D, x, cur[j]) || w) ==> q' == q
    requires (!SupportedIn(c, D, x, cur[j]) && !w) ==> forall c' :: c' in cons && x in c'.scope ==> c' in q'
    ensures var more' := if pr then more + [(x, cur[j])] else more;
      && V' == Elements(cur) - PrunedOf(more', x)
      && PrunedUnsupported(c, D, x, more', cur[..j + 1])
      && (w ==> more' != [])
      && (!w ==> RevisedSoFar(c, D, x, cur, j + 1, V', more', queue, q', cons))
  {
    assert cur[..j + 1] == cur[..j] + [cur[j]];
    var m := more + [(x, cur[j])];
    PrunedOfAppend(more, [(x, cur[j])], x);
    PrunedOfOne(x, cur[j], x);
    forall i | 0 <= i < |more| ensures more[i].1 != cur[j] {
      assert more[i].1 in cur[..j];
    }
    assert cur[j] in V;
    if pr {
      forall i | 0 <= i < |m|
        ensures m[i].0 == x && m[i].1 in cur[..j + 1] && !SupportedIn(c, D, x, m[i].1)
      {
        if i < |more| { assert m[i] == more[i]; }
      }
      forall i, k | 0 <= i < k < |m| ensures m[i] != m[k] {
        if k == |more| { assert m[i] == more[i]; assert m[i].1 in PrunedOf(more, x); }
        else { assert m[i] == more[i] && m[k] == more[k]; }
      }
    }
  }

  /** A state that has seen the whole snapshot: every value left has a
      support, and every prune is from the snapshot. */
  lemma RevisedAll(c: Constraint, D: DomainMap, x: Variable, cur: seq<int>, j: int,
                   V: set<int>, more: seq<(Variable, int)>,
                   queue: seq<Constraint>, q: seq<Constraint>, cons: seq<Constraint>)
    requires RevisedSoFar(c, D, x, cur, |cur|, V, more, queue, q, cons)
    ensures forall val :: val in V ==> SupportedIn(c, D, x, val)
    ensures PrunedUnsupported(c, D, x, more, cur)
  {
    assert cur[..|cur|] == cur;
    forall val | val in V ensures SupportedIn(c, D, x, val) {
      var j' :| 0 <= j' < |cur| && cur[j'] == val;
    }
  }

  /** A prefix of the snapshot is part of it. */
  lemma PrunedUnsupportedPrefix(c: Constraint, D: DomainMap, x: Variable,
                                more: seq<(Variable, int)>, cur: seq<int>, k: int)
    requires 0 <= k <= |cur| && PrunedUnsupported(c, D, x, more, cur[..k])
    ensures PrunedUnsupported(c, D, x, more, cur)
  {
    forall i | 0 <= i < |more| ensures more[i].1 in cur {
      assert more[i].1 in cur[..k];
    }
  }

  /** Revises `x` against `c`: every value of a snapshot of `x`'s domain
      without a support in `c` is pruned; a wipe-out ends the revision,
      otherwise each prune queues the constraints on `x`. */
  method ReviseVar(csp: Network, c: Constraint, x: Variable, queue: seq<Constraint>, ghost D: DomainMap)
    returns (q: seq<Constraint>, more: seq<(Variable, int)>, wiped: bool)
    requires OthersAsIn(c, x, D) && x.dom.Valid() && x in D && D[x] == x.dom.Values()
    requires Distinct(queue) && forall c' :: c' in queue ==> c' in csp.cons
    modifies x.dom
    ensures x.dom.Valid()
    ensures PrunedUnsupported(c, D, x, more, old(x.dom.current))
    ensures x.dom.Values() == D[x] - PrunedOf(more, x)
    ensures !wiped ==> Queued(queue, q, csp.cons, x, more != [])
    ensures more == [] ==> !wiped
    ensures wiped ==> x.dom.current == []
    ensures !wiped && more != [] ==> x.dom.current != []
    ensures !wiped ==> forall val :: val in x.dom.Values() ==> SupportedIn(c, D, x, val)
  {
    var cur := x.dom.current;
    q := queue;
    more := [];
    wiped := false;
    for j := 0 to |cur|
      invariant OthersAsIn(c, x, D) && x.dom.Valid()
      invariant RevisedSoFar(c, D, x, cur, j, x.dom.Values(), more, queue, q, csp.cons)
      invariant more != [] ==> x.dom.current != []
    {
      var val := cur[j];
      ghost var V := x.dom.Values();
      var q', pr, w := GacTry(csp, c, x, val, q, D);
      RevisedSoFarStep(c, D, x, cur, j, V, x.dom.Values(), more, queue, q, q', csp.cons, pr, w);
      if pr {
        more := more + [(x, val)];
      }
      if w {
        wiped := true;
        PrunedUnsupportedPrefix(c, D, x, more, cur, j + 1);
        return;
      }
      q := q';
    }
    RevisedAll(c, D, x, cur, |cur|, x.dom.Values(), more, queue, q, csp.cons);
  }

  /** Every variable `pruned` records still has a value under `D`. */
  ghost predicate NoneEmptied(D: DomainMap, pruned: seq<(Variable, int)>) {
    forall k :: 0 <= k < |pruned| ==> pruned[k].0 in D && D[pruned[k].0] != {}
  }

  /** Prunes of one variable that leave it a value. */
  lemma NoneEmptiedOne(E: DomainMap, x: Variable, more: seq<(Variable, int)>)
    requires x in E && forall k :: 0 <= k < |more| ==> more[k].0 == x
    requires more != [] ==> E[x] != {}
    ensures NoneEmptied(E, more)
  {
  }

  /** A further record `more` from `D` to `E` that empties nothing keeps the
      variables recorded before non-empty too: those it does not mention
      keep their domain. */
  lemma NoneEmptiedStep(D: DomainMap, E: DomainMap, p: seq<(Variable, int)>, more: seq<(Variable, int)>)
    requires NoneEmptied(D, p) && NoneEmptied(E, more) && Records(D, E, more)
    ensures NoneEmptied(E, p + more)
  {
    var pm := p + more;
    forall k | 0 <= k < |pm| ensures pm[k].0 in E && E[pm[k].0] != {} {
      if k < |p| {
        var v := p[k].0;
        assert pm[k] == p[k];
        if exists i :: 0 <= i < |more| && more[i].0 == v {
          var i :| 0 <= i < |more| && more[i].0 == v;
        } else {
          assert PrunedOf(more, v) == {};
        }
      } else {
        assert pm[k] == more[k - |p|];
      }
    }
  }

  /** `q` is `queue` with constraints of `cons` appended, no duplicates, and
      holds every constraint of `cons` on a variable `pruned` records. */
  ghost predicate QueuedFor(queue: seq<Constraint>, q: seq<Constraint>, cons: seq<Constraint>,
                            pruned: seq<(Variable, int)>) {
    && Distinct(q) && queue <= q && (forall c' :: c' in q ==> c' in cons)
    && (pruned == [] ==> q == queue)
    && (forall c', k :: c' in cons && 0 <= k < |pruned| && pruned[k].0 in c'.scope ==> c' in q)
  }

  /** The state of revising `c` after its first `i` scope positions, from
      the domains `D0` to `D`: the prunes are recorded, are of scope
      variables and are followed by the constraints on the
      pruned variables; while nothing is pruned, the revised positions are
      arc consistent. */
  ghost predicate ReviseSoFar(c: Constraint, cons: seq<Constraint>, D0: DomainMap, D: DomainMap, i: int,
                              queue: seq<Constraint>, q: seq<Constraint>, pruned: seq<(Variable, int)>) {
    && 0 <= i <= |c.scope|
    && Records(D0, D, pruned)
    && (forall k :: 0 <= k < |pruned| ==> pruned[k].0 in c.scope)
    && QueuedFor(queue, q, cons, pruned)
    && (pruned == [] ==> forall k, val :: 0 <= k < i && c.scope[k] in D && val in D[c.scope[k]] ==>
          SupportedIn(c, D, c.scope[k], val))
  }

  /** Revising the next scope variable extends the state by one position. */
  lemma ReviseSoFarStep(vs: seq<Variable>, c: Constraint, cons: seq<Constraint>, D0: DomainMap, D: DomainMap, i: int,
                        queue: seq<Constraint>, q: seq<Constraint>, pruned: seq<(Variable, int)>,
                        cur: seq<int>, more: seq<(Variable, int)>, q': seq<Constraint>, wiped: bool)
    requires ReviseSoFar(c, cons, D0, D, i, queue, q, pruned) && i < |c.scope| && c in cons
    requires forall v :: v in c.scope ==> v in D
    requires forall S :: IsSolution(vs, cons, D0, S) ==> IsSolution(vs, cons, D, S)
    requires PrunedUnsupported(c, D, c.scope[i], more, cur) && D[c.scope[i]] == Elements(cur)
    requires !wiped ==> Queued(q, q', cons, c.scope[i], more != [])
    requires !wiped ==> forall val :: val in D[c.scope[i]] - PrunedOf(more, c.scope[i]) ==>
      SupportedIn(c, D, c.scope[i], val)
    ensures var E := D[c.scope[i] := D[c.scope[i]] - PrunedOf(more, c.scope[i])];
      && Records(D, E, more) && Records(D0, E, pruned + more)
      && (forall S :: IsSolution(vs, cons, D0, S) ==> IsSolution(vs, cons, E, S))
      && (!wiped ==> ReviseSoFar(c, cons, D0, E, i + 1, queue, q', pruned + more))
  {
    var x := c.scope[i];
    var E := D[x := D[x] - PrunedOf(more, x)];
    forall k | 0 <= k < |more| ensures more[k].1 in D[x] { assert more[k].1 in cur; }
    RecordsOneVariable(D, x, more);
    RecordsCompose(D0, D, E, pruned, more);
    forall S | IsSolution(vs, cons, D0, S) ensures IsSolution(vs, cons, E, S) {
      SolutionKept(vs, cons, D, S, c, x, more);
    }
    var p := pruned + more;
    forall k | 0 <= k < |p| ensures p[k].0 in c.scope {
      if k < |pruned| { assert p[k] == pruned[k]; } else { assert p[k] == more[k - |pruned|]; }
    }
    if !wiped {
      forall c', k | c' in cons && 0 <= k < |p| && p[k].0 in c'.scope ensures c' in q' {
        if k < |pruned| { assert p[k] == pruned[k]; } else { assert p[k] == more[k - |pruned|]; }
      }
      if p == [] {
        assert PrunedOf(more, x) == {};
        assert E == D;
      }
    }
  }

  /** Revises every scope variable of `c` in turn, appending to `queue`, as
      in one round of the propagation loop. */
  method Revise(csp: Network, c: Constraint, queue: seq<Constraint>)
    returns (q: seq<Constraint>, pruned: seq<(Variable, int)>, wiped: bool)
    requires csp.Valid() && c in csp.cons
    requires Distinct(queue) && forall c' :: c' in queue ==> c' in csp.cons
    modifies csp.Domains()
    ensures csp.Valid()
    ensures Records(old(csp.DomMap()), csp.DomMap(), pruned)
    ensures forall k :: 0 <= k < |pruned| ==> pruned[k].0 in c.scope
    ensures forall S :: IsSolution(csp.vars, csp.cons, old(csp.DomMap()), S) ==> IsSolution(csp.vars, csp.cons, csp.DomMap(), S)
    ensures wiped ==> exists v :: v in csp.vars && csp.DomMap()[v] == {}
    ensures !wiped ==> NoneEmptied(csp.DomMap(), pruned)
    ensures !wiped ==> QueuedFor(queue, q, csp.cons, pruned)
    ensures !wiped && pruned == [] ==> GacIn(c, csp.DomMap())
  {
    q, pruned, wiped := ReviseScope(csp, c, queue, csp.DomMap());
  }

  /** The loop of `Revise` over the scope of `c`, from the domains `D0`. */
  method ReviseScope(csp: Network, c: Constraint, queue: seq<Constraint>, ghost D0: DomainMap)
    returns (q: seq<Constraint>, pruned: seq<(Variable, int)>, wiped: bool)
    requires csp.Valid() && c in csp.cons && csp.DomMap() == D0
    requires Distinct(queue) && forall c' :: c' in queue ==> c' in csp.cons
    modifies csp.Domains()
    ensures csp.Valid()
    ensures Records(D0, csp.DomMap(), pruned)
    ensures forall k :: 0 <= k < |pruned| ==> pruned[k].0 in c.scope
    ensures forall S :: IsSolution(csp.vars, csp.cons, D0, S) ==> IsSolution(csp.vars, csp.cons, csp.DomMap(), S)
    ensures wiped ==> exists v :: v in csp.vars && csp.DomMap()[v] == {}
    ensures !wiped ==> NoneEmptied(csp.DomMap(), pruned)
    ensures !wiped ==> QueuedFor(queue, q, csp.cons, pruned)
    ensures !wiped && pruned == [] ==> GacIn(c, csp.DomMap())
  {
    ghost var D := D0;
    q := queue;
    pruned := [];
    wiped := false;
    RecordsNothing(D0);
    for i := 0 to |c.scope|
      invariant csp.Valid() && D == csp.DomMap()
      invariant ReviseSoFar(c, csp.cons, D0, D, i, queue, q, pruned)
      invariant forall S :: IsSolution(csp.vars, csp.cons, D0, S) ==> IsSolution(csp.vars, csp.cons, D, S)
      invariant NoneEmptied(D, pruned)
    {
      var q', more, w := ReviseAt(csp, c, i, q, D0, queue, pruned);
      D := csp.DomMap();
      pruned := pruned + more;
      if w {
        wiped := true;
        return;
      }
      q := q';
    }
  }

  /** One step of `Revise`: the revision of scope position `i`. */
  method ReviseAt(csp: Network, c: Constraint, i: int, q: seq<Constraint>,
                  ghost D0: DomainMap, ghost queue: seq<Constraint>, ghost pruned: seq<(Variable, int)>)
    returns (q': seq<Constraint>, more: seq<(Variable, int)>, w: bool)
    requires csp.Valid() && c in csp.cons && 0 <= i < |c.scope|
    requires Distinct(q) && forall c' :: c' in q ==> c' in csp.cons
    requires ReviseSoFar(c, csp.cons, D0, csp.DomMap(), i, queue, q, pruned)
    requires forall S :: IsSolution(csp.vars, csp.cons, D0, S) ==> IsSolution(csp.vars, csp.cons, csp.DomMap(), S)
    requires NoneEmptied(csp.DomMap(), pruned)
    modifies csp.Domains()
    ensures csp.Valid()
    ensures Records(D0, csp.DomMap(), pruned + more)
    ensures forall k :: 0 <= k < |more| ==> more[k].0 == c.scope[i]
    ensures forall S :: IsSolution(csp.vars, csp.cons, D0, S) ==> IsSolution(csp.vars, csp.cons, csp.DomMap(), S)
    ensures w ==> c.scope[i] in csp.vars && csp.DomMap()[c.scope[i]] == {}
    ensures !w ==> ReviseSoFar(c, csp.cons, D0, csp.DomMap(), i + 1, queue, q', pruned + more)
    ensures !w ==> NoneEmptied(csp.DomMap(), pruned + more)
    ensures !w ==> Distinct(q') && forall c' :: c' in q' ==> c' in csp.cons
  {
    ghost var D := csp.DomMap();
    var x := c.scope[i];
    assert x in csp.vars;
    ghost var cur := x.dom.current;
    q', more, w := ReviseVar(csp, c, x, q, D);
    ReviseSoFarStep(csp.vars, c, csp.cons, D0, D, i, queue, q, pruned, cur, more, q', w);
    DomMapAfter(csp, D, x);
    ghost var E := csp.DomMap();
    ElementsEmpty(x.dom.current);
    if !w {
      NoneEmptiedOne(E, x, more);
      NoneEmptiedStep(D, E, pruned, more);
    }
  }

  /** Every constraint of `cons` is waiting in `queue`, is arc consistent
      under `D`, or was not scheduled and has the domains `D0` on its scope. */
  ghost predicate GacTracked(cons: seq<Constraint>, seeds: seq<Constraint>, queue: seq<Constraint>,
                             D0: DomainMap, D: DomainMap) {
    forall c' :: c' in cons ==> c' in queue || GacIn(c', D) || (c' !in seeds && SameOnScope(c', D0, D))
  }

  /** The initialisation for the variable bound last loses no solution that
      gives it its bound value, and leaves the constraints not on it alone. */
  lemma InitialPrunesKeep(vs: seq<Variable>, cons: seq<Constraint>, D0: DomainMap, D1: DomainMap,
                          nv: Variable, cur: seq<int>, b: Option<int>)
    requires Records(D0, D1, InitialPrunes(nv, cur, b))
    ensures forall S :: IsSolution(vs, cons, D0, S) && ValueOf(vs, S, nv) in BoundSet(b) ==>
      IsSolution(vs, cons, D1, S)
    ensures forall c': Constraint :: nv !in c'.scope ==> SameOnScope(c', D0, D1)
  {
    var p := InitialPrunes(nv, cur, b);
    forall v | v in D0 && v != nv ensures PrunedOf(p, v) == {} { }
    forall S | IsSolution(vs, cons, D0, S) && ValueOf(vs, S, nv) in BoundSet(b)
      ensures IsSolution(vs, cons, D1, S)
    {
      forall v | v in vs ensures ValueOf(vs, S, v) in D1[v] {
        if v == nv {
          assert ValueOf(vs, S, v) !in PrunedOf(p, nv);
        }
      }
    }
  }

  /** One round of the propagation loop keeps every constraint tracked. */
  lemma GacTrackedStep(cons: seq<Constraint>, seeds: seq<Constraint>, queue: seq<Constraint>,
                       D0: DomainMap, D: DomainMap, E: DomainMap, q: seq<Constraint>,
                       more: seq<(Variable, int)>)
    requires GacTracked(cons, seeds, queue, D0, D) && queue != [] && queue[0] in cons
    requires D0.Keys == D.Keys
    requires Records(D, E, more) && QueuedFor(queue[1..], q, cons, more)
    requires forall k :: 0 <= k < |more| ==> more[k].0 in queue[0].scope
    requires more == [] ==> GacIn(queue[0], E)
    ensures GacTracked(cons, seeds, q, D0, E)
  {
    assert forall c' :: c' in queue ==> c' == queue[0] || c' in queue[1..];
    if more != [] {
      assert more[0].0 in queue[0].scope;
    }
    forall c' | c' in cons && c' !in q && GacIn(c', D)
      ensures GacIn(c', E)
    {
      forall v | v in c'.scope && v in D ensures E[v] == D[v] {
        forall k | 0 <= k < |more| ensures more[k].0 != v {
          assert more[k].0 in c'.scope ==> c' in q;
        }
        assert PrunedOf(more, v) == {};
      }
      GacScope(c', D, E);
    }
    forall c' | c' in cons && c' !in q && SameOnScope(c', D0, D)
      ensures SameOnScope(c', D0, E)
    {
      forall v | v in c'.scope && v in D ensures E[v] == D[v] {
        forall k | 0 <= k < |more| ensures more[k].0 != v {
          assert more[k].0 in c'.scope ==> c' in q;
        }
        assert PrunedOf(more, v) == {};
      }
    }
  }

  /** The bound value `b` of the variable bound last, if any, is the one
      value the solution `S` of `vs` gives it. */
  ghost predicate KeepsBinding(vs: seq<Variable>, S: seq<int>, nv: Option<Variable>, b: Option<int>) {
    nv.Some? ==> ValueOf(vs, S, nv.value) in BoundSet(b)
  }

  /** The state of the propagation loop, from the domains `D0` to `D`: the
      prunes are recorded, lose no solution that keeps the binding `b` of the
      variable bound last, leave that variable no other value, and every
      constraint is tracked. */
  ghost predicate GacSoFar(vs: seq<Variable>, cons: seq<Constraint>, seeds: seq<Constraint>,
                           queue: seq<Constraint>, D0: DomainMap, D: DomainMap,
                           pruned: seq<(Variable, int)>, nv: Option<Variable>, b: Option<int>) {
    && Distinct(queue) && (forall c' :: c' in queue ==> c' in cons)
    && D.Keys == Elements(vs) && Records(D0, D, pruned)
    && (forall S :: IsSolution(vs, cons, D0, S) && KeepsBinding(vs, S, nv, b) ==> IsSolution(vs, cons, D, S))
    && (nv.Some? ==> nv.value in D && D[nv.value] <= BoundSet(b))
    && GacTracked(cons, seeds, queue, D0, D)
  }

  /** One round of the propagation loop: revising the head of the queue
      from `D` to `E` keeps the state, and either the domains shrink or the
      queue does. */
  lemma GacSoFarStep(vs: seq<Variable>, cons: seq<Constraint>, seeds: seq<Constraint>,
                     queue: seq<Constraint>, D0: DomainMap, D: DomainMap,
                     pruned: seq<(Variable, int)>, nv: Option<Variable>, b: Option<int>,
                     E: DomainMap, q: seq<Constraint>, more: seq<(Variable, int)>, wiped: bool)
    requires GacSoFar(vs, cons, seeds, queue, D0, D, pruned, nv, b) && queue != []
    requires Records(D, E, more) && forall k :: 0 <= k < |more| ==> more[k].0 in queue[0].scope
    requires forall S :: IsSolution(vs, cons, D, S) ==> IsSolution(vs, cons, E, S)
    requires !wiped ==> QueuedFor(queue[1..], q, cons, more)
    requires !wiped && more == [] ==> GacIn(queue[0], E)
    ensures Records(D0, E, pruned + more)
    ensures forall S :: IsSolution(vs, cons, D0, S) && KeepsBinding(vs, S, nv, b) ==> IsSolution(vs, cons, E, S)
    ensures !wiped ==> GacSoFar(vs, cons, seeds, q, D0, E, pruned + more, nv, b)
    ensures !wiped ==> TotalSize(E, vs) < TotalSize(D, vs) || (TotalSize(E, vs) == TotalSize(D, vs) && |q| < |queue|)
  {
    RecordsCompose(D0, D, E, pruned, more);
    if !wiped {
      GacTrackedStep(cons, seeds, queue, D0, D, E, q, more);
      if more == [] {
        RecordsNothingChanged(D, E);
      } else {
        RecordedLoss(D, E, more);
        RecordsShrinks(D, E, more);
        TotalSizeDecreases(E, D, vs, more[0].0);
      }
    }
  }

  /** A propagation loop that emptied its queue leaves every constraint arc
      consistent, or unscheduled and untouched. */
  lemma GacSoFarDone(vs: seq<Variable>, cons: seq<Constraint>, seeds: seq<Constraint>,
                     D0: DomainMap, D: DomainMap, pruned: seq<(Variable, int)>, nv: Option<Variable>, b: Option<int>)
    requires GacSoFar(vs, cons, seeds, [], D0, D, pruned, nv, b)
    ensures forall c :: c in cons ==> GacIn(c, D) || (c !in seeds && SameOnScope(c, D0, D))
  {
  }

  /** The solutions the propagation loop keeps, stated for the binding the
      variable bound last has. */
  lemma BindingKept(vs: seq<Variable>, cons: seq<Constraint>, D0: DomainMap, D: DomainMap,
                    nv: Option<Variable>, b: Option<int>)
    requires nv.Some? ==> b == nv.value.binding
    requires forall S :: IsSolution(vs, cons, D0, S) && KeepsBinding(vs, S, nv, b) ==> IsSolution(vs, cons, D, S)
    ensures forall S ::
      (IsSolution(vs, cons, D0, S) && (nv.Some? ==> ValueOf(vs, S, nv.value) in BoundSet(nv.value.binding))) ==>
      IsSolution(vs, cons, D, S)
  {
  }

  /** The pairs the start of the GAC propagator prunes, given the domain
      snapshot `cur` of the variable bound last. */
  function StartPrunes(newVar: Option<Variable>, cur: seq<int>): seq<(Variable, int)>
    reads if newVar.Some? then {newVar.value} else {}
  {
    if newVar.Some? then InitialPrunes(newVar.value, cur, newVar.value.binding) else []
  }

  /** The start of the GAC propagator: all constraints are queued before any
      binding; else the constraints on the variable bound last are, and every
      other value of that variable is pruned. */
  method GacStart(csp: Network, newVar: Option<Variable>) returns (queue: seq<Constraint>, pruned: seq<(Variable, int)>)
    requires csp.Valid() && (newVar.Some? ==> newVar.value in csp.vars)
    modifies csp.Domains()
    ensures csp.Valid() && queue == Scheduled(csp, newVar)
    ensures pruned == StartPrunes(newVar, if newVar.Some? then old(newVar.value.dom.current) else [])
    ensures GacSoFar(csp.vars, csp.cons, queue, queue, old(csp.DomMap()), csp.DomMap(), pruned, newVar,
                     if newVar.Some? then newVar.value.binding else None)
  {
    ghost var D0 := csp.DomMap();
    if newVar.None? {
      queue := csp.cons;
      pruned := [];
      RecordsNothing(D0);
    } else {
      var nv := newVar.value;
      queue := csp.ConsWithVar(nv);
      ghost var cur := nv.dom.current;
      pruned := PruneToBinding(csp, nv);
      InitialPrunesKeep(csp.vars, csp.cons, D0, csp.DomMap(), nv, cur, nv.binding);
    }
  }

  /** Appending to a list keeps its prefix and extends its tail. */
  lemma PrefixAppend<T>(start: seq<T>, p: seq<T>, more: seq<T>)
    requires |start| <= |p| && p[..|start|] == start
    ensures (p + more)[..|start|] == start && (p + more)[|start|..] == p[|start|..] + more
  {
  }

  /** Once a domain is empty, no solution the propagator had to keep
      existed: every solution it started from contradicts the binding of the
      variable bound last. */
  lemma DeadEnd(vs: seq<Variable>, cons: seq<Constraint>, D0: DomainMap, E: DomainMap, nv: Option<Variable>)
    requires exists v :: v in vs && v in E && E[v] == {}
    requires forall S ::
      (IsSolution(vs, cons, D0, S) && (nv.Some? ==> ValueOf(vs, S, nv.value) in BoundSet(nv.value.binding))) ==>
      IsSolution(vs, cons, E, S)
    ensures forall S :: IsSolution(vs, cons, D0, S) ==>
      nv.Some? && ValueOf(vs, S, nv.value) !in BoundSet(nv.value.binding)
  {
    var v :| v in vs && v in E && E[v] == {};
    EmptyNoSolution(vs, cons, E, v);
  }

  /** One round of the propagation loop: revise the head of the queue. The
      state is kept unless a domain was wiped out, and either the domains
      shrink or the queue does. */
  method GacRound(csp: Network, ghost seeds: seq<Constraint>, queue: seq<Constraint>, ghost D0: DomainMap,
                  ghost pruned: seq<(Variable, int)>, ghost start: seq<(Variable, int)>,
                  ghost nv: Option<Variable>, ghost b: Option<int>)
    returns (q: seq<Constraint>, more: seq<(Variable, int)>, wiped: bool)
    requires csp.Valid() && queue != []
    requires GacSoFar(csp.vars, csp.cons, seeds, queue, D0, csp.DomMap(), pruned, nv, b)
    requires |start| <= |pruned| && pruned[..|start|] == start && NoneEmptied(csp.DomMap(), pruned[|start|..])
    modifies csp.Domains()
    ensures csp.Valid()
    ensures forall S :: IsSolution(csp.vars, csp.cons, D0, S) && KeepsBinding(csp.vars, S, nv, b) ==>
      IsSolution(csp.vars, csp.cons, csp.DomMap(), S)
    ensures (pruned + more)[..|start|] == start
    ensures Records(D0, csp.DomMap(), pruned + more)
    ensures wiped ==> exists v :: v in csp.vars && v in csp.DomMap() && csp.DomMap()[v] == {}
    ensures !wiped ==> GacSoFar(csp.vars, csp.cons, seeds, q, D0, csp.DomMap(), pruned + more, nv, b)
    ensures !wiped ==> NoneEmptied(csp.DomMap(), (pruned + more)[|start|..])
    ensures !wiped ==> (TotalSize(csp.DomMap(), csp.vars) < TotalSize(old(csp.DomMap()), csp.vars) ||
      (TotalSize(csp.DomMap(), csp.vars) == TotalSize(old(csp.DomMap()), csp.vars) && |q| < |queue|))
  {
    ghost var D := csp.DomMap();
    var c := queue[0];
    q, more, wiped := Revise(csp, c, queue[1..]);
    ghost var E := csp.DomMap();
    GacSoFarStep(csp.vars, csp.cons, seeds, queue, D0, D, pruned, nv, b, E, q, more, wiped);
    PrefixAppend(start, pruned, more);
    if !wiped {
      NoneEmptiedStep(D, E, pruned[|start|..], more);
    }
  }

  /** The propagation loop of the GAC propagator, from the state its start
      left: revise the head of the queue until the queue is empty or a domain
      is wiped out. */
  method GacLoop(csp: Network, queue0: seq<Constraint>, pruned0: seq<(Variable, int)>,
                 ghost seeds: seq<Constraint>, ghost D0: DomainMap, ghost nv: Option<Variable>, ghost b: Option<int>)
    returns (ok: bool, pruned: seq<(Variable, int)>)
    requires csp.Valid()
    requires GacSoFar(csp.vars, csp.cons, seeds, queue0, D0, csp.DomMap(), pruned0, nv, b)
    modifies csp.Domains()
    ensures csp.Valid()
    ensures Records(D0, csp.DomMap(), pruned)
    ensures forall S :: IsSolution(csp.vars, csp.cons, D0, S) && KeepsBinding(csp.vars, S, nv, b) ==>
      IsSolution(csp.vars, csp.cons, csp.DomMap(), S)
    ensures |pruned0| <= |pruned| && pruned[..|pruned0|] == pruned0
    ensures !ok ==> exists v :: v in csp.vars && v in csp.DomMap() && csp.DomMap()[v] == {}
    ensures ok ==> NoneEmptied(csp.DomMap(), pruned[|pruned0|..])
    ensures ok ==> GacSoFar(csp.vars, csp.cons, seeds, [], D0, csp.DomMap(), pruned, nv, b)
  {
    var queue := queue0;
    pruned := pruned0;
    ghost var D := csp.DomMap();
    while queue != []
      invariant csp.Valid() && D == csp.DomMap()
      invariant GacSoFar(csp.vars, csp.cons, seeds, queue, D0, D, pruned, nv, b)
      invariant |pruned0| <= |pruned| && pruned[..|pruned0|] == pruned0 && NoneEmptied(D, pruned[|pruned0|..])
      decreases TotalSize(D, csp.vars), |queue|
    {
      var q, more, wiped := GacRound(csp, seeds, queue, D0, pruned, pruned0, nv, b);
      pruned := pruned + more;
      if wiped {
        return false, pruned;
      }
      queue := q;
      D := csp.DomMap();
    }
    ok := true;
  }

  /** Generalized arc consistency: revise the scheduled constraints against
      every scope variable, requeueing the constraints on each pruned
      variable, until the queue is empty or a domain is wiped out. */
  method PropGAC(csp: Network, newVar: Option<Variable>) returns (ok: bool, pruned: seq<(Variable, int)>)
    requires csp.Valid() && (newVar.Some? ==> newVar.value in csp.vars)
    modifies csp.Domains()
    ensures csp.Valid()
    ensures Records(old(csp.DomMap()), csp.DomMap(), pruned)
    ensures forall S ::
      (IsSolution(csp.vars, csp.cons, old(csp.DomMap()), S) &&
       (newVar.Some? ==> ValueOf(csp.vars, S, newVar.value) in BoundSet(newVar.value.binding))) ==>
      IsSolution(csp.vars, csp.cons, csp.DomMap(), S)
    ensures newVar.Some? ==> csp.DomMap()[newVar.value] <= BoundSet(newVar.value.binding)
    ensures !ok ==> exists v :: v in csp.vars && csp.DomMap()[v] == {}
    ensures !ok ==> forall S :: IsSolution(csp.vars, csp.cons, old(csp.DomMap()), S) ==>
      newVar.Some? && ValueOf(csp.vars, S, newVar.value) !in BoundSet(newVar.value.binding)
    ensures var start := StartPrunes(newVar, if newVar.Some? then old(newVar.value.dom.current) else []);
      && |start| <= |pruned| && pruned[..|start|] == start
      && (ok ==> NoneEmptied(csp.DomMap(), pruned[|start|..]))
    ensures ok ==> forall c :: c in csp.cons ==>
      GacIn(c, csp.DomMap()) || (c !in Scheduled(csp, newVar) && SameOnScope(c, old(csp.DomMap()), csp.DomMap()))
  {
    ok, pruned := GacRun(csp, newVar, csp.DomMap(), if newVar.Some? then newVar.value.dom.current else []);
  }

  /** `PropGAC` from the domains `D0`, the new variable's current domain
      being `cur0`. */
  method GacRun(csp: Network, newVar: Option<Variable>, ghost D0: DomainMap, ghost cur0: seq<int>)
    returns (ok: bool, pruned: seq<(Variable, int)>)
    requires csp.Valid() && (newVar.Some? ==> newVar.value in csp.vars)
    requires D0 == csp.DomMap() && cur0 == if newVar.Some? then newVar.value.dom.current else []
    modifies csp.Domains()
    ensures csp.Valid()
    ensures Records(D0, csp.DomMap(), pruned)
    ensures forall S ::
      (IsSolution(csp.vars, csp.cons, D0, S) &&
       (newVar.Some? ==> ValueOf(csp.vars, S, newVar.value) in BoundSet(newVar.value.binding))) ==>
      IsSolution(csp.vars, csp.cons, csp.DomMap(), S)
    ensures newVar.Some? ==> csp.DomMap()[newVar.value] <= BoundSet(newVar.value.binding)
    ensures !ok ==> exists v :: v in csp.vars && csp.DomMap()[v] == {}
    ensures !ok ==> forall S :: IsSolution(csp.vars, csp.cons, D0, S) ==>
      newVar.Some? && ValueOf(csp.vars, S, newVar.value) !in BoundSet(newVar.value.binding)
    ensures var start := StartPrunes(newVar, cur0);
      && |start| <= |pruned| && pruned[..|start|] == start
      && (ok ==> NoneEmptied(csp.DomMap(), pruned[|start|..]))
    ensures ok ==> forall c :: c in csp.cons ==>
      GacIn(c, csp.DomMap()) || (c !in Scheduled(csp, newVar) && SameOnScope(c, D0, csp.DomMap()))
  {
    ghost var b := if newVar.Some? then newVar.value.binding else None;
    var queue, start := GacStart(csp, newVar);
    ok, pruned := GacLoop(csp, queue, start, queue, D0, newVar, b);
    BindingKept(csp.vars, csp.cons, D0, csp.DomMap(), newVar, b);
    if ok {
      GacSoFarDone(csp.vars, csp.cons, queue, D0, csp.DomMap(), pruned, newVar, b);
    } else {
      DeadEnd(csp.vars, csp.cons, D0, csp.DomMap(), newVar);
    }
  }

  // ---------------------------------------------------------------------
  // Support search
  // ---------------------------------------------------------------------

  /** The number of times `x` stands in `s`. */
  function Occurrences(x: Variable, s: seq<Variable>): (n: nat)
    ensures n <= |s|
  {
    if s == [] then 0 else (if s[0] == x then 1 else 0) + Occurrences(x, s[1..])
  }

  /** Position `p` of a candidate tuple holds `w`: `val` where `x` stands,
      else a value of that variable's current domain. */
  ghost predicate PositionOk(v: Variable, x: Variable, val: int, w: int)
    reads v.dom
  {
    if v == x then w == val else w in v.dom.current
  }

  /** `t` extends the partial tuple `ass` (positions `0..num`) over positions
      `num..l` of `variables` and satisfies `c`. */
  ghost predicate Completes(c: Constraint, x: Variable, val: int, variables: seq<Variable>,
                            ass: seq<int>, num: nat, l: nat, t: seq<int>)
    reads set v | v in variables :: v.dom
  {
    && num <= l <= |variables| && |ass| == num && |t| == l
    && t[..num] == ass && c.Check(t)
    && forall p :: num <= p < l ==> PositionOk(variables[p], x, val, t[p])
  }

  /** Peeling one position off the front of the range. */
  lemma CompletesStep(c: Constraint, x: Variable, val: int, variables: seq<Variable>,
                      ass: seq<int>, num: nat, l: nat, t: seq<int>)
    requires num < l <= |variables| && |ass| == num && |t| == l
    ensures Completes(c, x, val, variables, ass, num, l, t) <==>
      PositionOk(variables[num], x, val, t[num]) &&
      Completes(c, x, val, variables, ass + [t[num]], num + 1, l, t)
  {
    if t[..num] == ass {
      assert t[..num + 1] == ass + [t[num]];
    }
    if t[..num + 1] == ass + [t[num]] {
      assert t[..num] == t[..num + 1][..num];
    }
  }

  /** After a successful search from `num + 1`, the pop for the position
      `num` of `x` leaves the prefix the search from `num` promises. */
  lemma PopAfterBound(t: seq<int>, variables: seq<Variable>, x: Variable, num: nat, l: nat, a: seq<int>)
    requires num < l <= |variables| && |t| == l && variables[num] == x
    requires a == t[..l - Occurrences(x, variables[num + 1..l])]
    ensures |a| >= 1 && a[..|a| - 1] == t[..l - Occurrences(x, variables[num..l])]
  {
    assert variables[num..l][1..] == variables[num + 1..l];
  }

  /** Whether `ass` extends over positions `num..l` to a satisfying tuple with
      `val` wherever `x` stands and current-domain values elsewhere. Every
      position of `x` pops the last entry on the way back, so on success the
      list holds a prefix of the completed tuple, one entry shorter per
      position of `x`; on failure it is as on entry. */
  method FindAssignments(ass: seq<int>, x: Variable, val: int, variables: seq<Variable>,
                         c: Constraint, num: nat, l: nat)
    returns (res: bool, after: seq<int>)
    requires num <= l <= |variables| && |ass| == num
    requires forall p :: num <= p < l && variables[p] != x ==> variables[p].dom.current != []
    ensures res <==> exists t :: Completes(c, x, val, variables, ass, num, l, t)
    ensures !res ==> after == ass
    ensures res ==> exists t :: (Completes(c, x, val, variables, ass, num, l, t) &&
      after == t[..l - Occurrences(x, variables[num..l])])
    decreases l - num, 1
  {
    if l == num {
      res := c.Check(ass);
      after := ass;
      assert variables[num..l] == [];
      if res {
        assert Completes(c, x, val, variables, ass, num, l, ass);
      }
      forall t | Completes(c, x, val, variables, ass, num, l, t) ensures t == ass {
        assert t[..num] == t;
      }
      return;
    }
    if variables[num] == x {
      res, after := TryBound(ass, x, val, variables, c, num, l);
    } else {
      res, after := TryDomain(ass, x, val, variables, c, num, l);
    }
  }

  /** The step of the support search at a position of `x` itself: extends
      the list with `val`, searches on and pops the entry on the way back. */
  method TryBound(ass: seq<int>, x: Variable, val: int, variables: seq<Variable>,
                  c: Constraint, num: nat, l: nat)
    returns (res: bool, after: seq<int>)
    requires num < l <= |variables| && |ass| == num && variables[num] == x
    requires forall p :: num <= p < l && variables[p] != x ==> variables[p].dom.current != []
    ensures res <==> exists t :: Completes(c, x, val, variables, ass, num, l, t)
    ensures !res ==> after == ass
    ensures res ==> exists t :: (Completes(c, x, val, variables, ass, num, l, t) &&
      after == t[..l - Occurrences(x, variables[num..l])])
    decreases l - num, 0
  {
    assert variables[num..l][1..] == variables[num + 1..l];
    var a := ass + [val];
    res, a := FindAssignments(a, x, val, variables, c, num + 1, l);
    forall t | |t| == l
      ensures Completes(c, x, val, variables, ass, num, l, t) <==>
        t[num] == val && Completes(c, x, val, variables, ass + [val], num + 1, l, t)
    {
      CompletesStep(c, x, val, variables, ass, num, l, t);
    }
    if res {
      ghost var t :| Completes(c, x, val, variables, ass + [val], num + 1, l, t) &&
        a == t[..l - Occurrences(x, variables[num + 1..l])];
      assert t[num] == t[..num + 1][num] == val;
      CompletesStep(c, x, val, variables, ass, num, l, t);
      assert Completes(c, x, val, variables, ass, num, l, t);
      PopAfterBound(t, variables, x, num, l, a);
      after := a[..|a| - 1];
    } else {
      after := a[..|a| - 1];
    }
  }

  /** The loop of the support search over the current domain of the
      variable at `num`, which is not `x`: tries each value in turn and stops
      at the first that completes. */
  method TryDomain(ass: seq<int>, x: Variable, val: int, variables: seq<Variable>,
                   c: Constraint, num: nat, l: nat)
    returns (res: bool, after: seq<int>)
    requires num < l <= |variables| && |ass| == num && variables[num] != x
    requires forall p :: num <= p < l && variables[p] != x ==> variables[p].dom.current != []
    ensures res <==> exists t :: Completes(c, x, val, variables, ass, num, l, t)
    ensures !res ==> after == ass
    ensures res ==> exists t :: (Completes(c, x, val, variables, ass, num, l, t) &&
      after == t[..l - Occurrences(x, variables[num..l])])
    decreases l - num, 0
  {
    assert variables[num..l][1..] == variables[num + 1..l];
    var ds := variables[num].dom.current;
    var a := ass;
    res := false;
    for j := 0 to |ds|
      invariant a == ass && !res
      invariant forall t :: Completes(c, x, val, variables, ass, num, l, t) ==> t[num] !in ds[..j]
    {
      a := a + [ds[j]];
      res, a := FindAssignments(a, x, val, variables, c, num + 1, l);
      if res {
        ghost var t :| Completes(c, x, val, variables, ass + [ds[j]], num + 1, l, t) &&
          a == t[..l - Occurrences(x, variables[num + 1..l])];
        CompletesStep(c, x, val, variables, ass, num, l, t);
        after := a;
        return;
      }
      a := a[..|a| - 1];
      forall t | Completes(c, x, val, variables, ass, num, l, t)
        ensures t[num] !in ds[..j + 1]
      {
        CompletesStep(c, x, val, variables, ass, num, l, t);
        assert ds[..j + 1] == ds[..j] + [ds[j]];
      }
    }
    assert ds[..|ds|] == ds;
    after := a;
  }

  /** The support search from the empty list over the whole scope is the
      support test of the constraint. */
  lemma SearchIsSupport(c: Constraint, x: Variable, val: int)
    ensures (exists t :: Completes(c, x, val, c.scope, [], 0, |c.scope|, t)) <==> c.HasSupport(x, val)
  {
    if c.HasSupport(x, val) {
      var t :| t in c.tuples && |t| == |c.scope| &&
        forall i :: 0 <= i < |c.scope| ==>
          if c.scope[i] == x then t[i] == val else t[i] in c.scope[i].dom.current;
      assert Completes(c, x, val, c.scope, [], 0, |c.scope|, t);
    }
  }
}
