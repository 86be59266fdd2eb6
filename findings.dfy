/// A concrete network on which the forward checking propagator as written
/// and the corrected one part ways: the one constraint on the bound variable
/// leaves the other variable no value at all.
module Findings {
  import opened Csp
  import opened Propagators

  /** `x` bound to 1, `y` with the domain [1], and one constraint on (x, y)
      that no pair of values satisfies. */
  method WipeoutNetwork() returns (net: Network, x: Variable, y: Variable, c: Constraint)
    ensures fresh(net) && fresh(x) && fresh(y) && fresh(x.dom) && fresh(y.dom) && fresh(c)
    ensures net.vars == [x, y] && net.cons == [c]
    ensures c.scope == [x, y] && c.tuples == []
    ensures x.binding == Some(1) && y.binding == None
    ensures x.dom.current == [1] && y.dom.current == [1]
    ensures net.Valid()
  {
    x := new Variable([1]);
    x.Assign(1);
    y := new Variable([1]);
    c := new Constraint([x, y], []);
    net := new Network([x, y]);
    net.AddConstraint(c);
  }

  /** On that network forward checking must remove 1 from `y`. */
  lemma WipeoutForced(net: Network, x: Variable, y: Variable, c: Constraint)
    requires net.vars == [x, y] && net.cons == [c] && x != y
    requires c.scope == [x, y] && c.tuples == []
    requires x.binding == Some(1) && y.binding == None
    ensures FcRemoves(c, net.Assignment(), y, 1)
    ensures Scheduled(net, Some(x)) == [c]
  {
    var A := net.Assignment();
    assert 0 !in UnassignedIn(c, A);
    assert 1 in UnassignedIn(c, A);
    assert UnassignedIn(c, A) == {1};
    TheUnassignedIs(c, A, 1);
    assert ValuesWith(c, A, y, 1) == [1, 1];
    assert net.ConsWithVar(x) == Mentioning([c], x);
    assert [c][1..] == [];
  }

  /** Forward checking that is complete on the network leaves `y` nothing. */
  lemma WipedOut(c: Constraint, A: AssignmentMap, D0: DomainMap, D: DomainMap,
                 pruned: seq<(Variable, int)>, y: Variable)
    requires Records(D0, D, pruned) && y in D0 && D0[y] == {1}
    requires FcRemoves(c, A, y, 1) && FcComplete([c], A, D)
    ensures D[y] == {}
    ensures exists i :: 0 <= i < |pruned| && pruned[i].0 == y
  {
    assert D[y] == D0[y] - PrunedOf(pruned, y);
    assert 1 !in D[y];
    assert 1 in PrunedOf(pruned, y);
    var i :| 0 <= i < |pruned| && pruned[i].0 == y && pruned[i].1 == 1;
  }

  /** The propagator as written reports success and leaves `y`'s domain
      empty. */
  method FcAsWrittenMissesWipeout() returns (ok: bool, emptied: bool)
    ensures ok && emptied
  {
    var net, x, y, c := WipeoutNetwork();
    ghost var D0 := net.DomMap();
    WipeoutForced(net, x, y, c);
    var pruned;
    ok, pruned := PropFCAsWritten(net, Some(x));
    WipedOut(c, net.Assignment(), D0, net.DomMap(), pruned, y);
    ElementsEmpty(y.dom.current);
    emptied := y.dom.Size() == 0;
  }

  /** The corrected propagator reports the dead end on the same network. */
  method FcReportsWipeout() returns (ok: bool)
    ensures !ok
  {
    var net, x, y, c := WipeoutNetwork();
    ghost var D0 := net.DomMap();
    WipeoutForced(net, x, y, c);
    var pruned;
    ok, pruned := PropFC(net, Some(x));
    if ok {
      WipedOut(c, net.Assignment(), D0, net.DomMap(), pruned, y);
    }
  }
}
