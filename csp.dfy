/// Variables, domains, constraints and the constraint network that the
/// propagators work on, together with the value-level view of their state
/// (domain maps, assignment maps, pruning records) in which the propagators'
/// contracts are stated.
module Csp {

  datatype Option<T> = None | Some(value: T)

  /** No element of `s` occurs twice. */
  predicate Distinct<T(==)>(s: seq<T>) {
    forall i, j :: 0 <= i < j < |s| ==> s[i] != s[j]
  }

  function Elements<T>(s: seq<T>): set<T> {
    set x | x in s
  }

  /** `s` with every occurrence of `x` taken out, the rest in order. */
  function Without(s: seq<int>, x: int): (r: seq<int>)
    ensures forall y :: y in r <==> y in s && y != x
    ensures Elements(r) == Elements(s) - {x}
    ensures Distinct(s) ==> Distinct(r)
  {
    if s == [] then []
    else if s[0] == x then Without(s[1..], x)
    else
      assert Elements(s) == {s[0]} + Elements(s[1..]);
      [s[0]] + Without(s[1..], x)
  }

  // ---------------------------------------------------------------------
  // Objects
  // ---------------------------------------------------------------------

  /** The domain of one variable: the full value list fixed when the variable
      is made, and the values that are still viable. */
  class Domain {
    const full: seq<int>
    var current: seq<int>

    ghost predicate Valid()
      reads this
    {
      Distinct(current) && forall x :: x in current ==> x in full
    }

    ghost function Values(): set<int>
      reads this
    {
      Elements(current)
    }

    constructor (full: seq<int>)
      requires Distinct(full)
      ensures Valid() && this.full == full && current == full
    {
      this.full := full;
      current := full;
    }

    /** Membership in the current domain. */
    predicate Contains(x: int)
      reads this
    {
      x in current
    }

    /** The number of values left. */
    function Size(): nat
      reads this
    {
      |current|
    }

    /** Removes `x` from the current domain. */
    method Prune(x: int)
      requires Valid()
      modifies this
      ensures Valid()
      ensures current == Without(old(current), x)
      ensures Values() == old(Values()) - {x}
    {
      current := Without(current, x);
    }
  }

  /** A variable: its domain and the value the search has bound it to, if any. */
  class Variable {
    const dom: Domain
    var binding: Option<int>

    constructor (domain: seq<int>)
      requires Distinct(domain)
      ensures fresh(dom) && dom.Valid() && dom.full == domain && dom.current == domain
      ensures binding == None
    {
      dom := new Domain(domain);
      binding := None;
    }

    predicate IsAssigned()
      reads this
    {
      binding.Some?
    }

    method Assign(x: int)
      requires !IsAssigned()
      modifies this
      ensures binding == Some(x)
    {
      binding := Some(x);
    }

    method Unassign()
      modifies this
      ensures binding == None
    {
      binding := None;
    }
  }

  /** A constraint given by its scope and the explicit list of the value tuples
      (one value per scope position) that satisfy it. */
  class Constraint {
    const scope: seq<Variable>
    const tuples: seq<seq<int>>

    constructor (scope: seq<Variable>, tuples: seq<seq<int>>)
      ensures this.scope == scope && this.tuples == tuples
    {
      this.scope := scope;
      this.tuples := tuples;
    }

    /** The domain objects of the scope variables. */
    ghost function Domains(): set<Domain> {
      set v | v in scope :: v.dom
    }

    /** Membership of a full tuple among the satisfying tuples. */
    predicate Check(vals: seq<int>) {
      vals in tuples
    }

    /** The number of scope positions whose variable is not bound. */
    function NUnassigned(): (n: nat)
      reads scope
      ensures n == 0 <==> forall i :: 0 <= i < |scope| ==> scope[i].IsAssigned()
    {
      var free := set i | 0 <= i < |scope| && !scope[i].IsAssigned();
      assert (forall i :: 0 <= i < |scope| ==> scope[i].IsAssigned()) ==> free == {};
      assert forall i :: 0 <= i < |scope| && !scope[i].IsAssigned() ==> i in free;
      |free|
    }

    /** Some satisfying tuple has `val` wherever `x` stands in the scope and,
        at every other position, a value of that variable's current domain. */
    predicate HasSupport(x: Variable, val: int)
      reads Domains()
    {
      exists t :: t in tuples && |t| == |scope| &&
        forall i :: 0 <= i < |scope| ==>
          if scope[i] == x then t[i] == val else t[i] in scope[i].dom.current
    }
  }

  /** The constraint network: its variables and its constraints. */
  class Network {
    const vars: seq<Variable>
    var cons: seq<Constraint>

    constructor (vars: seq<Variable>)
      ensures this.vars == vars && cons == []
    {
      this.vars := vars;
      cons := [];
    }

    method AddConstraint(c: Constraint)
      modifies this
      ensures cons == old(cons) + [c]
    {
      cons := cons + [c];
    }

    /** The constraints whose scope mentions `v`, in network order. */
    function ConsWithVar(v: Variable): (r: seq<Constraint>)
      reads this
      ensures forall c :: c in r ==> c in cons && v in c.scope
      ensures forall c :: c in cons && v in c.scope ==> c in r
      ensures Distinct(cons) ==> Distinct(r)
    {
      Mentioning(cons, v)
    }

    ghost function Domains(): set<Domain> {
      set v | v in vars :: v.dom
    }

    /** The shape the propagators rely on: every scope variable belongs to the
        network, no two variables share a domain object, no constraint is
        listed twice. */
    ghost predicate WellFormed()
      reads this
    {
      && (forall c :: c in cons ==> forall v :: v in c.scope ==> v in vars)
      && (forall v, w :: v in vars && w in vars && v != w ==> v.dom != w.dom)
      && Distinct(cons)
    }

    ghost predicate Valid()
      reads this, Domains()
    {
      WellFormed() && forall v :: v in vars ==> v.dom.Valid()
    }

    /** The current domains, as a value. */
    ghost function DomMap(): (D: DomainMap)
      reads Domains()
      ensures D.Keys == Elements(vars)
    {
      map v | v in vars :: v.dom.Values()
    }

    /** The current assignment, as a value. */
    ghost function Assignment(): (A: AssignmentMap)
      reads set v | v in vars
      ensures A.Keys == Elements(vars)
    {
      map v | v in vars :: v.binding
    }
  }

  function Mentioning(cs: seq<Constraint>, v: Variable): (r: seq<Constraint>)
    ensures forall c :: c in r ==> c in cs && v in c.scope
    ensures forall c :: c in cs && v in c.scope ==> c in r
    ensures Distinct(cs) ==> Distinct(r)
  {
    if cs == [] then []
    else if v in cs[0].scope then [cs[0]] + Mentioning(cs[1..], v)
    else Mentioning(cs[1..], v)
  }

  // ---------------------------------------------------------------------
  // Value-level view
  // ---------------------------------------------------------------------

  type DomainMap = map<Variable, set<int>>
  type AssignmentMap = map<Variable, Option<int>>

  /** Domains `E` are those of `D`, each possibly smaller. */
  ghost predicate Shrinks(E: DomainMap, D: DomainMap) {
    E.Keys == D.Keys && forall v :: v in D ==> E[v] <= D[v]
  }

  /** Tuple `t` supports `x = val` in `c` under the domains `D`. */
  ghost predicate SupportsIn(c: Constraint, D: DomainMap, x: Variable, val: int, t: seq<int>) {
    |t| == |c.scope| &&
    forall i :: 0 <= i < |t| ==>
      if c.scope[i] == x then t[i] == val else c.scope[i] in D && t[i] in D[c.scope[i]]
  }

  ghost predicate SupportedIn(c: Constraint, D: DomainMap, x: Variable, val: int) {
    exists t :: t in c.tuples && SupportsIn(c, D, x, val, t)
  }

  /** `c` is generalized arc consistent under `D`: every value of every scope
      variable has a support. */
  ghost predicate GacIn(c: Constraint, D: DomainMap) {
    forall i, val :: 0 <= i < |c.scope| && c.scope[i] in D && val in D[c.scope[i]] ==>
      SupportedIn(c, D, c.scope[i], val)
  }

  /** The scope positions whose variable `A` leaves unbound. */
  ghost function UnassignedIn(c: Constraint, A: AssignmentMap): set<int> {
    set i | 0 <= i < |c.scope| && !(c.scope[i] in A && A[c.scope[i]].Some?)
  }

  /** The one unbound scope variable of a constraint with one unbound position. */
  ghost function TheUnassigned(c: Constraint, A: AssignmentMap): Variable
    requires |UnassignedIn(c, A)| == 1
  {
    var p :| p in UnassignedIn(c, A); c.scope[p]
  }

  /** The tuple built from the bound values of `A`, with `x` in place of `u`. */
  ghost function ValuesWith(c: Constraint, A: AssignmentMap, u: Variable, x: int): seq<int> {
    seq(|c.scope|, i requires 0 <= i < |c.scope| =>
      if c.scope[i] == u then x
      else if c.scope[i] in A && A[c.scope[i]].Some? then A[c.scope[i]].value
      else 0)
  }

  /** The tuple of the bound values of the scope under `A`. */
  ghost function BoundValues(c: Constraint, A: AssignmentMap): seq<int> {
    seq(|c.scope|, i requires 0 <= i < |c.scope| =>
      if c.scope[i] in A && A[c.scope[i]].Some? then A[c.scope[i]].value else 0)
  }

  /** Forward checking on `c` under `A` removes `x` from `u`: `u` is the one
      unbound variable of `c`, and binding it to `x` gives a tuple that fails `c`. */
  ghost predicate FcRemoves(c: Constraint, A: AssignmentMap, u: Variable, x: int) {
    |UnassignedIn(c, A)| == 1 && u == TheUnassigned(c, A) && !c.Check(ValuesWith(c, A, u, x))
  }

  /** The values `pruned` records for `v`. */
  ghost function PrunedOf(pruned: seq<(Variable, int)>, v: Variable): set<int> {
    set i | 0 <= i < |pruned| && pruned[i].0 == v :: pruned[i].1
  }

  /** `pruned` is an exact, duplicate-free record of going from `before` to
      `after`: each pair was a live value before, and the domains after are the
      domains before minus the recorded values. */
  ghost predicate Records(before: DomainMap, after: DomainMap, pruned: seq<(Variable, int)>) {
    && after.Keys == before.Keys
    && Distinct(pruned)
    && (forall i :: 0 <= i < |pruned| ==> pruned[i].0 in before && pruned[i].1 in before[pruned[i].0])
    && (forall v :: v in before ==> after[v] == before[v] - PrunedOf(pruned, v))
  }

  /** What the search driver gets back by restoring every recorded pair. */
  ghost function Restore(after: DomainMap, pruned: seq<(Variable, int)>): (r: DomainMap)
    ensures r.Keys == after.Keys
  {
    map v | v in after :: after[v] + PrunedOf(pruned, v)
  }

  /** The sum of the domain sizes of `vs`. */
  ghost function TotalSize(D: DomainMap, vs: seq<Variable>): nat {
    if vs == [] then 0
    else (if vs[0] in D then |D[vs[0]]| else 0) + TotalSize(D, vs[1..])
  }

  // ---------------------------------------------------------------------
  // Lemmas about the value-level view
  // ---------------------------------------------------------------------

  lemma PrunedOfAppend(p: seq<(Variable, int)>, q: seq<(Variable, int)>, v: Variable)
    ensures PrunedOf(p + q, v) == PrunedOf(p, v) + PrunedOf(q, v)
  {
    var pq := p + q;
    forall x | x in PrunedOf(pq, v) ensures x in PrunedOf(p, v) + PrunedOf(q, v) {
      var i :| 0 <= i < |pq| && pq[i].0 == v && pq[i].1 == x;
      if i >= |p| { assert q[i - |p|] == pq[i]; }
    }
    forall x | x in PrunedOf(p, v) ensures x in PrunedOf(pq, v) {
      var i :| 0 <= i < |p| && p[i].0 == v && p[i].1 == x;
      assert pq[i] == p[i];
    }
    forall x | x in PrunedOf(q, v) ensures x in PrunedOf(pq, v) {
      var i :| 0 <= i < |q| && q[i].0 == v && q[i].1 == x;
      assert pq[|p| + i] == q[i];
    }
  }

  lemma PrunedOfOne(u: Variable, x: int, v: Variable)
    ensures PrunedOf([(u, x)], v) == if v == u then {x} else {}
  {
    var one := [(u, x)];
    assert one[0] == (u, x);
  }

  lemma RecordsNothing(D: DomainMap)
    ensures Records(D, D, [])
  {
    forall v | v in D ensures D[v] == D[v] - PrunedOf([], v) {
      assert PrunedOf([], v) == {};
    }
  }

  /** A record tells the caller the domains only shrank. */
  lemma RecordsShrinks(before: DomainMap, after: DomainMap, pruned: seq<(Variable, int)>)
    requires Records(before, after, pruned)
    ensures Shrinks(after, before)
  {
  }

  /** Two successive records concatenate into one record of the whole change:
      in particular no pair is recorded twice. */
  lemma {:induction false} RecordsCompose(a: DomainMap, b: DomainMap, c: DomainMap,
                                          p: seq<(Variable, int)>, q: seq<(Variable, int)>)
    requires Records(a, b, p) && Records(b, c, q)
    ensures Records(a, c, p + q)
  {
    var pq := p + q;
    forall i, j | 0 <= i < j < |pq| ensures pq[i] != pq[j] {
      if j < |p| {
      } else if i >= |p| {
        assert q[i - |p|] == pq[i] && q[j - |p|] == pq[j];
      } else {
        assert pq[j] == q[j - |p|];
        assert pq[j].1 in b[pq[j].0];
        assert pq[i] == p[i];
        assert pq[i].1 in PrunedOf(p, pq[i].0);
      }
    }
    forall v | v in a ensures c[v] == a[v] - PrunedOf(pq, v) {
      PrunedOfAppend(p, q, v);
    }
  }

  /** Restoring every recorded pair gives back exactly the domains before. */
  lemma {:induction false} RestoreUndoes(before: DomainMap, after: DomainMap, pruned: seq<(Variable, int)>)
    requires Records(before, after, pruned)
    ensures Restore(after, pruned) == before
  {
    forall v | v in before ensures Restore(after, pruned)[v] == before[v] {
      forall x | x in PrunedOf(pruned, v) ensures x in before[v] {
        var i :| 0 <= i < |pruned| && pruned[i].0 == v && pruned[i].1 == x;
      }
    }
  }

  /** The domains of `E` are those of `D` on every scope variable of `c`. */
  ghost predicate SameOnScope(c: Constraint, D: DomainMap, E: DomainMap) {
    forall v :: v in c.scope && v in D ==> v in E && E[v] == D[v]
  }

  /** Whether `c` is arc consistent depends only on the domains of its scope. */
  lemma GacScope(c: Constraint, D: DomainMap, E: DomainMap)
    requires D.Keys == E.Keys && SameOnScope(c, D, E)
    ensures GacIn(c, E) == GacIn(c, D)
  {
    forall y, val ensures SupportedIn(c, E, y, val) == SupportedIn(c, D, y, val) {
      if SupportedIn(c, D, y, val) {
        var t :| t in c.tuples && SupportsIn(c, D, y, val, t);
        assert SupportsIn(c, E, y, val, t);
      }
      if SupportedIn(c, E, y, val) {
        var t :| t in c.tuples && SupportsIn(c, E, y, val, t);
        assert SupportsIn(c, D, y, val, t);
      }
    }
  }

  /** The first position of `v` in `vs`. */
  function IndexOf(vs: seq<Variable>, v: Variable): (i: nat)
    requires v in vs
    ensures i < |vs| && vs[i] == v
  {
    if vs[0] == v then 0 else 1 + IndexOf(vs[1..], v)
  }

  /** The value a total assignment `S` of the variables `vs`, one value per
      position, gives `v`. */
  function ValueOf(vs: seq<Variable>, S: seq<int>, v: Variable): int {
    if v in vs && |S| == |vs| then S[IndexOf(vs, v)] else 0
  }

  /** The tuple `S` gives the scope of `c`. */
  ghost function TupleOf(c: Constraint, vs: seq<Variable>, S: seq<int>): seq<int> {
    seq(|c.scope|, i requires 0 <= i < |c.scope| => ValueOf(vs, S, c.scope[i]))
  }

  /** `S` is a solution within the domains `D`: it gives every variable of
      `vs` a value of its domain and satisfies every constraint of `cons`. */
  ghost predicate IsSolution(vs: seq<Variable>, cons: seq<Constraint>, D: DomainMap, S: seq<int>) {
    && |S| == |vs|
    && (forall v :: v in vs ==> v in D && ValueOf(vs, S, v) in D[v])
    && (forall c :: c in cons ==> (forall v :: v in c.scope ==> v in vs) && TupleOf(c, vs, S) in c.tuples)
  }

  /** Every value a solution uses has a support in every constraint. */
  lemma SolutionSupports(vs: seq<Variable>, cons: seq<Constraint>, D: DomainMap, S: seq<int>,
                         c: Constraint, x: Variable)
    requires IsSolution(vs, cons, D, S) && c in cons
    ensures SupportedIn(c, D, x, ValueOf(vs, S, x))
  {
    var t := TupleOf(c, vs, S);
    assert SupportsIn(c, D, x, ValueOf(vs, S, x), t);
  }

  /** An empty domain admits no solution. */
  lemma EmptyNoSolution(vs: seq<Variable>, cons: seq<Constraint>, D: DomainMap, v: Variable)
    requires v in vs && v in D && D[v] == {}
    ensures forall S :: !IsSolution(vs, cons, D, S)
  {
  }

  /** Pruning values of `x` that have no support in a constraint of the
      network loses no solution. */
  lemma SolutionKept(vs: seq<Variable>, cons: seq<Constraint>, D: DomainMap, S: seq<int>, c: Constraint,
                     x: Variable, more: seq<(Variable, int)>)
    requires IsSolution(vs, cons, D, S) && c in cons && x in D
    requires forall k :: 0 <= k < |more| ==> !SupportedIn(c, D, x, more[k].1)
    ensures IsSolution(vs, cons, D[x := D[x] - PrunedOf(more, x)], S)
  {
    SolutionSupports(vs, cons, D, S, c, x);
  }

  lemma {:induction false} TotalSizeShrinks(E: DomainMap, D: DomainMap, vs: seq<Variable>)
    requires Shrinks(E, D)
    ensures TotalSize(E, vs) <= TotalSize(D, vs)
  {
    if vs != [] {
      TotalSizeShrinks(E, D, vs[1..]);
      if vs[0] in D { SubsetCard(E[vs[0]], D[vs[0]]); }
    }
  }

  /** Losing one value of one network variable makes the total size smaller. */
  lemma {:induction false} TotalSizeDecreases(E: DomainMap, D: DomainMap, vs: seq<Variable>, w: Variable)
    requires Shrinks(E, D) && w in vs && w in D && E[w] < D[w]
    ensures TotalSize(E, vs) < TotalSize(D, vs)
  {
    if vs[0] == w {
      ProperSubsetCard(E[w], D[w]);
      TotalSizeShrinks(E, D, vs[1..]);
    } else {
      TotalSizeDecreases(E, D, vs[1..], w);
      if vs[0] in D { SubsetCard(E[vs[0]], D[vs[0]]); }
    }
  }

  lemma SubsetCard(A: set<int>, B: set<int>)
    requires A <= B
    ensures |A| <= |B|
  {
    assert B == A + (B - A);
  }

  lemma ProperSubsetCard(A: set<int>, B: set<int>)
    ensures A < B ==> |A| < |B|
  {
    if A < B {
      assert B == A + (B - A);
      assert B - A != {};
    }
  }

  /** A record with pairs in it shows some domain really lost a value. */
  lemma RecordedLoss(before: DomainMap, after: DomainMap, pruned: seq<(Variable, int)>)
    requires Records(before, after, pruned) && pruned != []
    ensures pruned[0].0 in before && after[pruned[0].0] < before[pruned[0].0]
  {
    assert pruned[0].1 in PrunedOf(pruned, pruned[0].0);
  }

  lemma ElementsEmpty<T>(s: seq<T>)
    ensures Elements(s) == {} <==> s == []
  {
    if s != [] { assert s[0] in Elements(s); }
  }

  /** An empty record means nothing changed. */
  lemma RecordsNothingChanged(D: DomainMap, E: DomainMap)
    requires Records(D, E, [])
    ensures E == D
  {
    forall v | v in D ensures E[v] == D[v] {
      assert PrunedOf([], v) == {};
    }
  }

  lemma TheUnassignedIs(c: Constraint, A: AssignmentMap, p: int)
    requires |UnassignedIn(c, A)| == 1 && p in UnassignedIn(c, A)
    ensures UnassignedIn(c, A) == {p} && TheUnassigned(c, A) == c.scope[p]
  {
    SingletonSet(UnassignedIn(c, A), p);
  }

  lemma SingletonSet(S: set<int>, p: int)
    requires |S| == 1 && p in S
    ensures S == {p}
  {
    assert |S - {p}| == 0;
    assert S == (S - {p}) + {p};
  }

  // ---------------------------------------------------------------------
  // Bridges between the objects and the value-level view
  // ---------------------------------------------------------------------

  /** The network's domain map, given the one it had before only `u`'s
      domain changed. */
  lemma DomMapAfter(csp: Network, D: DomainMap, u: Variable)
    requires csp.WellFormed() && u in csp.vars && D.Keys == Elements(csp.vars)
    requires forall v :: v in csp.vars && v != u ==> v.dom.Values() == D[v]
    ensures csp.DomMap() == D[u := u.dom.Values()]
  {
  }

  /** The network's assignment map, given that every binding is the one `A` records. */
  lemma AssignmentIs(csp: Network, A: AssignmentMap)
    requires A.Keys == Elements(csp.vars)
    requires forall v :: v in csp.vars ==> v.binding == A[v]
    ensures csp.Assignment() == A
  {
  }

  lemma NUnassignedAgrees(csp: Network, c: Constraint)
    requires csp.WellFormed() && c in csp.cons
    ensures c.NUnassigned() == |UnassignedIn(c, csp.Assignment())|
  {
    var A := csp.Assignment();
    assert (set i | 0 <= i < |c.scope| && !c.scope[i].IsAssigned()) == UnassignedIn(c, A);
  }
}
