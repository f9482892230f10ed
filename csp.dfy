/** The data model the propagators work on: an abstract rendering of the
    `Variable`, `Constraint` and `CSP` classes the propagators call into.
    Variables live in an arena (a `Network`) and are named by their index;
    constraints are values holding a scope of variable names and a table of
    satisfying tuples. */
module Csp {

  datatype Option<T> = None | Some(value: T)

  /** A constraint: an ordered scope and the set of satisfying tuples. */
  datatype Constraint<V> = Constraint(scope: seq<V>, sat: set<seq<int>>)

  /** `check`: a tuple satisfies a constraint iff it is one of its tuples. */
  predicate Check<V>(c: Constraint<V>, t: seq<int>)
  {
    t in c.sat
  }

  /** A pruning record: value `.1` was removed from variable `.0`. */
  type Prune = (nat, int)

  predicate ScopeIn(scope: seq<nat>, n: nat)
  {
    forall k | 0 <= k < |scope| :: scope[k] < n
  }

  /** Every scope names only variables of an arena of `n` variables. */
  predicate WellFormed(cons: seq<Constraint<nat>>, n: nat)
  {
    forall i | 0 <= i < |cons| :: ScopeIn(cons[i].scope, n)
  }

  /** `get_cons_with_var`: the indices of the constraints whose scope holds x,
      in order. */
  function ConsWith(cons: seq<Constraint<nat>>, x: nat): (r: seq<nat>)
    ensures forall k | 0 <= k < |r| :: r[k] < |cons| && x in cons[r[k]].scope
  {
    if cons == [] then []
    else
      var last := |cons| - 1;
      ConsWith(cons[..last], x) + (if x in cons[last].scope then [last] else [])
  }

  /** Every constraint whose scope holds x is listed by `ConsWith`. */
  lemma {:induction false} ConsWithComplete(cons: seq<Constraint<nat>>, x: nat, i: nat)
    requires i < |cons| && x in cons[i].scope
    ensures i in ConsWith(cons, x)
  {
    var last := |cons| - 1;
    if i < last {
      ConsWithComplete(cons[..last], x, i);
    }
  }

  /** `get_all_cons`: every constraint index, in order. */
  function AllCons(cons: seq<Constraint<nat>>): (r: seq<nat>)
    ensures |r| == |cons|
    ensures forall k | 0 <= k < |r| :: r[k] == k
  {
    if cons == [] then [] else AllCons(cons[..|cons| - 1]) + [|cons| - 1]
  }

  /** `get_unasgn_vars`: the scope's unassigned variables, in scope order. */
  function Unassigned(scope: seq<nat>, asg: seq<Option<int>>): (r: seq<nat>)
    requires ScopeIn(scope, |asg|)
    ensures |r| <= |scope|
    ensures forall k | 0 <= k < |r| :: r[k] in scope && r[k] < |asg| && asg[r[k]].None?
  {
    if scope == [] then []
    else
      var last := |scope| - 1;
      Unassigned(scope[..last], asg) + (if asg[scope[last]].None? then [scope[last]] else [])
  }

  /** Every unassigned variable of the scope is listed by `Unassigned`. */
  lemma {:induction false} UnassignedComplete(scope: seq<nat>, asg: seq<Option<int>>)
    requires ScopeIn(scope, |asg|)
    ensures forall k | 0 <= k < |scope| && asg[scope[k]].None? :: scope[k] in Unassigned(scope, asg)
  {
    if scope != [] {
      var last := |scope| - 1;
      UnassignedComplete(scope[..last], asg);
      assert forall k | 0 <= k < last :: scope[..last][k] == scope[k];
    }
  }

  /** Every variable of the scope other than `t` has a value. */
  predicate AssignedExcept(scope: seq<nat>, asg: seq<Option<int>>, t: nat)
    requires ScopeIn(scope, |asg|)
  {
    forall k | 0 <= k < |scope| && scope[k] != t :: asg[scope[k]].Some?
  }

  /** The scope tuple with `v` for `t` and the assigned value everywhere else. */
  function Instantiate(scope: seq<nat>, asg: seq<Option<int>>, t: nat, v: int): seq<int>
    requires ScopeIn(scope, |asg|) && AssignedExcept(scope, asg, t)
  {
    seq(|scope|, k requires 0 <= k < |scope| => if scope[k] == t then v else asg[scope[k]].value)
  }

  /** The tuple of assigned values of a fully assigned scope. */
  function AssignedTuple(scope: seq<nat>, asg: seq<Option<int>>): seq<int>
    requires ScopeIn(scope, |asg|)
    requires forall k | 0 <= k < |scope| :: asg[scope[k]].Some?
  {
    seq(|scope|, k requires 0 <= k < |scope| => asg[scope[k]].value)
  }

  /** Tuple `t` is a support of x = a in c: it is in the table, holds `a`
      wherever the scope names x, and draws every other position from that
      variable's current domain. */
  predicate IsSupport(c: Constraint<nat>, dom: seq<set<int>>, x: nat, a: int, t: seq<int>)
    requires ScopeIn(c.scope, |dom|)
  {
    |t| == |c.scope| &&
    forall k | 0 <= k < |t| :: if c.scope[k] == x then t[k] == a else t[k] in dom[c.scope[k]]
  }

  /** `has_support(x, a)`. */
  predicate HasSupport(c: Constraint<nat>, dom: seq<set<int>>, x: nat, a: int)
    requires ScopeIn(c.scope, |dom|)
  {
    exists t | t in c.sat :: IsSupport(c, dom, x, a, t)
  }

  /** Every current value of the k-th scope variable has a support in c. */
  predicate GacAt(c: Constraint<nat>, dom: seq<set<int>>, k: nat)
    requires ScopeIn(c.scope, |dom|) && k < |c.scope|
  {
    forall v | v in dom[c.scope[k]] :: HasSupport(c, dom, c.scope[k], v)
  }

  /** c is generalized arc consistent in the domains `dom`. */
  predicate Gac(c: Constraint<nat>, dom: seq<set<int>>)
    requires ScopeIn(c.scope, |dom|)
  {
    forall k | 0 <= k < |c.scope| :: GacAt(c, dom, k)
  }

  /** The values of the scope variables in a complete assignment `s`. */
  function Project(s: seq<int>, scope: seq<nat>): seq<int>
    requires ScopeIn(scope, |s|)
  {
    seq(|scope|, k requires 0 <= k < |scope| => s[scope[k]])
  }

  /** `s` gives every variable a value and satisfies every constraint. */
  ghost predicate IsSolution(cons: seq<Constraint<nat>>, s: seq<int>)
  {
    forall i | 0 <= i < |cons| :: ScopeIn(cons[i].scope, |s|) && Check(cons[i], Project(s, cons[i].scope))
  }

  /** `s` draws every value from the domains `dom`. */
  ghost predicate Within(s: seq<int>, dom: seq<set<int>>)
  {
    |s| == |dom| && forall y | 0 <= y < |s| :: s[y] in dom[y]
  }

  /** `s` extends the current partial assignment. */
  ghost predicate Agrees(s: seq<int>, asg: seq<Option<int>>)
  {
    |s| == |asg| && forall y | 0 <= y < |s| && asg[y].Some? :: s[y] == asg[y].value
  }

  // ---------------------------------------------------------------------
  // Prune trails and their restoration

  /** The domains after pruning each record of `ps` in turn. */
  function ApplyPrunes(dom: seq<set<int>>, ps: seq<Prune>): (r: seq<set<int>>)
    ensures |r| == |dom|
  {
    if ps == [] then dom
    else
      var d := ApplyPrunes(dom, ps[..|ps| - 1]);
      var p := ps[|ps| - 1];
      if p.0 < |d| then d[p.0 := d[p.0] - {p.1}] else d
  }

  /** Each record of the trail removes a value that is present at that
      moment: the contract `prune_value` asserts. */
  predicate ValidTrail(dom: seq<set<int>>, ps: seq<Prune>)
  {
    ps == [] ||
    (ValidTrail(dom, ps[..|ps| - 1]) &&
     ps[|ps| - 1].0 < |dom| &&
     ps[|ps| - 1].1 in ApplyPrunes(dom, ps[..|ps| - 1])[ps[|ps| - 1].0])
  }

  /** Pruning a present value extends a valid trail by one record. */
  lemma TrailSnoc(dom: seq<set<int>>, ps: seq<Prune>, x: nat, v: int)
    requires ValidTrail(dom, ps) && x < |dom| && v in ApplyPrunes(dom, ps)[x]
    ensures ValidTrail(dom, ps + [(x, v)])
    ensures ApplyPrunes(dom, ps + [(x, v)]) == ApplyPrunes(dom, ps)[x := ApplyPrunes(dom, ps)[x] - {v}]
  {
    assert (ps + [(x, v)])[..|ps|] == ps;
  }

  /** The domains after putting back each record of `ps` in turn. */
  function Unprune(dom: seq<set<int>>, ps: seq<Prune>): (r: seq<set<int>>)
    ensures |r| == |dom|
  {
    if ps == [] then dom
    else
      var d := Unprune(dom, ps[..|ps| - 1]);
      var p := ps[|ps| - 1];
      if p.0 < |d| then d[p.0 := d[p.0] + {p.1}] else d
  }

  /** The values the trail removes from variable x. */
  function Removed(ps: seq<Prune>, x: nat): set<int>
  {
    set i | 0 <= i < |ps| && ps[i].0 == x :: ps[i].1
  }

  predicate Distinct<T(==)>(s: seq<T>)
  {
    forall i, j | 0 <= i < j < |s| :: s[i] != s[j]
  }

  /** Sum of the domain sizes: the measure every prune decreases. */
  function TotalSize(dom: seq<set<int>>): nat
  {
    if dom == [] then 0 else TotalSize(dom[..|dom| - 1]) + |dom[|dom| - 1]|
  }

  /** Some value of a non-empty domain: the next value a loop over a
      snapshot of the domain visits. */
  method Pick(s: set<int>) returns (v: int)
    requires s != {}
    ensures v in s
  {
    if forall w :: w !in s {
      assert false;
    }
    v :| v in s;
  }

  /** Every variable named in the prune list still has a value left. */
  predicate Nonempty(dom: seq<set<int>>, ps: seq<Prune>)
  {
    forall i | 0 <= i < |ps| :: ps[i].0 < |dom| && dom[ps[i].0] != {}
  }

  /** Pruning a value that leaves its domain non-empty keeps every domain
      named in the list non-empty. */
  lemma NonemptySnoc(dom: seq<set<int>>, ps: seq<Prune>, x: nat, v: int)
    requires Nonempty(dom, ps) && x < |dom| && dom[x] - {v} != {}
    ensures Nonempty(dom[x := dom[x] - {v}], ps + [(x, v)])
  {
    var dom' := dom[x := dom[x] - {v}];
    var ps' := ps + [(x, v)];
    forall i | 0 <= i < |ps'|
      ensures ps'[i].0 < |dom'| && dom'[ps'[i].0] != {}
    {
      if i < |ps| {
        assert ps'[i] == ps[i];
      }
    }
  }

  /** The last prune emptied its variable's domain: a dead end. */
  predicate WipedOut(dom: seq<set<int>>, ps: seq<Prune>)
  {
    ps != [] && ps[|ps| - 1].0 < |dom| && dom[ps[|ps| - 1].0] == {}
  }

  lemma {:induction false} RemovedSnoc(ps: seq<Prune>, p: Prune, x: nat)
    ensures Removed(ps + [p], x) == Removed(ps, x) + (if p.0 == x then {p.1} else {})
  {
    var qs := ps + [p];
    forall v ensures v in Removed(qs, x) <==> v in Removed(ps, x) + (if p.0 == x then {p.1} else {}) {
      if v in Removed(qs, x) {
        var i :| 0 <= i < |qs| && qs[i].0 == x && qs[i].1 == v;
        if i < |ps| { assert ps[i] == qs[i]; }
      }
      if v in Removed(ps, x) {
        var i :| 0 <= i < |ps| && ps[i].0 == x && ps[i].1 == v;
        assert qs[i] == ps[i];
      }
      if p.0 == x && v == p.1 {
        assert qs[|ps|] == p;
      }
    }
  }

  /** Closed form of a prune trail: each domain loses exactly the values the
      trail names for it. */
  lemma {:induction false} ApplyPrunesAt(dom: seq<set<int>>, ps: seq<Prune>, x: nat)
    requires x < |dom|
    ensures ApplyPrunes(dom, ps)[x] == dom[x] - Removed(ps, x)
  {
    if ps != [] {
      var init := ps[..|ps| - 1];
      ApplyPrunesAt(dom, init, x);
      RemovedSnoc(init, ps[|ps| - 1], x);
      assert init + [ps[|ps| - 1]] == ps;
    }
  }

  /** Closed form of a restoration: each domain regains exactly the values
      the trail names for it. */
  lemma {:induction false} UnpruneAt(dom: seq<set<int>>, ps: seq<Prune>, x: nat)
    requires x < |dom|
    ensures Unprune(dom, ps)[x] == dom[x] + Removed(ps, x)
  {
    if ps != [] {
      var init := ps[..|ps| - 1];
      UnpruneAt(dom, init, x);
      RemovedSnoc(init, ps[|ps| - 1], x);
      assert init + [ps[|ps| - 1]] == ps;
    }
  }

  /** A record is in the trail iff its value is among those removed from its variable. */
  lemma RemovedHas(ps: seq<Prune>, p: Prune)
    ensures p.1 in Removed(ps, p.0) <==> p in ps
  {
    if p.1 in Removed(ps, p.0) {
      var i :| 0 <= i < |ps| && ps[i].0 == p.0 && ps[i].1 == p.1;
      assert ps[i] == p;
    }
    if p in ps {
      var i :| 0 <= i < |ps| && ps[i] == p;
      assert ps[i].1 in Removed(ps, p.0);
    }
  }

  /** A trail is valid exactly when it names no record twice and every value
      it names was in the domain before the first prune. */
  lemma {:induction false} ValidTrailIff(dom: seq<set<int>>, ps: seq<Prune>)
    ensures ValidTrail(dom, ps) <==>
      Distinct(ps) && forall i | 0 <= i < |ps| :: ps[i].0 < |dom| && ps[i].1 in dom[ps[i].0]
  {
    if ps != [] {
      var init := ps[..|ps| - 1];
      var p := ps[|ps| - 1];
      ValidTrailIff(dom, init);
      assert ps == init + [p];
      RemovedHas(init, p);
      if p.0 < |dom| {
        ApplyPrunesAt(dom, init, p.0);
      }
      assert Distinct(ps) <==> Distinct(init) && p !in init;
    }
  }

  /** Every value a valid trail removes was in the domain beforehand. */
  lemma RemovedWithin(dom: seq<set<int>>, ps: seq<Prune>, x: nat)
    requires ValidTrail(dom, ps) && x < |dom|
    ensures Removed(ps, x) <= dom[x]
  {
    ValidTrailIff(dom, ps);
  }

  /** Restoring a valid prune trail gives back exactly the domains it was
      applied to. */
  lemma RestoreRoundTrip(dom: seq<set<int>>, ps: seq<Prune>)
    requires ValidTrail(dom, ps)
    ensures Unprune(ApplyPrunes(dom, ps), ps) == dom
  {
    var after := ApplyPrunes(dom, ps);
    forall x | 0 <= x < |dom| ensures Unprune(after, ps)[x] == dom[x] {
      ApplyPrunesAt(dom, ps, x);
      UnpruneAt(after, ps, x);
      RemovedWithin(dom, ps, x);
    }
  }

  lemma {:induction false} TotalSizeRemove(dom: seq<set<int>>, x: nat, v: int)
    requires x < |dom| && v in dom[x]
    ensures TotalSize(dom[x := dom[x] - {v}]) == TotalSize(dom) - 1
  {
    var last := |dom| - 1;
    var d' := dom[x := dom[x] - {v}];
    assert d'[..last] == if x < last then dom[..last][x := dom[x] - {v}] else dom[..last];
    if x < last {
      TotalSizeRemove(dom[..last], x, v);
    }
  }

  /** Each prune of a valid trail takes exactly one value away from the
      total domain size, so a trail is never longer than that size. */
  lemma {:induction false} TrailShrinks(dom: seq<set<int>>, ps: seq<Prune>)
    requires ValidTrail(dom, ps)
    ensures |ps| + TotalSize(ApplyPrunes(dom, ps)) == TotalSize(dom)
  {
    if ps != [] {
      var init := ps[..|ps| - 1];
      TrailShrinks(dom, init);
      TotalSizeRemove(ApplyPrunes(dom, init), ps[|ps| - 1].0, ps[|ps| - 1].1);
    }
  }

  /** The arena of variables: the CSP's variables with their original and
      current domains and their assignments, and its constraints. */
  class Network {
    const cons: seq<Constraint<nat>>
    const origDom: seq<set<int>>
    var curDom: seq<set<int>>
    var assignment: seq<Option<int>>

    ghost predicate Valid()
      reads this
    {
      |curDom| == |origDom| && |assignment| == |origDom| &&
      (forall x | 0 <= x < |origDom| :: curDom[x] <= origDom[x]) &&
      WellFormed(cons, |origDom|)
    }

    constructor (cons: seq<Constraint<nat>>, dom: seq<set<int>>)
      requires WellFormed(cons, |dom|)
      ensures Valid()
      ensures this.cons == cons && origDom == dom && curDom == dom
      ensures assignment == seq(|dom|, _ => None)
    {
      this.cons := cons;
      origDom := dom;
      curDom := dom;
      assignment := seq(|dom|, _ => None);
    }

    /** `prune_value`: removes a value that must be in the current domain. */
    method PruneValue(x: nat, v: int)
      requires Valid() && x < |curDom| && v in curDom[x]
      modifies this
      ensures Valid()
      ensures curDom == old(curDom)[x := old(curDom)[x] - {v}]
      ensures assignment == old(assignment)
    {
      curDom := curDom[x := curDom[x] - {v}];
    }

    /** `unprune_value`: puts back a pruned value of the original domain. */
    method UnpruneValue(x: nat, v: int)
      requires Valid() && x < |curDom| && v in origDom[x] && v !in curDom[x]
      modifies this
      ensures Valid()
      ensures curDom == old(curDom)[x := old(curDom)[x] + {v}]
      ensures assignment == old(assignment)
    {
      curDom := curDom[x := curDom[x] + {v}];
    }

    /** Commits x to v; the current domain is left as it is. */
    method Assign(x: nat, v: int)
      requires Valid() && x < |assignment|
      modifies this
      ensures Valid()
      ensures assignment == old(assignment)[x := Some(v)] && curDom == old(curDom)
    {
      assignment := assignment[x := Some(v)];
    }

    /** Clears the assignment of x. */
    method Unassign(x: nat)
      requires Valid() && x < |assignment|
      modifies this
      ensures Valid()
      ensures assignment == old(assignment)[x := None] && curDom == old(curDom)
    {
      assignment := assignment[x := None];
    }

    /** Undoes a prune list returned by a propagator: puts back every record,
        which returns every domain to its state `before` the propagation. */
    method Restore(ps: seq<Prune>, ghost before: seq<set<int>>)
      requires Valid() && |before| == |curDom|
      requires forall x | 0 <= x < |before| :: before[x] <= origDom[x]
      requires ValidTrail(before, ps) && curDom == ApplyPrunes(before, ps)
      modifies this
      ensures Valid() && curDom == before && assignment == old(assignment)
    {
      ValidTrailIff(before, ps);
      ghost var pruned := curDom;
      for i := 0 to |ps|
        invariant Valid() && assignment == old(assignment)
        invariant curDom == Unprune(pruned, ps[..i])
      {
        var (x, v) := ps[i];
        assert ps[..i + 1][..i] == ps[..i];
        ApplyPrunesAt(before, ps, x);
        UnpruneAt(pruned, ps[..i], x);
        assert v in Removed(ps, x);
        RemovedHas(ps[..i], ps[i]);
        UnpruneValue(x, v);
      }
      assert ps[..|ps|] == ps;
      RestoreRoundTrip(before, ps);
    }
  }
}
