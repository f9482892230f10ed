/** The three propagators: plain backtracking (BT), forward checking (FC) and
    generalized arc consistency (GAC). Each takes the network and an optional
    newly assigned variable and returns a verdict with the exact list of the
    (variable, value) pairs it pruned. */
module Propagators {
  import opened Csp

  /** The constraints a propagator starts from: all of them for the call made
      before any assignment, else those whose scope holds `newVar`. */
  function Working(cons: seq<Constraint<nat>>, newVar: Option<nat>): (r: seq<nat>)
    ensures forall k | 0 <= k < |r| :: r[k] < |cons|
  {
    if newVar.None? then AllCons(cons) else ConsWith(cons, newVar.value)
  }

  /** The working constraints are exactly the constraints, or exactly those
      on `newVar`. */
  lemma WorkingMembers(cons: seq<Constraint<nat>>, newVar: Option<nat>, c: nat)
    ensures c in Working(cons, newVar) <==> c < |cons| && (newVar.Some? ==> newVar.value in cons[c].scope)
  {
    var r := Working(cons, newVar);
    if c < |cons| && (newVar.Some? ==> newVar.value in cons[c].scope) {
      if newVar.None? {
        assert r[c] == c;
      } else {
        ConsWithComplete(cons, newVar.value, c);
      }
    }
  }

  // ---------------------------------------------------------------------
  // Plain backtracking

  /** The BT test of one constraint: once its scope is fully assigned, the
      assigned values, taken in scope order, satisfy it. */
  predicate BtHolds(c: Constraint<nat>, asg: seq<Option<int>>)
    requires ScopeIn(c.scope, |asg|)
  {
    UnassignedComplete(c.scope, asg);
    |Unassigned(c.scope, asg)| == 0 ==> Check(c, AssignedTuple(c.scope, asg))
  }

  /** Collects the assigned values of a fully assigned scope, in scope order. */
  method AssignedValues(scope: seq<nat>, asg: seq<Option<int>>) returns (vals: seq<int>)
    requires ScopeIn(scope, |asg|)
    requires forall k | 0 <= k < |scope| :: asg[scope[k]].Some?
    ensures vals == AssignedTuple(scope, asg)
  {
    vals := [];
    for k := 0 to |scope|
      invariant |vals| == k
      invariant forall j | 0 <= j < k :: vals[j] == asg[scope[j]].value
    {
      vals := vals + [asg[scope[k]].value];
    }
  }

  /** Runs the BT test over the constraints `cs`, stopping at the first
      failure. */
  method BtScan(cons: seq<Constraint<nat>>, asg: seq<Option<int>>, cs: seq<nat>) returns (ok: bool)
    requires WellFormed(cons, |asg|)
    requires forall k | 0 <= k < |cs| :: cs[k] < |cons|
    ensures ok <==> forall j | 0 <= j < |cs| :: BtHolds(cons[cs[j]], asg)
  {
    for i := 0 to |cs|
      invariant forall j | 0 <= j < i :: BtHolds(cons[cs[j]], asg)
    {
      var c := cons[cs[i]];
      var free := Unassigned(c.scope, asg);
      if |free| == 0 {
        UnassignedComplete(c.scope, asg);
        var vals := AssignedValues(c.scope, asg);
        if vals !in c.sat {
          return false;
        }
      }
    }
    return true;
  }

  /** `prop_BT`: prunes nothing; reports failure iff a constraint on `newVar`
      is fully assigned and violated. */
  method PropBT(net: Network, newVar: Option<nat>) returns (ok: bool, pruned: seq<Prune>)
    requires net.Valid()
    requires newVar.Some? ==> newVar.value < |net.curDom|
    ensures pruned == []
    ensures ok <==> (newVar.None? ||
      forall c | c in ConsWith(net.cons, newVar.value) :: BtHolds(net.cons[c], net.assignment))
  {
    pruned := [];
    if newVar.None? {
      return true, [];
    }
    var cs := ConsWith(net.cons, newVar.value);
    ok := BtScan(net.cons, net.assignment, cs);
  }

  /** A solution extending the assignment passes every BT test, so a BT
      failure means no solution extends the current assignment. */
  lemma SolutionPassesBt(cons: seq<Constraint<nat>>, asg: seq<Option<int>>, s: seq<int>, i: nat)
    requires WellFormed(cons, |asg|) && i < |cons|
    requires IsSolution(cons, s) && Agrees(s, asg)
    ensures BtHolds(cons[i], asg)
  {
    var scope := cons[i].scope;
    UnassignedComplete(scope, asg);
    if |Unassigned(scope, asg)| == 0 {
      assert AssignedTuple(scope, asg) == Project(s, scope);
    }
  }

  // ---------------------------------------------------------------------
  // Forward checking

  /** FC applies to a constraint with exactly one unassigned variable. */
  predicate FcApplies(c: Constraint<nat>, asg: seq<Option<int>>)
    requires ScopeIn(c.scope, |asg|)
  {
    |Unassigned(c.scope, asg)| == 1
  }

  /** The one unassigned variable of a constraint FC applies to. */
  function FcTarget(c: Constraint<nat>, asg: seq<Option<int>>): (t: nat)
    requires ScopeIn(c.scope, |asg|) && FcApplies(c, asg)
    ensures t in c.scope && t < |asg| && asg[t].None?
    ensures AssignedExcept(c.scope, asg, t)
  {
    UnassignedComplete(c.scope, asg);
    Unassigned(c.scope, asg)[0]
  }

  /** Constraint `c` rejects t = v: FC applies to it with target t, and the
      scope tuple with v for t and assigned values elsewhere fails `check`. */
  predicate FcRejectsBy(cons: seq<Constraint<nat>>, asg: seq<Option<int>>, c: nat, t: nat, v: int)
    requires WellFormed(cons, |asg|)
  {
    c < |cons| && FcApplies(cons[c], asg) && FcTarget(cons[c], asg) == t &&
    !Check(cons[c], Instantiate(cons[c].scope, asg, t, v))
  }

  /** Some working constraint rejects t = v. */
  ghost predicate FcRejects(cons: seq<Constraint<nat>>, asg: seq<Option<int>>, work: seq<nat>, t: nat, v: int)
    requires WellFormed(cons, |asg|)
  {
    exists c :: c in work && FcRejectsBy(cons, asg, c, t, v)
  }

  /** The (constraint, target) list FC builds from the working constraints. */
  function FcPairs(cons: seq<Constraint<nat>>, asg: seq<Option<int>>, work: seq<nat>): (r: seq<(nat, nat)>)
    requires WellFormed(cons, |asg|)
    requires forall k | 0 <= k < |work| :: work[k] < |cons|
    ensures forall j | 0 <= j < |r| ::
      r[j].0 in work && r[j].0 < |cons| && FcApplies(cons[r[j].0], asg) && r[j].1 == FcTarget(cons[r[j].0], asg)
  {
    if work == [] then []
    else
      var c := work[|work| - 1];
      FcPairs(cons, asg, work[..|work| - 1]) +
      (if FcApplies(cons[c], asg) then [(c, FcTarget(cons[c], asg))] else [])
  }

  /** Every working constraint FC applies to is listed with its target. */
  lemma {:induction false} FcPairsComplete(cons: seq<Constraint<nat>>, asg: seq<Option<int>>, work: seq<nat>, c: nat)
    requires WellFormed(cons, |asg|)
    requires forall k | 0 <= k < |work| :: work[k] < |cons|
    requires c in work && c < |cons| && FcApplies(cons[c], asg)
    ensures (c, FcTarget(cons[c], asg)) in FcPairs(cons, asg, work)
  {
    var init := work[..|work| - 1];
    if c != work[|work| - 1] {
      assert c in init;
      FcPairsComplete(cons, asg, init, c);
    }
  }

  /** Every current value of the target of pair `p` passes the pair's check. */
  ghost predicate FcDone(cons: seq<Constraint<nat>>, asg: seq<Option<int>>, p: (nat, nat), dom: seq<set<int>>)
    requires WellFormed(cons, |asg|) && |dom| == |asg|
    requires p.0 < |cons| && FcApplies(cons[p.0], asg) && p.1 == FcTarget(cons[p.0], asg)
  {
    forall v | v in dom[p.1] :: Check(cons[p.0], Instantiate(cons[p.0].scope, asg, p.1, v))
  }

  /** Builds the scope tuple with `v` for `t` and assigned values elsewhere. */
  method SubstitutedValues(scope: seq<nat>, asg: seq<Option<int>>, t: nat, v: int) returns (tuple: seq<int>)
    requires ScopeIn(scope, |asg|) && AssignedExcept(scope, asg, t)
    ensures |tuple| == |scope|
    ensures forall k | 0 <= k < |scope| ::
      (scope[k] == t ==> tuple[k] == v) && (scope[k] != t ==> Some(tuple[k]) == asg[scope[k]])
  {
    tuple := [];
    for k := 0 to |scope|
      invariant |tuple| == k
      invariant forall j | 0 <= j < k ::
        (scope[j] == t ==> tuple[j] == v) && (scope[j] != t ==> Some(tuple[j]) == asg[scope[j]])
    {
      if scope[k] != t {
        tuple := tuple + [asg[scope[k]].value];
      } else {
        tuple := tuple + [v];
      }
    }
  }

  /** A solution extending the assignment passes the FC test of every
      constraint at the value it gives the target. */
  lemma SolutionPassesFc(cons: seq<Constraint<nat>>, asg: seq<Option<int>>, c: nat, t: nat, s: seq<int>)
    requires WellFormed(cons, |asg|) && c < |cons| && t < |asg|
    requires AssignedExcept(cons[c].scope, asg, t)
    requires IsSolution(cons, s) && Agrees(s, asg)
    ensures Check(cons[c], Instantiate(cons[c].scope, asg, t, s[t]))
  {
    assert Instantiate(cons[c].scope, asg, t, s[t]) == Project(s, cons[c].scope);
  }

  /** A value FC rejects belongs to no solution extending the assignment. */
  lemma FcRejectionSound(cons: seq<Constraint<nat>>, asg: seq<Option<int>>, c: nat, t: nat, v: int, s: seq<int>)
    requires WellFormed(cons, |asg|) && FcRejectsBy(cons, asg, c, t, v)
    requires IsSolution(cons, s) && Agrees(s, asg)
    ensures s[t] != v
  {
    SolutionPassesFc(cons, asg, c, t, s);
  }

  /** The prune list of FC so far: a valid trail from `D0` to `dom`, each
      record justified by the working constraint at the same place in `why`. */
  ghost predicate FcTrail(cons: seq<Constraint<nat>>, asg: seq<Option<int>>, work: seq<nat>,
                          D0: seq<set<int>>, dom: seq<set<int>>, pruned: seq<Prune>, why: seq<nat>)
    requires WellFormed(cons, |asg|)
  {
    ValidTrail(D0, pruned) && dom == ApplyPrunes(D0, pruned) && |why| == |pruned| &&
    forall i | 0 <= i < |pruned| :: why[i] in work && FcRejectsBy(cons, asg, why[i], pruned[i].0, pruned[i].1)
  }

  /** Every record of a justified FC trail is rejected by a working constraint. */
  lemma FcTrailRejects(cons: seq<Constraint<nat>>, asg: seq<Option<int>>, work: seq<nat>,
                       D0: seq<set<int>>, dom: seq<set<int>>, pruned: seq<Prune>, why: seq<nat>)
    requires WellFormed(cons, |asg|) && FcTrail(cons, asg, work, D0, dom, pruned, why)
    ensures forall i | 0 <= i < |pruned| :: FcRejects(cons, asg, work, pruned[i].0, pruned[i].1)
  {
    forall i | 0 <= i < |pruned|
      ensures FcRejects(cons, asg, work, pruned[i].0, pruned[i].1)
    {
      assert why[i] in work && FcRejectsBy(cons, asg, why[i], pruned[i].0, pruned[i].1);
    }
  }

  /** FC prunes only values no solution extending the assignment takes, so
      every such solution within the old domains stays within the new ones. */
  lemma FcTrailSound(cons: seq<Constraint<nat>>, asg: seq<Option<int>>, work: seq<nat>,
                     D0: seq<set<int>>, dom: seq<set<int>>, pruned: seq<Prune>, why: seq<nat>, s: seq<int>)
    requires WellFormed(cons, |asg|) && FcTrail(cons, asg, work, D0, dom, pruned, why)
    requires IsSolution(cons, s) && Agrees(s, asg) && Within(s, D0)
    ensures Within(s, dom)
  {
    forall y | 0 <= y < |s|
      ensures s[y] in dom[y]
    {
      ApplyPrunesAt(D0, pruned, y);
      if s[y] in Removed(pruned, y) {
        var i :| 0 <= i < |pruned| && pruned[i].0 == y && pruned[i].1 == s[y];
        FcRejectionSound(cons, asg, why[i], y, s[y], s);
      }
    }
  }

  /** Once every pair is done, FC has pruned exactly the values of the old
      domains that some working constraint rejects. */
  lemma FcComplete(cons: seq<Constraint<nat>>, asg: seq<Option<int>>, work: seq<nat>,
                   D0: seq<set<int>>, dom: seq<set<int>>, pruned: seq<Prune>, why: seq<nat>)
    requires WellFormed(cons, |asg|) && |D0| == |asg|
    requires forall k | 0 <= k < |work| :: work[k] < |cons|
    requires FcTrail(cons, asg, work, D0, dom, pruned, why)
    requires forall p | p in FcPairs(cons, asg, work) :: FcDone(cons, asg, p, dom)
    ensures forall t, v | 0 <= t < |dom| ::
      (v in D0[t] && FcRejects(cons, asg, work, t, v)) <==> (t, v) in pruned
  {
    ValidTrailIff(D0, pruned);
    FcTrailRejects(cons, asg, work, D0, dom, pruned, why);
    forall t, v | 0 <= t < |dom| && v in D0[t] && FcRejects(cons, asg, work, t, v)
      ensures (t, v) in pruned
    {
      var c :| c in work && FcRejectsBy(cons, asg, c, t, v);
      FcPairsComplete(cons, asg, work, c);
      ApplyPrunesAt(D0, pruned, t);
      RemovedHas(pruned, (t, v));
    }
    forall t, v | 0 <= t < |dom| && (t, v) in pruned
      ensures v in D0[t] && FcRejects(cons, asg, work, t, v)
    {
      var i :| 0 <= i < |pruned| && pruned[i] == (t, v);
    }
  }

  /** Collects, in order, the working constraints with exactly one
      unassigned variable, each with that variable. */
  method FcCollect(cons: seq<Constraint<nat>>, asg: seq<Option<int>>, work: seq<nat>) returns (single: seq<(nat, nat)>)
    requires WellFormed(cons, |asg|)
    requires forall k | 0 <= k < |work| :: work[k] < |cons|
    ensures single == FcPairs(cons, asg, work)
  {
    single := [];
    for i := 0 to |work|
      invariant single == FcPairs(cons, asg, work[..i])
    {
      assert work[..i + 1][..i] == work[..i];
      var c := work[i];
      var unassigned := Unassigned(cons[c].scope, asg);
      if |unassigned| == 1 {
        single := single + [(c, unassigned[0])];
      }
    }
    assert work[..|work|] == work;
  }

  /** Pruning a value that a working constraint rejects extends an FC
      trail. */
  lemma FcTrailSnoc(cons: seq<Constraint<nat>>, asg: seq<Option<int>>, work: seq<nat>, D0: seq<set<int>>,
                    dom: seq<set<int>>, pruned: seq<Prune>, why: seq<nat>, c: nat, t: nat, v: int)
    requires WellFormed(cons, |asg|) && FcTrail(cons, asg, work, D0, dom, pruned, why)
    requires c in work && FcRejectsBy(cons, asg, c, t, v) && t < |dom| && v in dom[t]
    ensures FcTrail(cons, asg, work, D0, dom[t := dom[t] - {v}], pruned + [(t, v)], why + [c])
  {
    ValidTrailIff(D0, pruned);
    ApplyPrunesAt(D0, pruned, t);
    RemovedHas(pruned, (t, v));
    var pruned', why' := pruned + [(t, v)], why + [c];
    assert pruned'[..|pruned|] == pruned;
    assert forall i | 0 <= i < |pruned| :: pruned'[i] == pruned[i] && why'[i] == why[i];
  }

  /** Forward checks one value `v` of the target `t` of constraint `c`:
      prunes it when the scope tuple with `v` for `t` fails the constraint,
      and reports whether that emptied the domain of `t`. */
  method FcCheckValue(net: Network, c: nat, t: nat, v: int, pruned: seq<Prune>,
                      ghost work: seq<nat>, ghost D0: seq<set<int>>, ghost why: seq<nat>)
    returns (wiped: bool, pruned': seq<Prune>, ghost why': seq<nat>)
    requires net.Valid() && |D0| == |net.curDom|
    requires c in work && c < |net.cons| && FcApplies(net.cons[c], net.assignment)
    requires t == FcTarget(net.cons[c], net.assignment) && v in net.curDom[t]
    requires FcTrail(net.cons, net.assignment, work, D0, net.curDom, pruned, why)
    requires Nonempty(net.curDom, pruned)
    modifies net
    ensures net.Valid() && net.assignment == old(net.assignment)
    ensures FcTrail(net.cons, net.assignment, work, D0, net.curDom, pruned', why')
    ensures Check(net.cons[c], Instantiate(net.cons[c].scope, net.assignment, t, v)) ==>
      !wiped && net.curDom == old(net.curDom) && pruned' == pruned
    ensures !Check(net.cons[c], Instantiate(net.cons[c].scope, net.assignment, t, v)) ==>
      net.curDom == old(net.curDom)[t := old(net.curDom)[t] - {v}]
    ensures wiped ==> WipedOut(net.curDom, pruned')
    ensures !wiped ==> Nonempty(net.curDom, pruned')
  {
    var constraint := net.cons[c];
    var tuple := SubstitutedValues(constraint.scope, net.assignment, t, v);
    assert tuple == Instantiate(constraint.scope, net.assignment, t, v);
    pruned', why', wiped := pruned, why, false;
    if !Check(constraint, tuple) {
      FcTrailSnoc(net.cons, net.assignment, work, D0, net.curDom, pruned, why, c, t, v);
      if net.curDom[t] - {v} != {} {
        NonemptySnoc(net.curDom, pruned, t, v);
      }
      pruned' := pruned + [(t, v)];
      why' := why + [c];
      net.PruneValue(t, v);
      wiped := net.curDom[t] == {};
    }
  }

  /** Part way through forward checking the pair (c, t) from the domains
      `before`: only the domain of t has shrunk, only by values that fail
      `check`, and the values of it already visited (not in `vals`) pass. */
  ghost predicate FcScanned(cons: seq<Constraint<nat>>, asg: seq<Option<int>>, c: nat, t: nat,
                            before: seq<set<int>>, dom: seq<set<int>>, vals: set<int>)
    requires WellFormed(cons, |asg|) && c < |cons| && FcApplies(cons[c], asg) && t == FcTarget(cons[c], asg)
    requires |before| == |asg| && |dom| == |asg|
  {
    dom[t] <= before[t] &&
    (forall y | 0 <= y < |dom| && y != t :: dom[y] == before[y]) &&
    (forall v | v in before[t] && v !in dom[t] :: !Check(cons[c], Instantiate(cons[c].scope, asg, t, v))) &&
    (forall v | v in dom[t] && v !in vals :: Check(cons[c], Instantiate(cons[c].scope, asg, t, v)))
  }

  /** One step of forward checking a pair: visits one more value of the
      snapshot. */
  method FcScanStep(net: Network, c: nat, t: nat, vals: set<int>, pruned: seq<Prune>,
                    ghost work: seq<nat>, ghost D0: seq<set<int>>, ghost why: seq<nat>, ghost before: seq<set<int>>)
    returns (wiped: bool, vals': set<int>, pruned': seq<Prune>, ghost why': seq<nat>)
    requires net.Valid() && |D0| == |net.curDom| && |before| == |net.curDom|
    requires c in work && c < |net.cons| && FcApplies(net.cons[c], net.assignment)
    requires t == FcTarget(net.cons[c], net.assignment)
    requires FcTrail(net.cons, net.assignment, work, D0, net.curDom, pruned, why)
    requires Nonempty(net.curDom, pruned)
    requires vals != {} && vals <= net.curDom[t]
    requires FcScanned(net.cons, net.assignment, c, t, before, net.curDom, vals)
    modifies net
    ensures net.Valid() && net.assignment == old(net.assignment)
    ensures FcTrail(net.cons, net.assignment, work, D0, net.curDom, pruned', why')
    ensures vals' < vals
    ensures FcScanned(net.cons, net.assignment, c, t, before, net.curDom, vals')
    ensures !wiped ==> Nonempty(net.curDom, pruned') && vals' <= net.curDom[t]
    ensures wiped ==> WipedOut(net.curDom, pruned')
  {
    var v := Pick(vals);
    vals' := vals - {v};
    wiped, pruned', why' := FcCheckValue(net, c, t, v, pruned, work, D0, why);
  }

  /** Forward checks one (constraint, unassigned variable) pair: goes over a
      snapshot of the target's current domain, stopping when it empties. */
  method FcCheckPair(net: Network, c: nat, t: nat, pruned: seq<Prune>,
                     ghost work: seq<nat>, ghost D0: seq<set<int>>, ghost why: seq<nat>)
    returns (wiped: bool, pruned': seq<Prune>, ghost why': seq<nat>)
    requires net.Valid() && |D0| == |net.curDom|
    requires c in work && c < |net.cons| && FcApplies(net.cons[c], net.assignment)
    requires t == FcTarget(net.cons[c], net.assignment)
    requires FcTrail(net.cons, net.assignment, work, D0, net.curDom, pruned, why)
    requires Nonempty(net.curDom, pruned)
    modifies net
    ensures net.Valid() && net.assignment == old(net.assignment)
    ensures FcTrail(net.cons, net.assignment, work, D0, net.curDom, pruned', why')
    ensures forall y | 0 <= y < |net.curDom| :: net.curDom[y] <= old(net.curDom)[y]
    ensures forall y | 0 <= y < |net.curDom| && y != t :: net.curDom[y] == old(net.curDom)[y]
    ensures !wiped ==> forall v | v in old(net.curDom)[t] ::
      v in net.curDom[t] <==> Check(net.cons[c], Instantiate(net.cons[c].scope, net.assignment, t, v))
    ensures !wiped ==> Nonempty(net.curDom, pruned') && FcDone(net.cons, net.assignment, (c, t), net.curDom)
    ensures wiped ==> WipedOut(net.curDom, pruned')
  {
    ghost var asg := net.assignment;
    var vals := net.curDom[t];
    pruned', why', wiped := pruned, why, false;
    while vals != {}
      invariant net.Valid() && net.assignment == asg
      invariant FcTrail(net.cons, asg, work, D0, net.curDom, pruned', why')
      invariant Nonempty(net.curDom, pruned') && vals <= net.curDom[t]
      invariant FcScanned(net.cons, asg, c, t, old(net.curDom), net.curDom, vals)
      decreases vals
    {
      wiped, vals, pruned', why' := FcScanStep(net, c, t, vals, pruned', work, D0, why', old(net.curDom));
      if wiped {
        return;
      }
    }
  }

  /** What a run of FC establishes: every record is rejected by a working
      constraint; no solution extending the assignment is cut off; and, when
      every pair was checked, exactly the rejected values are gone. */
  lemma FcOutcome(cons: seq<Constraint<nat>>, asg: seq<Option<int>>, work: seq<nat>,
                  D0: seq<set<int>>, dom: seq<set<int>>, pruned: seq<Prune>, why: seq<nat>, ok: bool)
    requires WellFormed(cons, |asg|) && |D0| == |asg|
    requires forall k | 0 <= k < |work| :: work[k] < |cons|
    requires FcTrail(cons, asg, work, D0, dom, pruned, why)
    requires ok ==> forall p | p in FcPairs(cons, asg, work) :: FcDone(cons, asg, p, dom)
    ensures forall i | 0 <= i < |pruned| :: FcRejects(cons, asg, work, pruned[i].0, pruned[i].1)
    ensures ok ==> forall t, v | 0 <= t < |dom| ::
      (v in D0[t] && FcRejects(cons, asg, work, t, v)) <==> (t, v) in pruned
    ensures forall s | IsSolution(cons, s) && Agrees(s, asg) && Within(s, D0) :: Within(s, dom)
  {
    FcTrailRejects(cons, asg, work, D0, dom, pruned, why);
    forall s | IsSolution(cons, s) && Agrees(s, asg) && Within(s, D0)
      ensures Within(s, dom)
    {
      FcTrailSound(cons, asg, work, D0, dom, pruned, why, s);
    }
    if ok {
      FcComplete(cons, asg, work, D0, dom, pruned, why);
    }
  }

  /** Checked pairs stay checked as domains shrink. */
  lemma FcDoneShrinks(cons: seq<Constraint<nat>>, asg: seq<Option<int>>, ps: seq<(nat, nat)>, lo: nat,
                      big: seq<set<int>>, small: seq<set<int>>)
    requires WellFormed(cons, |asg|) && |big| == |asg| && |small| == |asg|
    requires forall j | 0 <= j < |ps| ::
      ps[j].0 < |cons| && FcApplies(cons[ps[j].0], asg) && ps[j].1 == FcTarget(cons[ps[j].0], asg)
    requires forall y | 0 <= y < |small| :: small[y] <= big[y]
    requires forall j | lo <= j < |ps| :: FcDone(cons, asg, ps[j], big)
    ensures forall j | lo <= j < |ps| :: FcDone(cons, asg, ps[j], small)
  {
    forall j | lo <= j < |ps|
      ensures FcDone(cons, asg, ps[j], small)
    {
      assert FcDone(cons, asg, ps[j], big);
      assert small[ps[j].1] <= big[ps[j].1];
    }
  }

  /** Forward checks the pair at `j` of `single`; unless a domain is wiped
      out, it and every later pair are then checked. */
  method FcStep(net: Network, single: seq<(nat, nat)>, j: nat, pruned: seq<Prune>,
                ghost work: seq<nat>, ghost D0: seq<set<int>>, ghost why: seq<nat>)
    returns (wiped: bool, pruned': seq<Prune>, ghost why': seq<nat>)
    requires net.Valid() && |D0| == |net.curDom| && j < |single|
    requires forall i | 0 <= i < |single| ::
      single[i].0 in work && single[i].0 < |net.cons| && FcApplies(net.cons[single[i].0], net.assignment) &&
      single[i].1 == FcTarget(net.cons[single[i].0], net.assignment)
    requires FcTrail(net.cons, net.assignment, work, D0, net.curDom, pruned, why)
    requires Nonempty(net.curDom, pruned)
    requires forall i | j < i < |single| :: FcDone(net.cons, net.assignment, single[i], net.curDom)
    modifies net
    ensures net.Valid() && net.assignment == old(net.assignment)
    ensures FcTrail(net.cons, net.assignment, work, D0, net.curDom, pruned', why')
    ensures wiped ==> WipedOut(net.curDom, pruned')
    ensures !wiped ==> Nonempty(net.curDom, pruned')
    ensures !wiped ==> forall i | j <= i < |single| :: FcDone(net.cons, net.assignment, single[i], net.curDom)
    ensures var (c, t) := single[j];
      forall y | 0 <= y < |net.curDom| && y != t :: net.curDom[y] == old(net.curDom)[y]
    ensures var (c, t) := single[j];
      t == FcTarget(net.cons[c], net.assignment) &&
      (!wiped ==> forall v | v in old(net.curDom)[t] ::
         v in net.curDom[t] <==> Check(net.cons[c], Instantiate(net.cons[c].scope, net.assignment, t, v)))
  {
    var (c, t) := single[j];
    wiped, pruned', why' := FcCheckPair(net, c, t, pruned, work, D0, why);
    if !wiped {
      FcDoneShrinks(net.cons, net.assignment, single, j + 1, old(net.curDom), net.curDom);
    }
  }

  /** The main loop of FC: takes the pairs from the end of the list and
      forward checks each, stopping at the first domain wipe-out. */
  method FcRun(net: Network, single: seq<(nat, nat)>, ghost work: seq<nat>)
    returns (ok: bool, pruned: seq<Prune>, ghost why: seq<nat>)
    requires net.Valid()
    requires forall k | 0 <= k < |work| :: work[k] < |net.cons|
    requires forall j | 0 <= j < |single| ::
      single[j].0 in work && single[j].0 < |net.cons| && FcApplies(net.cons[single[j].0], net.assignment) &&
      single[j].1 == FcTarget(net.cons[single[j].0], net.assignment)
    modifies net
    ensures net.Valid() && net.assignment == old(net.assignment)
    ensures FcTrail(net.cons, net.assignment, work, old(net.curDom), net.curDom, pruned, why)
    ensures ok ==> Nonempty(net.curDom, pruned)
    ensures ok ==> forall j | 0 <= j < |single| :: FcDone(net.cons, net.assignment, single[j], net.curDom)
    ensures !ok ==> WipedOut(net.curDom, pruned)
  {
    ghost var D0 := net.curDom;
    ghost var asg := net.assignment;
    var rest := single;
    why, pruned := [], [];
    while rest != []
      invariant net.Valid() && net.assignment == asg
      invariant |rest| <= |single| && rest == single[..|rest|]
      invariant FcTrail(net.cons, asg, work, D0, net.curDom, pruned, why)
      invariant Nonempty(net.curDom, pruned)
      invariant forall j | |rest| <= j < |single| :: FcDone(net.cons, asg, single[j], net.curDom)
    {
      var wiped;
      wiped, pruned, why := FcStep(net, single, |rest| - 1, pruned, work, D0, why);
      rest := rest[..|rest| - 1];
      if wiped {
        return false, pruned, why;
      }
    }
    return true, pruned, why;
  }

  /** `prop_FC`: forward checks the working constraints that have exactly one
      unassigned variable. */
  method PropFC(net: Network, newVar: Option<nat>) returns (ok: bool, pruned: seq<Prune>)
    requires net.Valid()
    requires newVar.Some? ==> newVar.value < |net.curDom|
    modifies net
    ensures net.Valid() && net.assignment == old(net.assignment)
    ensures ValidTrail(old(net.curDom), pruned) && net.curDom == ApplyPrunes(old(net.curDom), pruned)
    ensures forall i | 0 <= i < |pruned| ::
      FcRejects(net.cons, net.assignment, Working(net.cons, newVar), pruned[i].0, pruned[i].1)
    ensures ok ==> forall t, v | 0 <= t < |net.curDom| ::
      (v in old(net.curDom)[t] && FcRejects(net.cons, net.assignment, Working(net.cons, newVar), t, v)) <==>
      (t, v) in pruned
    ensures forall s | IsSolution(net.cons, s) && Agrees(s, net.assignment) && Within(s, old(net.curDom)) ::
      Within(s, net.curDom)
    ensures ok ==> Nonempty(net.curDom, pruned)
    ensures !ok ==> WipedOut(net.curDom, pruned)
  {
    var work := Working(net.cons, newVar);
    var single := FcCollect(net.cons, net.assignment, work);
    ghost var why;
    ok, pruned, why := FcRun(net, single, work);
    if ok {
      forall p | p in single
        ensures FcDone(net.cons, net.assignment, p, net.curDom)
      {
        var j :| 0 <= j < |single| && single[j] == p;
      }
    }
    FcOutcome(net.cons, net.assignment, work, old(net.curDom), net.curDom, pruned, why, ok);
  }

  // ---------------------------------------------------------------------
  // Generalized arc consistency

  /** Some constraint among `from` has x in its scope and gives x = v no
      support in the domains `dom`. */
  ghost predicate GacRejects(cons: seq<Constraint<nat>>, from: set<nat>, dom: seq<set<int>>, x: nat, v: int)
    requires WellFormed(cons, |dom|)
  {
    exists c :: c in from && c < |cons| && x in cons[c].scope && !HasSupport(cons[c], dom, x, v)
  }

  /** Supports survive the growth of domains, so a value without support
      stays without support as domains shrink. */
  lemma SupportMonotone(c: Constraint<nat>, big: seq<set<int>>, small: seq<set<int>>, x: nat, a: int)
    requires ScopeIn(c.scope, |big|) && |small| == |big|
    requires forall y | 0 <= y < |big| :: small[y] <= big[y]
    requires HasSupport(c, small, x, a)
    ensures HasSupport(c, big, x, a)
  {
    var t :| t in c.sat && IsSupport(c, small, x, a, t);
    assert IsSupport(c, big, x, a, t);
  }

  /** Arc consistency of a constraint depends only on its scope's domains. */
  lemma GacFrame(c: Constraint<nat>, d: seq<set<int>>, e: seq<set<int>>)
    requires ScopeIn(c.scope, |d|) && |e| == |d|
    requires forall k | 0 <= k < |c.scope| :: d[c.scope[k]] == e[c.scope[k]]
    requires Gac(c, d)
    ensures Gac(c, e)
  {
    forall k, v | 0 <= k < |c.scope| && v in e[c.scope[k]]
      ensures HasSupport(c, e, c.scope[k], v)
    {
      assert GacAt(c, d, k);
      var t :| t in c.sat && IsSupport(c, d, c.scope[k], v, t);
      assert IsSupport(c, e, c.scope[k], v, t);
    }
  }

  /** Every value a solution takes within the domains is supported by every
      constraint on its variable. */
  lemma SolutionSupports(cons: seq<Constraint<nat>>, s: seq<int>, dom: seq<set<int>>, c: nat, x: nat)
    requires WellFormed(cons, |dom|) && c < |cons| && x in cons[c].scope
    requires IsSolution(cons, s) && Within(s, dom)
    ensures HasSupport(cons[c], dom, x, s[x])
  {
    var t := Project(s, cons[c].scope);
    assert IsSupport(cons[c], dom, x, s[x], t);
  }

  /** Adds to the worklist every constraint of `ws` not already pending. */
  method PushPending(queue: seq<nat>, ws: seq<nat>) returns (r: seq<nat>)
    ensures |queue| <= |r| && r[..|queue|] == queue
    ensures forall q :: q in r <==> q in queue || q in ws
    ensures Distinct(queue) ==> Distinct(r)
  {
    r := queue;
    for j := 0 to |ws|
      invariant |queue| <= |r| && r[..|queue|] == queue
      invariant forall q :: q in r <==> q in queue || q in ws[..j]
      invariant Distinct(queue) ==> Distinct(r)
    {
      assert ws[..j + 1] == ws[..j] + [ws[j]];
      if ws[j] !in r {
        r := r + [ws[j]];
      }
    }
    assert ws[..|ws|] == ws;
  }

  /** The constraints that have entered the worklist once the prunes
      `pruned` are made: the working constraints, and after each prune those
      on the pruned variable. */
  ghost function Reached(cons: seq<Constraint<nat>>, work: seq<nat>, pruned: seq<Prune>): set<nat>
  {
    if pruned == [] then set c | c in work
    else
      var x := pruned[|pruned| - 1].0;
      Reached(cons, work, pruned[..|pruned| - 1]) + set c | c in ConsWith(cons, x)
  }

  /** A constraint has reached the worklist iff it is a working constraint
      or has an already pruned variable in its scope. */
  lemma {:induction false} ReachedMembers(cons: seq<Constraint<nat>>, work: seq<nat>, pruned: seq<Prune>, c: nat)
    ensures c in Reached(cons, work, pruned) <==>
      c in work || exists j :: 0 <= j < |pruned| && c < |cons| && pruned[j].0 in cons[c].scope
  {
    if pruned != [] {
      var init, x := pruned[..|pruned| - 1], pruned[|pruned| - 1].0;
      ReachedMembers(cons, work, init, c);
      if c < |cons| && x in cons[c].scope {
        ConsWithComplete(cons, x, c);
      }
      if exists j :: 0 <= j < |pruned| && c < |cons| && pruned[j].0 in cons[c].scope {
        var j :| 0 <= j < |pruned| && c < |cons| && pruned[j].0 in cons[c].scope;
        if j < |pruned| - 1 {
          assert init[j] == pruned[j];
        }
      }
      if exists j :: 0 <= j < |init| && c < |cons| && init[j].0 in cons[c].scope {
        var j :| 0 <= j < |init| && c < |cons| && init[j].0 in cons[c].scope;
        assert pruned[j] == init[j];
      }
    }
  }

  /** The prune `r`, made after the prunes `before`, is justified by
      constraint `c`: `c` had reached the worklist by then, has the pruned
      variable in its scope, and gave the pruned value no support in the
      domains of that moment, `D0` less the earlier prunes. */
  ghost predicate PruneJustified(cons: seq<Constraint<nat>>, work: seq<nat>, D0: seq<set<int>>,
                                 before: seq<Prune>, r: Prune, c: nat)
    requires WellFormed(cons, |D0|)
  {
    c in Reached(cons, work, before) && c < |cons| && r.0 in cons[c].scope &&
    !HasSupport(cons[c], ApplyPrunes(D0, before), r.0, r.1)
  }

  /** Every prune record is justified. */
  ghost predicate Justified(cons: seq<Constraint<nat>>, work: seq<nat>, D0: seq<set<int>>, pruned: seq<Prune>, why: seq<nat>)
    requires WellFormed(cons, |D0|)
    decreases |pruned|
  {
    |why| == |pruned| &&
    (pruned != [] ==>
      var n := |pruned| - 1;
      Justified(cons, work, D0, pruned[..n], why[..n]) && PruneJustified(cons, work, D0, pruned[..n], pruned[n], why[n]))
  }

  /** Record i of a justified list was justified, when it was made, by a
      constraint reached before it. */
  lemma {:induction false} JustifiedAt(cons: seq<Constraint<nat>>, work: seq<nat>, D0: seq<set<int>>,
                                       pruned: seq<Prune>, why: seq<nat>, i: nat)
    requires WellFormed(cons, |D0|)
    requires Justified(cons, work, D0, pruned, why) && i < |pruned|
    ensures PruneJustified(cons, work, D0, pruned[..i], pruned[i], why[i])
    decreases |pruned|
  {
    var n := |pruned| - 1;
    var p, w := pruned[..n], why[..n];
    if i < n {
      assert p[..i] == pruned[..i] && p[i] == pruned[i] && w[i] == why[i];
      JustifiedAt(cons, work, D0, p, w, i);
    } else {
      assert p == pruned[..i];
    }
  }

  /** `seen` is the set of constraints that have reached the worklist, and
      each prune is justified by a constraint that had reached it before
      that prune. */
  ghost predicate GacReach(cons: seq<Constraint<nat>>, work: seq<nat>, D0: seq<set<int>>, pruned: seq<Prune>,
                           why: seq<nat>, seen: set<nat>)
    requires WellFormed(cons, |D0|)
  {
    seen == Reached(cons, work, pruned) && Justified(cons, work, D0, pruned, why)
  }

  /** A prune justified by a constraint in `seen` adds the constraints on the
      pruned variable to `seen`. */
  lemma ReachedStep(cons: seq<Constraint<nat>>, work: seq<nat>, D0: seq<set<int>>, pruned: seq<Prune>, why: seq<nat>,
                    seen: set<nat>, c: nat, x: nat, v: int)
    requires WellFormed(cons, |D0|)
    requires GacReach(cons, work, D0, pruned, why, seen) && c in seen
    requires c < |cons| && x in cons[c].scope && !HasSupport(cons[c], ApplyPrunes(D0, pruned), x, v)
    ensures GacReach(cons, work, D0, pruned + [(x, v)], why + [c], seen + set c' | c' in ConsWith(cons, x))
  {
    var pruned', why' := pruned + [(x, v)], why + [c];
    assert pruned'[..|pruned|] == pruned;
    assert why'[..|why|] == why;
  }

  /** The state GAC keeps between steps. The prune list is a valid trail
      from `D0` to `dom`; each record's variable lies in the scope of the
      constraint at the same place in `why`, which gives it no support in
      `dom`; no solution within `D0` is cut off. `seen` holds every
      constraint that has been on the worklist: the working constraints and
      those on a pruned variable. While `settled` (every working constraint
      was arc consistent at the start) nothing has been pruned. */
  ghost predicate GacState(cons: seq<Constraint<nat>>, work: seq<nat>, settled: bool, D0: seq<set<int>>,
                           dom: seq<set<int>>, pruned: seq<Prune>, why: seq<nat>, queue: seq<nat>, seen: set<nat>)
    requires WellFormed(cons, |D0|)
  {
    ValidTrail(D0, pruned) && dom == ApplyPrunes(D0, pruned) && |why| == |pruned| &&
    (forall i | 0 <= i < |pruned| :: why[i] < |cons| && pruned[i].0 in cons[why[i]].scope &&
      !HasSupport(cons[why[i]], dom, pruned[i].0, pruned[i].1)) &&
    (forall s | IsSolution(cons, s) && Within(s, D0) :: Within(s, dom)) &&
    (forall c | c in seen :: c < |cons|) &&
    (forall c | c in work :: c in seen) &&
    (forall i, c | 0 <= i < |pruned| && c in ConsWith(cons, pruned[i].0) :: c in seen) &&
    (forall c | c in queue :: c in seen) &&
    (settled ==> pruned == [] && forall c | c in queue :: c in work)
  }

  /** Every constraint seen and no longer pending, other than `cur`, is
      arc consistent in `dom`. */
  ghost predicate GacSettled(cons: seq<Constraint<nat>>, dom: seq<set<int>>, seen: set<nat>, queue: seq<nat>, cur: int)
    requires WellFormed(cons, |dom|)
  {
    forall c: nat | c in seen && c !in queue && c != cur :: c < |cons| && Gac(cons[c], dom)
  }

  /** A constraint that is arc consistent supports every current value of
      each of its scope variables. */
  lemma GacSupports(c: Constraint<nat>, dom: seq<set<int>>, k: nat, v: int)
    requires ScopeIn(c.scope, |dom|) && k < |c.scope| && Gac(c, dom)
    requires v in dom[c.scope[k]]
    ensures HasSupport(c, dom, c.scope[k], v)
  {
    assert GacAt(c, dom, k);
  }

  /** Pruning x = v, which `cons[c]` gives no support, keeps the trail valid
      and justified, and keeps every solution. */
  lemma GacPruneStep(cons: seq<Constraint<nat>>, work: seq<nat>, D0: seq<set<int>>, dom: seq<set<int>>,
                     pruned: seq<Prune>, why: seq<nat>, queue: seq<nat>, seen: set<nat>, c: nat, k: nat, v: int)
    requires WellFormed(cons, |D0|)
    requires GacState(cons, work, false, D0, dom, pruned, why, queue, seen)
    requires c < |cons| && k < |cons[c].scope| && v in dom[cons[c].scope[k]]
    requires !HasSupport(cons[c], dom, cons[c].scope[k], v)
    ensures GacState(cons, work, false, D0, dom[cons[c].scope[k] := dom[cons[c].scope[k]] - {v}],
                     pruned + [(cons[c].scope[k], v)], why + [c], queue,
                     seen + set c' | c' in ConsWith(cons, cons[c].scope[k]))
  {
    var x := cons[c].scope[k];
    var dom' := dom[x := dom[x] - {v}];
    var pruned' := pruned + [(x, v)];
    var why' := why + [c];
    TrailSnoc(D0, pruned, x, v);
    forall i | 0 <= i < |pruned'|
      ensures !HasSupport(cons[why'[i]], dom', pruned'[i].0, pruned'[i].1)
    {
      if HasSupport(cons[why'[i]], dom', pruned'[i].0, pruned'[i].1) {
        SupportMonotone(cons[why'[i]], dom, dom', pruned'[i].0, pruned'[i].1);
      }
    }
    forall s | IsSolution(cons, s) && Within(s, D0)
      ensures Within(s, dom')
    {
      SolutionSupports(cons, s, dom, c, x);
    }
    assert forall i | 0 <= i < |pruned| :: pruned'[i] == pruned[i];
  }

  /** Pushing the constraints on the pruned variable keeps the seen,
      pending and arc consistent constraints apart. */
  lemma GacPushStep(cons: seq<Constraint<nat>>, work: seq<nat>, D0: seq<set<int>>, dom: seq<set<int>>,
                    pruned: seq<Prune>, why: seq<nat>, queue: seq<nat>, queue': seq<nat>, seen: set<nat>,
                    c: nat, x: nat, v: int)
    requires WellFormed(cons, |D0|) && |dom| == |D0| && x < |dom|
    requires forall q :: q in queue' <==> q in queue || q in ConsWith(cons, x)
    requires GacState(cons, work, false, D0, dom[x := dom[x] - {v}], pruned, why, queue,
                      seen + set c' | c' in ConsWith(cons, x))
    requires GacSettled(cons, dom, seen, queue, c)
    ensures forall q | 0 <= q < |queue'| :: queue'[q] < |cons|
    ensures GacState(cons, work, false, D0, dom[x := dom[x] - {v}], pruned, why, queue',
                     seen + set c' | c' in ConsWith(cons, x))
    ensures GacSettled(cons, dom[x := dom[x] - {v}], seen + (set c' | c' in ConsWith(cons, x)), queue', c)
  {
    forall q | 0 <= q < |queue'|
      ensures queue'[q] < |cons|
    {
      assert queue'[q] in queue';
    }
    PushSettled(cons, dom, x, v, seen, queue, queue', c);
  }

  /** A constraint seen and not pending after the push does not have x in
      its scope, so the prune of x leaves it arc consistent. */
  lemma PushSettled(cons: seq<Constraint<nat>>, dom: seq<set<int>>, x: nat, v: int,
                    seen: set<nat>, queue: seq<nat>, queue': seq<nat>, c: nat)
    requires WellFormed(cons, |dom|) && x < |dom|
    requires forall q :: q in queue' <==> q in queue || q in ConsWith(cons, x)
    requires forall c' | c' in seen :: c' < |cons|
    requires GacSettled(cons, dom, seen, queue, c)
    ensures GacSettled(cons, dom[x := dom[x] - {v}], seen + (set c' | c' in ConsWith(cons, x)), queue', c)
  {
    var dom' := dom[x := dom[x] - {v}];
    var seen' := seen + set c' | c' in ConsWith(cons, x);
    forall c' | c' in seen' && c' !in queue' && c' != c
      ensures c' < |cons| && Gac(cons[c'], dom')
    {
      if x in cons[c'].scope {
        ConsWithComplete(cons, x, c');
      }
      assert forall j | 0 <= j < |cons[c'].scope| :: cons[c'].scope[j] != x;
      GacFrame(cons[c'], dom, dom');
    }
  }

  /** One step of the revision of `cons[c]`: if x = v, for x the k-th scope
      variable, has no support, prunes it and, unless the domain of x
      empties, pushes the constraints on x that are not pending. */
  method GacReviseValue(net: Network, c: nat, k: nat, v: int, queue: seq<nat>, pruned: seq<Prune>,
                        ghost work: seq<nat>, ghost settled: bool, ghost D0: seq<set<int>>,
                        ghost why: seq<nat>, ghost seen: set<nat>)
    returns (wiped: bool, queue': seq<nat>, pruned': seq<Prune>, ghost why': seq<nat>, ghost seen': set<nat>)
    requires net.Valid() && |D0| == |net.curDom|
    requires c < |net.cons| && c in seen && k < |net.cons[c].scope|
    requires v in net.curDom[net.cons[c].scope[k]]
    requires forall q | 0 <= q < |queue| :: queue[q] < |net.cons|
    requires GacState(net.cons, work, settled, D0, net.curDom, pruned, why, queue, seen)
    requires GacSettled(net.cons, net.curDom, seen, queue, c)
    requires Nonempty(net.curDom, pruned)
    requires settled ==> Gac(net.cons[c], D0)
    requires GacReach(net.cons, work, D0, pruned, why, seen)
    modifies net
    ensures net.Valid() && net.assignment == old(net.assignment)
    ensures forall q | 0 <= q < |queue'| :: queue'[q] < |net.cons|
    ensures GacState(net.cons, work, settled, D0, net.curDom, pruned', why', queue', seen')
    ensures GacReach(net.cons, work, D0, pruned', why', seen')
    ensures c in seen'
    ensures HasSupport(net.cons[c], old(net.curDom), net.cons[c].scope[k], v) ==>
      !wiped && pruned' == pruned && queue' == queue && net.curDom == old(net.curDom)
    ensures !HasSupport(net.cons[c], old(net.curDom), net.cons[c].scope[k], v) ==>
      |pruned'| == |pruned| + 1 && (!wiped ==> c in queue') &&
      net.curDom == old(net.curDom)[net.cons[c].scope[k] := old(net.curDom)[net.cons[c].scope[k]] - {v}]
    ensures !HasSupport(net.cons[c], old(net.curDom), net.cons[c].scope[k], v) && !wiped ==>
      |queue| <= |queue'| && queue'[..|queue|] == queue &&
      forall q :: q in queue' <==> q in queue || q in ConsWith(net.cons, net.cons[c].scope[k])
    ensures forall q | q in queue :: q in queue'
    ensures !wiped ==> GacSettled(net.cons, net.curDom, seen', queue', c)
    ensures wiped ==> WipedOut(net.curDom, pruned')
    ensures !wiped ==> Nonempty(net.curDom, pruned')
  {
    var x := net.cons[c].scope[k];
    wiped, queue', pruned', why', seen' := false, queue, pruned, why, seen;
    if settled {
      GacSupports(net.cons[c], D0, k, v);
    }
    if HasSupport(net.cons[c], net.curDom, x, v) {
      return;
    }
    ghost var before := net.curDom;
    GacPruneStep(net.cons, work, D0, before, pruned, why, queue, seen, c, k, v);
    ReachedStep(net.cons, work, D0, pruned, why, seen, c, x, v);
    pruned' := pruned + [(x, v)];
    why' := why + [c];
    net.PruneValue(x, v);
    var ws := ConsWith(net.cons, x);
    seen' := seen + set c' | c' in ws;
    if net.curDom[x] == {} {
      return true, queue', pruned', why', seen';
    }
    NonemptySnoc(before, pruned, x, v);
    queue' := PushPending(queue, ws);
    ConsWithComplete(net.cons, x, c);
    GacPushStep(net.cons, work, D0, before, pruned', why', queue, queue', seen, c, x, v);
  }

  /** Revises the k-th scope variable of `cons[c]` against a snapshot of its
      current domain. */
  method GacReviseVar(net: Network, c: nat, k: nat, queue: seq<nat>, pruned: seq<Prune>,
                      ghost work: seq<nat>, ghost settled: bool, ghost D0: seq<set<int>>,
                      ghost why: seq<nat>, ghost seen: set<nat>)
    returns (wiped: bool, queue': seq<nat>, pruned': seq<Prune>, ghost why': seq<nat>, ghost seen': set<nat>)
    requires net.Valid() && |D0| == |net.curDom|
    requires c < |net.cons| && c in seen && k < |net.cons[c].scope|
    requires forall q | 0 <= q < |queue| :: queue[q] < |net.cons|
    requires GacState(net.cons, work, settled, D0, net.curDom, pruned, why, queue, seen)
    requires GacSettled(net.cons, net.curDom, seen, queue, c)
    requires Nonempty(net.curDom, pruned)
    requires settled ==> Gac(net.cons[c], D0)
    requires c in queue || forall j | 0 <= j < k :: GacAt(net.cons[c], net.curDom, j)
    requires GacReach(net.cons, work, D0, pruned, why, seen)
    modifies net
    ensures net.Valid() && net.assignment == old(net.assignment)
    ensures forall q | 0 <= q < |queue'| :: queue'[q] < |net.cons|
    ensures GacState(net.cons, work, settled, D0, net.curDom, pruned', why', queue', seen')
    ensures GacReach(net.cons, work, D0, pruned', why', seen')
    ensures c in seen'
    ensures |pruned| <= |pruned'| && (|pruned'| == |pruned| ==> queue' == queue)
    ensures forall q | q in queue :: q in queue'
    ensures wiped ==> WipedOut(net.curDom, pruned')
    ensures !wiped ==> Nonempty(net.curDom, pruned') && GacSettled(net.cons, net.curDom, seen', queue', c)
    ensures !wiped ==> c in queue' || forall j | 0 <= j <= k :: GacAt(net.cons[c], net.curDom, j)
    ensures forall y | 0 <= y < |net.curDom| && y != net.cons[c].scope[k] :: net.curDom[y] == old(net.curDom)[y]
  {
    var x := net.cons[c].scope[k];
    var vals := net.curDom[x];
    wiped, queue', pruned', why', seen' := false, queue, pruned, why, seen;
    while vals != {}
      invariant net.Valid() && net.assignment == old(net.assignment)
      invariant forall q | 0 <= q < |queue'| :: queue'[q] < |net.cons|
      invariant GacState(net.cons, work, settled, D0, net.curDom, pruned', why', queue', seen')
      invariant GacReach(net.cons, work, D0, pruned', why', seen')
      invariant c in seen'
      invariant |pruned| <= |pruned'| && (|pruned'| == |pruned| ==> queue' == queue)
      invariant forall q | q in queue :: q in queue'
      invariant Nonempty(net.curDom, pruned') && GacSettled(net.cons, net.curDom, seen', queue', c)
      invariant Revised(net.cons, net.curDom, c, k, vals, queue')
      invariant forall y | 0 <= y < |net.curDom| && y != x :: net.curDom[y] == old(net.curDom)[y]
      decreases vals
    {
      wiped, vals, queue', pruned', why', seen' := GacReviseVarStep(net, c, k, vals, queue', pruned', work, settled, D0, why', seen');
      if wiped {
        return;
      }
    }
  }

  /** While revising the k-th scope variable x of `cons[c]` with `vals`
      still to visit: either `cons[c]` is pending again, or its first k
      variables are arc consistent and every visited value of x is
      supported. */
  ghost predicate Revised(cons: seq<Constraint<nat>>, dom: seq<set<int>>, c: nat, k: nat, vals: set<int>, queue: seq<nat>)
    requires WellFormed(cons, |dom|) && c < |cons| && k < |cons[c].scope|
  {
    var x := cons[c].scope[k];
    vals <= dom[x] &&
    (c in queue || ((forall j | 0 <= j < k :: GacAt(cons[c], dom, j)) &&
      forall v | v in dom[x] && v !in vals :: HasSupport(cons[c], dom, x, v)))
  }

  /** One value of `GacReviseVar`'s loop: the value is taken from `vals`
      and revised; afterwards it is supported in unchanged domains, or the
      constraint is pending again. */
  method GacReviseVarStep(net: Network, c: nat, k: nat, vals: set<int>, queue: seq<nat>, pruned: seq<Prune>,
                          ghost work: seq<nat>, ghost settled: bool, ghost D0: seq<set<int>>,
                          ghost why: seq<nat>, ghost seen: set<nat>)
    returns (wiped: bool, vals': set<int>, queue': seq<nat>, pruned': seq<Prune>, ghost why': seq<nat>, ghost seen': set<nat>)
    requires net.Valid() && |D0| == |net.curDom|
    requires c < |net.cons| && c in seen && k < |net.cons[c].scope|
    requires vals != {} && Revised(net.cons, net.curDom, c, k, vals, queue)
    requires forall q | 0 <= q < |queue| :: queue[q] < |net.cons|
    requires GacState(net.cons, work, settled, D0, net.curDom, pruned, why, queue, seen)
    requires GacReach(net.cons, work, D0, pruned, why, seen)
    requires GacSettled(net.cons, net.curDom, seen, queue, c)
    requires Nonempty(net.curDom, pruned)
    requires settled ==> Gac(net.cons[c], D0)
    modifies net
    ensures net.Valid() && net.assignment == old(net.assignment)
    ensures forall q | 0 <= q < |queue'| :: queue'[q] < |net.cons|
    ensures GacState(net.cons, work, settled, D0, net.curDom, pruned', why', queue', seen')
    ensures GacReach(net.cons, work, D0, pruned', why', seen')
    ensures c in seen'
    ensures |pruned| <= |pruned'| && (|pruned'| == |pruned| ==> queue' == queue)
    ensures forall q | q in queue :: q in queue'
    ensures wiped ==> WipedOut(net.curDom, pruned')
    ensures !wiped ==> Nonempty(net.curDom, pruned') && GacSettled(net.cons, net.curDom, seen', queue', c)
    ensures vals' < vals
    ensures !wiped ==> Revised(net.cons, net.curDom, c, k, vals', queue')
    ensures forall y | 0 <= y < |net.curDom| && y != net.cons[c].scope[k] :: net.curDom[y] == old(net.curDom)[y]
  {
    var x := net.cons[c].scope[k];
    var v := Pick(vals);
    vals' := vals - {v};
    ghost var before := net.curDom;
    wiped, queue', pruned', why', seen' := GacReviseValue(net, c, k, v, queue, pruned, work, settled, D0, why, seen);
    if !wiped {
      if HasSupport(net.cons[c], before, x, v) {
        assert net.curDom == before && queue' == queue;
      } else {
        assert c in queue';
      }
    }
  }

  /** Revises every scope variable of `cons[c]` in scope order. */
  method GacReviseConstraint(net: Network, c: nat, queue: seq<nat>, pruned: seq<Prune>,
                             ghost work: seq<nat>, ghost settled: bool, ghost D0: seq<set<int>>,
                             ghost why: seq<nat>, ghost seen: set<nat>)
    returns (wiped: bool, queue': seq<nat>, pruned': seq<Prune>, ghost why': seq<nat>, ghost seen': set<nat>)
    requires net.Valid() && |D0| == |net.curDom|
    requires c < |net.cons| && c in seen
    requires forall q | 0 <= q < |queue| :: queue[q] < |net.cons|
    requires GacState(net.cons, work, settled, D0, net.curDom, pruned, why, queue, seen)
    requires GacSettled(net.cons, net.curDom, seen, queue, c)
    requires Nonempty(net.curDom, pruned)
    requires settled ==> Gac(net.cons[c], D0)
    requires GacReach(net.cons, work, D0, pruned, why, seen)
    modifies net
    ensures net.Valid() && net.assignment == old(net.assignment)
    ensures forall q | 0 <= q < |queue'| :: queue'[q] < |net.cons|
    ensures GacState(net.cons, work, settled, D0, net.curDom, pruned', why', queue', seen')
    ensures GacReach(net.cons, work, D0, pruned', why', seen')
    ensures |pruned| <= |pruned'| && (|pruned'| == |pruned| ==> queue' == queue)
    ensures wiped ==> WipedOut(net.curDom, pruned')
    ensures !wiped ==> Nonempty(net.curDom, pruned') && GacSettled(net.cons, net.curDom, seen', queue', -1)
    ensures forall y | 0 <= y < |net.curDom| && y !in net.cons[c].scope :: net.curDom[y] == old(net.curDom)[y]
  {
    var scope := net.cons[c].scope;
    wiped, queue', pruned', why', seen' := false, queue, pruned, why, seen;
    for k := 0 to |scope|
      invariant net.Valid() && net.assignment == old(net.assignment)
      invariant forall q | 0 <= q < |queue'| :: queue'[q] < |net.cons|
      invariant GacState(net.cons, work, settled, D0, net.curDom, pruned', why', queue', seen')
      invariant GacReach(net.cons, work, D0, pruned', why', seen')
      invariant c in seen'
      invariant |pruned| <= |pruned'| && (|pruned'| == |pruned| ==> queue' == queue)
      invariant Nonempty(net.curDom, pruned') && GacSettled(net.cons, net.curDom, seen', queue', c)
      invariant c in queue' || forall j | 0 <= j < k :: GacAt(net.cons[c], net.curDom, j)
      invariant forall y | 0 <= y < |net.curDom| && y !in scope :: net.curDom[y] == old(net.curDom)[y]
    {
      wiped, queue', pruned', why', seen' := GacReviseVar(net, c, k, queue', pruned', work, settled, D0, why', seen');
      if wiped {
        return;
      }
    }
  }

  /** What a run of GAC establishes: each record is rejected by a constraint
      on its variable, both in the domains at the moment of its prune and in
      the final ones; on success every constraint that was ever on the
      worklist is arc consistent; when the working constraints were arc
      consistent to begin with, nothing is pruned. */
  lemma GacOutcome(cons: seq<Constraint<nat>>, work: seq<nat>, settled: bool, D0: seq<set<int>>,
                   dom: seq<set<int>>, pruned: seq<Prune>, why: seq<nat>, rest: seq<nat>, seen: set<nat>, ok: bool)
    requires WellFormed(cons, |D0|)
    requires GacState(cons, work, settled, D0, dom, pruned, why, rest, seen)
    requires ok ==> rest == [] && GacSettled(cons, dom, seen, [], -1)
    requires !ok ==> WipedOut(dom, pruned)
    requires GacReach(cons, work, D0, pruned, why, seen)
    ensures forall i | 0 <= i < |pruned| ::
      GacRejects(cons, Reached(cons, work, pruned[..i]), ApplyPrunes(D0, pruned[..i]), pruned[i].0, pruned[i].1)
    ensures forall i | 0 <= i < |pruned| ::
      GacRejects(cons, Reached(cons, work, pruned[..i]), dom, pruned[i].0, pruned[i].1)
    ensures ok ==> forall c | c in work :: Gac(cons[c], dom)
    ensures ok ==> forall i, c | 0 <= i < |pruned| && c in ConsWith(cons, pruned[i].0) :: Gac(cons[c], dom)
    ensures settled ==> ok && pruned == []
  {
    forall i | 0 <= i < |pruned|
      ensures GacRejects(cons, Reached(cons, work, pruned[..i]), ApplyPrunes(D0, pruned[..i]), pruned[i].0, pruned[i].1)
      ensures GacRejects(cons, Reached(cons, work, pruned[..i]), dom, pruned[i].0, pruned[i].1)
    {
      var c := why[i];
      JustifiedAt(cons, work, D0, pruned, why, i);
      assert c < |cons| && pruned[i].0 in cons[c].scope && !HasSupport(cons[c], dom, pruned[i].0, pruned[i].1);
    }
  }

  /** Popping the last pending constraint keeps the GAC state; the popped
      constraint has been seen, and every other seen constraint that is
      not pending is arc consistent. */
  lemma GacPop(cons: seq<Constraint<nat>>, work: seq<nat>, settled: bool, D0: seq<set<int>>,
               dom: seq<set<int>>, pruned: seq<Prune>, why: seq<nat>, pending: seq<nat>, seen: set<nat>)
    requires WellFormed(cons, |D0|) && |dom| == |D0| && pending != []
    requires GacState(cons, work, settled, D0, dom, pruned, why, pending, seen)
    requires GacSettled(cons, dom, seen, pending, -1)
    ensures pending[|pending| - 1] in seen
    ensures settled ==> pending[|pending| - 1] in work
    ensures GacState(cons, work, settled, D0, dom, pruned, why, pending[..|pending| - 1], seen)
    ensures GacSettled(cons, dom, seen, pending[..|pending| - 1], pending[|pending| - 1])
  {
    var rest := pending[..|pending| - 1];
    assert pending == rest + [pending[|pending| - 1]];
    assert pending[|pending| - 1] in pending;
  }

  /** The worklist loop of GAC: pops the last pending constraint and revises
      it, until the list is empty or a domain is wiped out. */
  method GacRun(net: Network, queue: seq<nat>, ghost work: seq<nat>, ghost settled: bool)
    returns (ok: bool, pruned: seq<Prune>, ghost why: seq<nat>, ghost rest: seq<nat>, ghost seen: set<nat>)
    requires net.Valid() && queue == work
    requires forall q | 0 <= q < |queue| :: queue[q] < |net.cons|
    requires settled <==> forall c | c in work :: Gac(net.cons[c], net.curDom)
    modifies net
    ensures net.Valid() && net.assignment == old(net.assignment)
    ensures GacState(net.cons, work, settled, old(net.curDom), net.curDom, pruned, why, rest, seen)
    ensures GacReach(net.cons, work, old(net.curDom), pruned, why, seen)
    ensures ok ==> rest == [] && Nonempty(net.curDom, pruned) && GacSettled(net.cons, net.curDom, seen, [], -1)
    ensures !ok ==> WipedOut(net.curDom, pruned)
  {
    ghost var D0 := net.curDom;
    var pending: seq<nat> := queue;
    seen, why, pruned := set c | c in queue, [], [];
    while pending != []
      invariant net.Valid() && net.assignment == old(net.assignment)
      invariant forall q | 0 <= q < |pending| :: pending[q] < |net.cons|
      invariant GacState(net.cons, work, settled, D0, net.curDom, pruned, why, pending, seen)
      invariant GacReach(net.cons, work, D0, pruned, why, seen)
      invariant Nonempty(net.curDom, pruned) && GacSettled(net.cons, net.curDom, seen, pending, -1)
      invariant |pruned| <= TotalSize(D0)
      decreases TotalSize(D0) - |pruned|, |pending|
    {
      var c: nat := pending[|pending| - 1];
      GacPop(net.cons, work, settled, D0, net.curDom, pruned, why, pending, seen);
      pending := pending[..|pending| - 1];
      var wiped;
      wiped, pending, pruned, why, seen := GacReviseConstraint(net, c, pending, pruned, work, settled, D0, why, seen);
      TrailShrinks(D0, pruned);
      if wiped {
        return false, pruned, why, pending, seen;
      }
    }
    return true, pruned, why, pending, seen;
  }

  /** `prop_GAC`: enforces generalized arc consistency with a worklist of
      constraints, starting from the working constraints and taking each
      next constraint from the end of the list. */
  method PropGAC(net: Network, newVar: Option<nat>) returns (ok: bool, pruned: seq<Prune>)
    requires net.Valid()
    requires newVar.Some? ==> newVar.value < |net.curDom|
    modifies net
    ensures net.Valid() && net.assignment == old(net.assignment)
    ensures ValidTrail(old(net.curDom), pruned) && net.curDom == ApplyPrunes(old(net.curDom), pruned)
    ensures forall i | 0 <= i < |pruned| ::
      GacRejects(net.cons, Reached(net.cons, Working(net.cons, newVar), pruned[..i]),
                 ApplyPrunes(old(net.curDom), pruned[..i]), pruned[i].0, pruned[i].1)
    ensures forall i | 0 <= i < |pruned| ::
      GacRejects(net.cons, Reached(net.cons, Working(net.cons, newVar), pruned[..i]), net.curDom, pruned[i].0, pruned[i].1)
    ensures forall s | IsSolution(net.cons, s) && Within(s, old(net.curDom)) :: Within(s, net.curDom)
    ensures ok ==> Nonempty(net.curDom, pruned)
    ensures !ok ==> WipedOut(net.curDom, pruned)
    ensures ok ==> forall c | c in Working(net.cons, newVar) :: Gac(net.cons[c], net.curDom)
    ensures ok ==> forall i, c | 0 <= i < |pruned| && c in ConsWith(net.cons, pruned[i].0) ::
      Gac(net.cons[c], net.curDom)
    ensures (forall c | c in Working(net.cons, newVar) :: Gac(net.cons[c], old(net.curDom))) ==>
      ok && pruned == []
  {
    var queue := Working(net.cons, newVar);
    ghost var settled := forall c | c in queue :: Gac(net.cons[c], net.curDom);
    ghost var why, rest, seen;
    ok, pruned, why, rest, seen := GacRun(net, queue, queue, settled);
    GacOutcome(net.cons, queue, settled, old(net.curDom), net.curDom, pruned, why, rest, seen, ok);
  }

  /** Propagating and then restoring the returned list leaves every domain
      as it was: the driver's undo of one search node. */
  method PropagateAndUndo(net: Network, newVar: Option<nat>)
    requires net.Valid()
    requires newVar.Some? ==> newVar.value < |net.curDom|
    modifies net
    ensures net.Valid() && net.curDom == old(net.curDom) && net.assignment == old(net.assignment)
  {
    ghost var before := net.curDom;
    var ok, pruned := PropGAC(net, newVar);
    net.Restore(pruned, before);
  }
}
