/** The three propagators: plain backtracking checks, forward checking and
    generalised arc consistency with its AC-3 queue.  Each returns a success flag
    and the list of (variable, value) pairs it pruned. */
module Propagators {
  import opened Csp

  /** The constraints a propagator starts from: every constraint before search,
      the constraints mentioning the newly assigned variable afterwards. */
  function Candidates(cons: seq<Constraint>, newVar: Option<nat>): (r: seq<nat>)
    ensures Distinct(r)
    ensures forall i :: i in r <==> 0 <= i < |cons| && (newVar.Some? ==> newVar.value in cons[i].scope)
  {
    if newVar.None? then Range(0, |cons|)
    else
      ConsWithVarDistinct(cons, newVar.value);
      ConsWithVar(cons, newVar.value)
  }

  /** The assigned values of a fully assigned scope, collected in scope order. */
  method AssignedValues(scope: seq<nat>, asg: seq<Option<int>>) returns (vals: seq<int>)
    requires forall k :: 0 <= k < |scope| ==> scope[k] < |asg| && asg[scope[k]].Some?
    ensures |vals| == |scope|
    ensures forall k :: 0 <= k < |scope| ==> vals[k] == asg[scope[k]].value
  {
    vals := [];
    var k := 0;
    while k < |scope|
      invariant 0 <= k <= |scope|
      invariant |vals| == k
      invariant forall m :: 0 <= m < k ==> vals[m] == asg[scope[m]].value
    {
      vals := vals + [asg[scope[k]].value];
      k := k + 1;
    }
  }

  /** prop_BT's loop: checks, in order, the listed constraints that have no
      unassigned variable, and stops at the first whose assigned values are
      not a satisfying tuple. */
  method CheckFullyAssigned(cons: seq<Constraint>, asg: seq<Option<int>>, cs: seq<nat>) returns (ok: bool)
    requires ScopesIn(cons, |asg|) && forall j :: 0 <= j < |cs| ==> cs[j] < |cons|
    ensures ok <==> forall j :: 0 <= j < |cs| ==> FullOk(cons[cs[j]], asg)
  {
    ok := true;
    var i := 0;
    while i < |cs| && ok
      invariant 0 <= i <= |cs|
      invariant ok ==> forall j :: 0 <= j < i ==> FullOk(cons[cs[j]], asg)
      invariant !ok ==> 0 < i && !FullOk(cons[cs[i - 1]], asg)
    {
      var c := cons[cs[i]];
      if |UnasgnVars(c.scope, asg)| == 0 {
        var vals := AssignedValues(c.scope, asg);
        assert vals == AssignedTuple(c.scope, asg);
        ok := vals in c.sat;
      }
      i := i + 1;
    }
  }

  /** prop_BT: checks the fully assigned constraints on newVar and prunes nothing. */
  method PropBT(csp: Store, newVar: Option<nat>) returns (ok: bool, pruned: seq<Prune>)
    requires csp.Valid()
    requires newVar.Some? ==> newVar.value < |csp.dom|
    ensures pruned == []
    ensures newVar.None? ==> ok
    ensures newVar.Some? ==> (ok <==> BTHolds(csp.cons, csp.asg, newVar.value))
  {
    pruned := [];
    if newVar.None? {
      return true, pruned;
    }
    var x := newVar.value;
    var cs := ConsWithVar(csp.cons, x);
    ok := CheckFullyAssigned(csp.cons, csp.asg, cs);
    ConsWithVarHolds(csp.cons, csp.asg, x);
  }

  /** Checking the constraints get_cons_with_var lists is checking every
      constraint on x. */
  lemma ConsWithVarHolds(cons: seq<Constraint>, asg: seq<Option<int>>, x: nat)
    requires ScopesIn(cons, |asg|)
    ensures var cs := ConsWithVar(cons, x);
      (forall j :: 0 <= j < |cs| ==> FullOk(cons[cs[j]], asg)) <==> BTHolds(cons, asg, x)
  {
    var cs := ConsWithVar(cons, x);
    if forall j :: 0 <= j < |cs| ==> FullOk(cons[cs[j]], asg) {
      forall i | 0 <= i < |cons| && x in cons[i].scope ensures FullOk(cons[i], asg) {
        assert i in cs;
        var m :| 0 <= m < |cs| && cs[m] == i;
      }
    }
  }

  /** The trail forward checking records for the trial values vals of x: the
      values whose trial fails, in the order tried. */
  ghost function FcPrunes(cons: seq<Constraint>, asg: seq<Option<int>>, x: nat, vals: seq<int>): (r: seq<Prune>)
    requires ScopesIn(cons, |asg|) && x < |asg|
  {
    if |vals| == 0 then []
    else
      var v := vals[|vals| - 1];
      FcPrunes(cons, asg, x, vals[..|vals| - 1]) + (if FcPasses(cons, asg, x, v) then [] else [(x, v)])
  }

  /** The trial values of x among vals that fail. */
  ghost function Failing(cons: seq<Constraint>, asg: seq<Option<int>>, x: nat, vals: seq<int>): set<int>
    requires ScopesIn(cons, |asg|) && x < |asg|
  {
    set v | v in vals && !FcPasses(cons, asg, x, v)
  }

  /** One more trial value fails exactly when it joins the failing set. */
  lemma FailingSnoc(cons: seq<Constraint>, asg: seq<Option<int>>, x: nat, vals: seq<int>)
    requires ScopesIn(cons, |asg|) && x < |asg| && |vals| > 0
    ensures var v := vals[|vals| - 1];
      Failing(cons, asg, x, vals) == Failing(cons, asg, x, vals[..|vals| - 1]) + (if FcPasses(cons, asg, x, v) then {} else {v})
  {
    assert vals == vals[..|vals| - 1] + [vals[|vals| - 1]];
  }

  /** Appending a record of x for a value not yet recorded keeps the records
      distinct and adds that value to those pruned from x. */
  lemma PruneSnoc(p: seq<Prune>, x: nat, v: int)
    requires Distinct(p) && forall i :: 0 <= i < |p| ==> p[i] != (x, v)
    ensures Distinct(p + [(x, v)])
    ensures PrunedOf(p + [(x, v)], x) == PrunedOf(p, x) + {v}
  {
    var q := p + [(x, v)];
    assert forall i :: 0 <= i < |p| ==> q[i] == p[i];
    assert q[|p|] == (x, v);
  }

  /** The records of FcPrunes are exactly the failing trial values, each once. */
  lemma {:induction false} FcPrunesExact(cons: seq<Constraint>, asg: seq<Option<int>>, x: nat, vals: seq<int>)
    requires ScopesIn(cons, |asg|) && x < |asg| && Distinct(vals)
    ensures var r := FcPrunes(cons, asg, x, vals);
      && Distinct(r)
      && (forall i :: 0 <= i < |r| ==> r[i].0 == x && r[i].1 in vals && !FcPasses(cons, asg, x, r[i].1))
      && PrunedOf(r, x) == Failing(cons, asg, x, vals)
  {
    if |vals| > 0 {
      var init := vals[..|vals| - 1];
      var v := vals[|vals| - 1];
      FcPrunesExact(cons, asg, x, init);
      FailingSnoc(cons, asg, x, vals);
      var p := FcPrunes(cons, asg, x, init);
      assert v !in init;
      assert forall w :: w in init ==> w in vals;
      if !FcPasses(cons, asg, x, v) {
        PruneSnoc(p, x, v);
        var r := p + [(x, v)];
        assert FcPrunes(cons, asg, x, vals) == r;
        assert forall i :: 0 <= i < |p| ==> r[i] == p[i];
      } else {
        assert FcPrunes(cons, asg, x, vals) == p;
      }
    }
  }

  /** Trying one more value extends the trail and the failing set by that value
      exactly when its trial fails. */
  lemma FcStep(cons: seq<Constraint>, asg: seq<Option<int>>, x: nat, vals: seq<int>, i: nat)
    requires ScopesIn(cons, |asg|) && x < |asg| && i < |vals|
    ensures var v := vals[i];
      && FcPrunes(cons, asg, x, vals[..i + 1]) ==
         FcPrunes(cons, asg, x, vals[..i]) + (if FcPasses(cons, asg, x, v) then [] else [(x, v)])
      && Failing(cons, asg, x, vals[..i + 1]) ==
         Failing(cons, asg, x, vals[..i]) + (if FcPasses(cons, asg, x, v) then {} else {v})
  {
    assert vals[..i + 1] == vals[..i] + [vals[i]];
    assert vals[..i + 1][..i] == vals[..i];
  }

  /** One round of FCCheck on plain values: if the domains before the round
      differ from cur0 only by the failing values among vals[..i], the round on
      vals[i] keeps that so for vals[..i + 1]. */
  lemma FcRoundState(cons: seq<Constraint>, asg: seq<Option<int>>, cur0: seq<set<int>>, before: seq<set<int>>, after: seq<set<int>>,
                     x: nat, vals: seq<int>, i: nat, bt: bool)
    requires ScopesIn(cons, |asg|) && x < |asg| && i < |vals| && x < |before| == |cur0|
    requires forall y :: 0 <= y < |before| && y != x ==> before[y] == cur0[y]
    requires before[x] == cur0[x] - Failing(cons, asg, x, vals[..i])
    requires bt <==> FcPasses(cons, asg, x, vals[i])
    requires after == if bt then before else before[x := before[x] - {vals[i]}]
    ensures |after| == |cur0|
    ensures forall y :: 0 <= y < |after| && y != x ==> after[y] == cur0[y]
    ensures after[x] == cur0[x] - Failing(cons, asg, x, vals[..i + 1])
    ensures FcPrunes(cons, asg, x, vals[..i + 1]) == FcPrunes(cons, asg, x, vals[..i]) + (if bt then [] else [(x, vals[i])])
  {
    FcStep(cons, asg, x, vals, i);
  }

  /** What one FCCheck pass leaves behind: its records form an exact trail, and
      removing the failing values loses no solution. */
  lemma FcCheckOutcome(cons: seq<Constraint>, asg: seq<Option<int>>, cur0: seq<set<int>>, now: seq<set<int>>, x: nat, vals: seq<int>)
    requires |asg| == |cur0| == |now| && ScopesIn(cons, |cur0|) && x < |cur0| && asg[x].None?
    requires Distinct(vals) && forall v :: v in vals <==> v in cur0[x]
    requires forall y :: 0 <= y < |now| && y != x ==> now[y] == cur0[y]
    requires now[x] == cur0[x] - Failing(cons, asg, x, vals)
    ensures Trail(cur0, now, FcPrunes(cons, asg, x, vals))
    ensures NoLostSolutions(cons, asg, cur0, now)
  {
    FcPrunesExact(cons, asg, x, vals);
    var failing := Failing(cons, asg, x, vals);
    FcPruneKeepsSolutions(cons, asg, cur0, x, failing);
    var expected := cur0[x := cur0[x] - failing];
    assert forall y :: 0 <= y < |expected| ==> now[y] == expected[y];
    assert now == expected;
    var p := FcPrunes(cons, asg, x, vals);
    forall y | 0 <= y < |cur0| && y != x ensures PrunedOf(p, y) == {} {
      assert forall i :: 0 <= i < |p| ==> p[i].0 != y;
    }
  }

  /** One round of FCCheck's loop: assigns v to the unassigned x, runs the
      backtracking check, prunes v when the check fails, and unassigns x. */
  method TryValue(csp: Store, x: nat, v: int) returns (bt: bool)
    requires csp.Valid() && x < |csp.dom| && csp.asg[x].None? && v in csp.cur[x]
    modifies csp
    ensures csp.Valid() && csp.asg == old(csp.asg)
    ensures bt <==> FcPasses(csp.cons, csp.asg, x, v)
    ensures csp.cur == if bt then old(csp.cur) else old(csp.cur)[x := old(csp.cur)[x] - {v}]
  {
    ghost var asg0 := csp.asg;
    csp.Assign(x, v);
    var noPrunes;
    bt, noPrunes := PropBT(csp, Some(x));
    if !bt {
      csp.PruneValue(x, v);
    }
    csp.Unassign(x);
    assert csp.asg == asg0;
  }

  /** FCCheck: tries every current value of the unassigned testVar x, prunes those
      whose trial assignment violates a fully assigned constraint on x, and fails
      exactly when x's current domain is left empty. */
  method FCCheck(csp: Store, x: nat) returns (ok: bool, pruned: seq<Prune>)
    requires csp.Valid() && x < |csp.dom| && csp.asg[x].None?
    modifies csp
    ensures csp.Valid() && csp.asg == old(csp.asg)
    ensures pruned == FcPrunes(csp.cons, csp.asg, x, old(csp.CurDomain(x)))
    ensures Trail(old(csp.cur), csp.cur, pruned)
    ensures forall y :: 0 <= y < |csp.cur| && y != x ==> csp.cur[y] == old(csp.cur[y])
    ensures forall v :: v in csp.cur[x] <==> v in old(csp.cur[x]) && FcPasses(csp.cons, csp.asg, x, v)
    ensures NoLostSolutions(csp.cons, csp.asg, old(csp.cur), csp.cur)
    ensures ok <==> csp.cur[x] != {}
  {
    ghost var cur0, asg0 := csp.cur, csp.asg;
    var cons := csp.cons;
    var vals := csp.CurDomain(x);
    pruned := [];
    var i := 0;
    while i < |vals|
      invariant 0 <= i <= |vals|
      invariant csp.Valid() && csp.asg == asg0
      invariant pruned == FcPrunes(cons, asg0, x, vals[..i])
      invariant forall y :: 0 <= y < |csp.cur| && y != x ==> csp.cur[y] == cur0[y]
      invariant csp.cur[x] == cur0[x] - Failing(cons, asg0, x, vals[..i])
    {
      var v := vals[i];
      assert v !in vals[..i];
      ghost var before := csp.cur;
      var bt := TryValue(csp, x, v);
      if !bt {
        pruned := pruned + [(x, v)];
      }
      FcRoundState(cons, asg0, cur0, before, csp.cur, x, vals, i, bt);
      i := i + 1;
    }
    assert vals[..i] == vals;
    FcCheckOutcome(cons, asg0, cur0, csp.cur, x, vals);
    ok := |csp.cur[x]| != 0;
  }

  /** The variable forward checking may prune for one candidate: the single
      unassigned variable of the constraint, if it has exactly one. */
  ghost function FcTarget(cons: seq<Constraint>, asg: seq<Option<int>>, ci: nat): (r: set<nat>)
    requires ScopesIn(cons, |asg|)
    ensures forall x :: x in r ==> x < |asg| && asg[x].None?
  {
    if ci < |cons| && |UnasgnVars(cons[ci].scope, asg)| == 1 then {UnasgnVars(cons[ci].scope, asg)[0]} else {}
  }

  /** The variables forward checking may prune from a candidate list: the
      targets of all its candidates. */
  ghost function FcTargets(cons: seq<Constraint>, asg: seq<Option<int>>, cands: seq<nat>): (r: set<nat>)
    requires ScopesIn(cons, |asg|)
    ensures forall x :: x in r ==> x < |asg| && asg[x].None?
    decreases |cands|
  {
    if cands == [] then {} else FcTargets(cons, asg, cands[..|cands| - 1]) + FcTarget(cons, asg, cands[|cands| - 1])
  }

  /** The targets of one more candidate: those of the shorter list, plus the
      candidate's own single unassigned variable if it has exactly one. */
  lemma FcTargetsSnoc(cons: seq<Constraint>, asg: seq<Option<int>>, cands: seq<nat>, i: nat)
    requires ScopesIn(cons, |asg|) && i < |cands| && cands[i] < |cons|
    ensures var u := UnasgnVars(cons[cands[i]].scope, asg);
      FcTargets(cons, asg, cands[..i + 1]) == FcTargets(cons, asg, cands[..i]) + (if |u| == 1 then {u[0]} else {})
  {
    var a := cands[..i + 1];
    assert a[..i] == cands[..i] && a[i] == cands[i];
  }

  /** Every candidate's target is among the targets of the list. */
  lemma {:induction false} FcTargetsHas(cons: seq<Constraint>, asg: seq<Option<int>>, cands: seq<nat>, j: nat)
    requires ScopesIn(cons, |asg|) && j < |cands|
    ensures FcTarget(cons, asg, cands[j]) <= FcTargets(cons, asg, cands)
    decreases |cands|
  {
    var n := |cands| - 1;
    var b := cands[..n];
    assert FcTargets(cons, asg, cands) == FcTargets(cons, asg, b) + FcTarget(cons, asg, cands[n]);
    if j < n {
      FcTargetsHas(cons, asg, b, j);
      assert b[j] == cands[j];
    }
  }

  /** Only a candidate's target is a target of the list. */
  lemma {:induction false} FcTargetsOnly(cons: seq<Constraint>, asg: seq<Option<int>>, cands: seq<nat>, x: nat)
    requires ScopesIn(cons, |asg|) && x in FcTargets(cons, asg, cands)
    ensures exists j :: 0 <= j < |cands| && x in FcTarget(cons, asg, cands[j])
    decreases |cands|
  {
    var n := |cands| - 1;
    if x !in FcTarget(cons, asg, cands[n]) {
      var b := cands[..n];
      FcTargetsOnly(cons, asg, b, x);
      var j :| 0 <= j < |b| && x in FcTarget(cons, asg, b[j]);
      assert b[j] == cands[j];
    }
  }

  /** Constraint ci is forward checked: if it has exactly one unassigned variable,
      every current value of that variable passes its trial. */
  ghost predicate ForwardChecked(cons: seq<Constraint>, asg: seq<Option<int>>, cur: seq<set<int>>, ci: nat)
    requires |asg| == |cur| && ScopesIn(cons, |cur|) && ci < |cons|
  {
    var u := UnasgnVars(cons[ci].scope, asg);
    |u| == 1 ==> forall v :: v in cur[u[0]] ==> FcPasses(cons, asg, u[0], v)
  }

  /** Forward checking stays established while domains only shrink. */
  lemma ForwardCheckedShrinks(cons: seq<Constraint>, asg: seq<Option<int>>, before: seq<set<int>>, now: seq<set<int>>, ci: nat)
    requires |asg| == |before| == |now| && ScopesIn(cons, |before|) && ci < |cons|
    requires forall y :: 0 <= y < |now| ==> now[y] <= before[y]
    requires ForwardChecked(cons, asg, before, ci)
    ensures ForwardChecked(cons, asg, now, ci)
  {
    var u := UnasgnVars(cons[ci].scope, asg);
    if |u| == 1 {
      assert u[0] in cons[ci].scope;
    }
  }

  /** Every record of p prunes, from the single unassigned variable of
      constraint ci, a value that fails its trial. */
  ghost predicate PrunesTrialFailures(cons: seq<Constraint>, asg: seq<Option<int>>, ci: nat, p: seq<Prune>)
    requires ScopesIn(cons, |asg|) && ci < |cons|
  {
    var u := UnasgnVars(cons[ci].scope, asg);
    forall k :: 0 <= k < |p| ==> |u| == 1 && p[k].0 == u[0] && !FcPasses(cons, asg, p[k].0, p[k].1)
  }

  /** Forward checks one constraint: when exactly one of its variables is
      unassigned, FCCheck prunes that variable; otherwise nothing changes. */
  method FcConstraint(csp: Store, ci: nat) returns (ok: bool, pruned: seq<Prune>)
    requires csp.Valid() && ci < |csp.cons|
    modifies csp
    ensures csp.Valid() && csp.asg == old(csp.asg)
    ensures Trail(old(csp.cur), csp.cur, pruned)
    ensures NoLostSolutions(csp.cons, csp.asg, old(csp.cur), csp.cur)
    ensures PrunesTrialFailures(csp.cons, csp.asg, ci, pruned)
    ensures ok ==> ForwardChecked(csp.cons, csp.asg, csp.cur, ci)
    ensures |UnasgnVars(csp.cons[ci].scope, csp.asg)| != 1 ==> ok && pruned == [] && csp.cur == old(csp.cur)
    ensures |UnasgnVars(csp.cons[ci].scope, csp.asg)| == 1 ==>
      (ok <==> csp.cur[UnasgnVars(csp.cons[ci].scope, csp.asg)[0]] != {})
    ensures ok ==> NoneEmptied(old(csp.cur), csp.cur)
    ensures !ok ==> exists y :: 0 <= y < |csp.cur| && csp.cur[y] == {}
    ensures !ok ==> forall s :: !IsSolution(csp.cons, old(csp.cur), csp.asg, s)
  {
    ghost var cur0 := csp.cur;
    var c := csp.cons[ci];
    var u := UnasgnVars(c.scope, csp.asg);
    if |u| != 1 {
      TrailNil(cur0);
      return true, [];
    }
    var x := u[0];
    ghost var vals := csp.CurDomain(x);
    ok, pruned := FCCheck(csp, x);
    FcPrunesExact(csp.cons, csp.asg, x, vals);
    if !ok {
      WipeoutNoSolution(csp.cons, csp.asg, csp.cur, x);
    }
  }

  /** Where prop_FC stands after checking the first i candidates: the trail
      so far is exact and keeps every solution, it prunes only trial failures
      of target variables, and those i candidates are forward checked. */
  ghost predicate FcProgress(cons: seq<Constraint>, asg: seq<Option<int>>, cur0: seq<set<int>>, cur: seq<set<int>>,
                             pruned: seq<Prune>, targets: set<nat>, checkList: seq<nat>, i: nat)
    requires |asg| == |cur0| == |cur| && ScopesIn(cons, |cur0|)
    requires i <= |checkList| && forall j :: 0 <= j < |checkList| ==> checkList[j] < |cons|
  {
    && Trail(cur0, cur, pruned)
    && NoLostSolutions(cons, asg, cur0, cur)
    && (forall k :: 0 <= k < |pruned| ==> pruned[k].0 in targets && !FcPasses(cons, asg, pruned[k].0, pruned[k].1))
    && (forall j :: 0 <= j < i ==> ForwardChecked(cons, asg, cur, checkList[j]))
  }

  /** The bookkeeping of one forward-checking round: appending a constraint's
      trail to the trail so far keeps it exact, sound and limited to the targets. */
  lemma FcRound(cons: seq<Constraint>, asg: seq<Option<int>>, cur0: seq<set<int>>, before: seq<set<int>>, now: seq<set<int>>,
                pruned: seq<Prune>, p1: seq<Prune>, targets: set<nat>, checkList: seq<nat>, i: nat, ok: bool)
    requires |asg| == |cur0| == |before| == |now| && ScopesIn(cons, |cur0|)
    requires i < |checkList| && (forall j :: 0 <= j < |checkList| ==> checkList[j] < |cons|)
    requires targets == FcTargets(cons, asg, checkList)
    requires FcProgress(cons, asg, cur0, before, pruned, targets, checkList, i)
    requires Trail(before, now, p1) && NoLostSolutions(cons, asg, before, now)
    requires PrunesTrialFailures(cons, asg, checkList[i], p1)
    requires ok ==> ForwardChecked(cons, asg, now, checkList[i])
    requires !ok ==> forall s :: !IsSolution(cons, before, asg, s)
    ensures ok ==> FcProgress(cons, asg, cur0, now, pruned + p1, targets, checkList, i + 1)
    ensures !ok ==> FcProgress(cons, asg, cur0, now, pruned + p1, targets, checkList, i)
    ensures !ok ==> forall s :: !IsSolution(cons, cur0, asg, s)
  {
    TrailAppend(cur0, before, now, pruned, p1);
    NoLostTrans(cons, asg, cur0, before, now);
    var all := pruned + p1;
    FcTargetsHas(cons, asg, checkList, i);
    forall k | 0 <= k < |all| ensures all[k].0 in targets && !FcPasses(cons, asg, all[k].0, all[k].1) {
      if k >= |pruned| {
        assert all[k] == p1[k - |pruned|];
      }
    }
    forall j | 0 <= j < i ensures ForwardChecked(cons, asg, now, checkList[j]) {
      ForwardCheckedShrinks(cons, asg, before, now, checkList[j]);
    }
  }

  /** After the first i candidates without a wipeout: every target among them
      still has a value, and every record so far is about one of them. */
  ghost predicate FcSoFar(cons: seq<Constraint>, asg: seq<Option<int>>, cur: seq<set<int>>, pruned: seq<Prune>, cands: seq<nat>, i: nat)
    requires |asg| == |cur| && ScopesIn(cons, |cur|) && i <= |cands|
  {
    && (forall x :: x in FcTargets(cons, asg, cands[..i]) ==> cur[x] != {})
    && (forall k :: 0 <= k < |pruned| ==> pruned[k].0 in FcTargets(cons, asg, cands[..i]))
  }

  /** prop_FC stopped at candidate i, the first to wipe out a domain: it has
      exactly one unassigned variable, whose domain is now empty; every target
      of the earlier candidates still has a value and each earlier candidate
      is forward checked, so all their failing values are gone; and every
      record is about a target of the candidates up to i, so nothing after i
      was checked. */
  ghost predicate FailsAt(cons: seq<Constraint>, asg: seq<Option<int>>, cur: seq<set<int>>, pruned: seq<Prune>, cands: seq<nat>, i: nat)
    requires |asg| == |cur| && ScopesIn(cons, |cur|) && i < |cands|
  {
    && cands[i] < |cons|
    && var u := UnasgnVars(cons[cands[i]].scope, asg);
    && |u| == 1 && cur[u[0]] == {}
    && (forall x :: x in FcTargets(cons, asg, cands[..i]) ==> cur[x] != {})
    && (forall j :: 0 <= j < i ==> cands[j] < |cons| && ForwardChecked(cons, asg, cur, cands[j]))
    && (forall k :: 0 <= k < |pruned| ==> pruned[k].0 in FcTargets(cons, asg, cands[..i + 1]))
  }

  /** Forward checking one more candidate empties no target of the earlier
      ones: those are forward checked, so all their values pass the trial
      and none of them is among the failures it prunes. */
  lemma FcEarlierKept(cons: seq<Constraint>, asg: seq<Option<int>>, before: seq<set<int>>, now: seq<set<int>>,
                      p1: seq<Prune>, cands: seq<nat>, i: nat)
    requires |asg| == |before| && ScopesIn(cons, |before|) && i < |cands| && cands[i] < |cons|
    requires forall x :: x in FcTargets(cons, asg, cands[..i]) ==> before[x] != {}
    requires forall j :: 0 <= j < i ==> cands[j] < |cons| && ForwardChecked(cons, asg, before, cands[j])
    requires Trail(before, now, p1) && PrunesTrialFailures(cons, asg, cands[i], p1)
    ensures forall x :: x in FcTargets(cons, asg, cands[..i]) ==> now[x] != {}
  {
    var a := cands[..i];
    forall x | x in FcTargets(cons, asg, a) ensures now[x] != {} {
      FcTargetsOnly(cons, asg, a, x);
      var j :| 0 <= j < |a| && x in FcTarget(cons, asg, a[j]);
      assert a[j] == cands[j];
      FcPassingKept(cons, asg, before, now, p1, cands[i], x);
    }
  }

  /** A domain whose every value passes its trial is untouched by a prune list
      of trial failures. */
  lemma FcPassingKept(cons: seq<Constraint>, asg: seq<Option<int>>, before: seq<set<int>>, now: seq<set<int>>,
                      p1: seq<Prune>, ci: nat, x: nat)
    requires |asg| == |before| && ScopesIn(cons, |before|) && ci < |cons| && x < |before|
    requires Trail(before, now, p1) && PrunesTrialFailures(cons, asg, ci, p1)
    requires forall v :: v in before[x] ==> FcPasses(cons, asg, x, v)
    ensures now[x] == before[x]
  {
    forall k | 0 <= k < |p1| && p1[k].0 == x ensures p1[k].1 !in before[x] {
    }
  }

  /** The targets of a prefix are targets of the whole list. */
  lemma FcTargetsPrefix(cons: seq<Constraint>, asg: seq<Option<int>>, cands: seq<nat>, n: nat)
    requires ScopesIn(cons, |asg|) && n <= |cands|
    ensures FcTargets(cons, asg, cands[..n]) <= FcTargets(cons, asg, cands)
  {
    var a := cands[..n];
    forall x | x in FcTargets(cons, asg, a) ensures x in FcTargets(cons, asg, cands) {
      FcTargetsOnly(cons, asg, a, x);
      var j :| 0 <= j < |a| && x in FcTarget(cons, asg, a[j]);
      assert a[j] == cands[j];
      FcTargetsHas(cons, asg, cands, j);
    }
  }

  /** One candidate more: without a wipeout the progress extends to i + 1;
      with one, prop_FC fails at i. */
  lemma FcSoFarStep(cons: seq<Constraint>, asg: seq<Option<int>>, before: seq<set<int>>, now: seq<set<int>>,
                    pruned: seq<Prune>, p1: seq<Prune>, cands: seq<nat>, i: nat, ok: bool)
    requires |asg| == |before| && ScopesIn(cons, |before|) && i < |cands| && cands[i] < |cons|
    requires FcSoFar(cons, asg, before, pruned, cands, i)
    requires PrunesTrialFailures(cons, asg, cands[i], p1)
    requires |UnasgnVars(cons[cands[i]].scope, asg)| != 1 ==> ok && p1 == [] && now == before
    requires |now| == |before|
    requires |UnasgnVars(cons[cands[i]].scope, asg)| == 1 ==> (ok <==> now[UnasgnVars(cons[cands[i]].scope, asg)[0]] != {})
    requires ok ==> NoneEmptied(before, now)
    requires Trail(before, now, p1)
    requires forall j :: 0 <= j < i ==> cands[j] < |cons| && ForwardChecked(cons, asg, before, cands[j])
    requires forall j :: 0 <= j < i ==> ForwardChecked(cons, asg, now, cands[j])
    ensures ok ==> FcSoFar(cons, asg, now, pruned + p1, cands, i + 1)
    ensures !ok ==> FailsAt(cons, asg, now, pruned + p1, cands, i)
  {
    FcTargetsSnoc(cons, asg, cands, i);
    if !ok {
      FcEarlierKept(cons, asg, before, now, p1, cands, i);
    }
    var all := pruned + p1;
    forall k | 0 <= k < |all| ensures all[k].0 in FcTargets(cons, asg, cands[..i + 1]) {
      if k >= |pruned| {
        assert all[k] == p1[k - |pruned|];
      }
    }
  }

  /** A failure at candidate i empties a target of the whole candidate list. */
  lemma FcStopped(cons: seq<Constraint>, asg: seq<Option<int>>, cur: seq<set<int>>, pruned: seq<Prune>, cands: seq<nat>, i: nat)
    requires |asg| == |cur| && ScopesIn(cons, |cur|) && i < |cands|
    requires FailsAt(cons, asg, cur, pruned, cands, i)
    ensures exists x :: x in FcTargets(cons, asg, cands) && cur[x] == {}
  {
    var u := UnasgnVars(cons[cands[i]].scope, asg);
    FcTargetsSnoc(cons, asg, cands, i);
    FcTargetsPrefix(cons, asg, cands, i + 1);
    assert u[0] in FcTargets(cons, asg, cands);
  }

  /** Progress over the whole candidate list: every target keeps a value. */
  lemma FcFinished(cons: seq<Constraint>, asg: seq<Option<int>>, cur: seq<set<int>>, pruned: seq<Prune>, cands: seq<nat>)
    requires |asg| == |cur| && ScopesIn(cons, |cur|)
    requires FcSoFar(cons, asg, cur, pruned, cands, |cands|)
    ensures forall x :: x in FcTargets(cons, asg, cands) ==> cur[x] != {}
  {
    assert cands[..|cands|] == cands;
  }

  /** The loop invariant of prop_FC after the first i candidates. */
  ghost predicate FcLoop(cons: seq<Constraint>, asg: seq<Option<int>>, cur0: seq<set<int>>, cur: seq<set<int>>,
                         pruned: seq<Prune>, targets: set<nat>, checkList: seq<nat>, i: nat)
    requires |asg| == |cur0| == |cur| && ScopesIn(cons, |cur0|)
    requires i <= |checkList| && forall j :: 0 <= j < |checkList| ==> checkList[j] < |cons|
  {
    && FcProgress(cons, asg, cur0, cur, pruned, targets, checkList, i)
    && NoneEmptied(cur0, cur)
    && FcSoFar(cons, asg, cur, pruned, checkList, i)
  }

  /** Where prop_FC stands when candidate i wiped out its target. */
  ghost predicate FcFailed(cons: seq<Constraint>, asg: seq<Option<int>>, cur0: seq<set<int>>, cur: seq<set<int>>,
                           pruned: seq<Prune>, targets: set<nat>, checkList: seq<nat>, i: nat)
    requires |asg| == |cur0| == |cur| && ScopesIn(cons, |cur0|)
    requires i < |checkList| && forall j :: 0 <= j < |checkList| ==> checkList[j] < |cons|
  {
    && FcProgress(cons, asg, cur0, cur, pruned, targets, checkList, i)
    && FailsAt(cons, asg, cur, pruned, checkList, i)
    && (exists x :: x in targets && x < |cur| && cur[x] == {})
    && (forall s :: !IsSolution(cons, cur0, asg, s))
  }

  /** One round of prop_FC: forward checks candidate i and extends the trail. */
  method FcNext(csp: Store, ghost cur0: seq<set<int>>, pruned0: seq<Prune>, ghost targets: set<nat>,
                checkList: seq<nat>, i: nat) returns (ok1: bool, pruned: seq<Prune>)
    requires csp.Valid() && |cur0| == |csp.cur| && i < |checkList|
    requires forall j :: 0 <= j < |checkList| ==> checkList[j] < |csp.cons|
    requires targets == FcTargets(csp.cons, csp.asg, checkList)
    requires FcLoop(csp.cons, csp.asg, cur0, csp.cur, pruned0, targets, checkList, i)
    modifies csp
    ensures csp.Valid() && csp.asg == old(csp.asg)
    ensures ok1 ==> FcLoop(csp.cons, csp.asg, cur0, csp.cur, pruned, targets, checkList, i + 1)
    ensures !ok1 ==> FcFailed(csp.cons, csp.asg, cur0, csp.cur, pruned, targets, checkList, i)
  {
    var cons, asg := csp.cons, csp.asg;
    ghost var before := csp.cur;
    var p1;
    ok1, p1 := FcConstraint(csp, checkList[i]);
    FcRound(cons, asg, cur0, before, csp.cur, pruned0, p1, targets, checkList, i, ok1);
    pruned := pruned0 + p1;
    FcSoFarStep(cons, asg, before, csp.cur, pruned0, p1, checkList, i, ok1);
    if !ok1 {
      FcStopped(cons, asg, csp.cur, pruned, checkList, i);
    }
  }

  /** The loop of prop_FC over a candidate list: forward checks each candidate
      in turn, stopping at the first wipeout. */
  method FcRun(csp: Store, checkList: seq<nat>) returns (ok: bool, pruned: seq<Prune>)
    requires csp.Valid()
    requires forall j :: 0 <= j < |checkList| ==> checkList[j] < |csp.cons|
    modifies csp
    ensures csp.Valid() && csp.asg == old(csp.asg)
    ensures Trail(old(csp.cur), csp.cur, pruned)
    ensures forall k :: 0 <= k < |pruned| ==>
      && pruned[k].0 in FcTargets(csp.cons, csp.asg, checkList)
      && !FcPasses(csp.cons, csp.asg, pruned[k].0, pruned[k].1)
    ensures NoLostSolutions(csp.cons, csp.asg, old(csp.cur), csp.cur)
    ensures ok ==> forall j :: 0 <= j < |checkList| ==> ForwardChecked(csp.cons, csp.asg, csp.cur, checkList[j])
    ensures ok ==> NoneEmptied(old(csp.cur), csp.cur)
    ensures ok <==> forall x :: x in FcTargets(csp.cons, csp.asg, checkList) ==> csp.cur[x] != {}
    ensures !ok ==> exists i :: 0 <= i < |checkList| && FailsAt(csp.cons, csp.asg, csp.cur, pruned, checkList, i)
    ensures !ok ==> forall s :: !IsSolution(csp.cons, old(csp.cur), csp.asg, s)
  {
    ghost var cur0 := csp.cur;
    var cons, asg := csp.cons, csp.asg;
    ghost var targets := FcTargets(cons, asg, checkList);
    pruned := [];
    TrailNil(cur0);
    var i := 0;
    while i < |checkList|
      invariant 0 <= i <= |checkList|
      invariant csp.Valid() && csp.asg == asg
      invariant FcLoop(cons, asg, cur0, csp.cur, pruned, targets, checkList, i)
    {
      var ok1;
      ok1, pruned := FcNext(csp, cur0, pruned, targets, checkList, i);
      if !ok1 {
        return false, pruned;
      }
      i := i + 1;
    }
    FcFinished(cons, asg, csp.cur, pruned, checkList);
    return true, pruned;
  }

  /** prop_FC: forward checks every candidate constraint with exactly one
      unassigned variable, stopping at the first wipeout. */
  method PropFC(csp: Store, newVar: Option<nat>) returns (ok: bool, pruned: seq<Prune>)
    requires csp.Valid()
    requires newVar.Some? ==> newVar.value < |csp.dom|
    modifies csp
    ensures csp.Valid() && csp.asg == old(csp.asg)
    ensures Trail(old(csp.cur), csp.cur, pruned)
    ensures forall k :: 0 <= k < |pruned| ==>
      && pruned[k].0 in FcTargets(csp.cons, csp.asg, Candidates(csp.cons, newVar))
      && !FcPasses(csp.cons, csp.asg, pruned[k].0, pruned[k].1)
    ensures NoLostSolutions(csp.cons, csp.asg, old(csp.cur), csp.cur)
    ensures ok ==> forall ci :: ci in Candidates(csp.cons, newVar) ==> ForwardChecked(csp.cons, csp.asg, csp.cur, ci)
    ensures ok ==> NoneEmptied(old(csp.cur), csp.cur)
    ensures ok <==> forall x :: x in FcTargets(csp.cons, csp.asg, Candidates(csp.cons, newVar)) ==> csp.cur[x] != {}
    ensures !ok ==> exists i :: 0 <= i < |Candidates(csp.cons, newVar)| && FailsAt(csp.cons, csp.asg, csp.cur, pruned, Candidates(csp.cons, newVar), i)
    ensures !ok ==> forall s :: !IsSolution(csp.cons, old(csp.cur), csp.asg, s)
  {
    var checkList := Candidates(csp.cons, newVar);
    ok, pruned := FcRun(csp, checkList);
    if ok {
      forall ci | ci in checkList ensures ForwardChecked(csp.cons, csp.asg, csp.cur, ci) {
        var j :| 0 <= j < |checkList| && checkList[j] == ci;
      }
    }
  }

  /** The domains a trail leaves when applied to cur0. */
  ghost function Shrunk(cur0: seq<set<int>>, p: seq<Prune>): (r: seq<set<int>>)
    ensures |r| == |cur0|
  {
    seq(|cur0|, y requires 0 <= y < |cur0| => cur0[y] - PrunedOf(p, y))
  }

  /** Every record p[k] of the trail removed a value that, at that moment
      (after the records before it), had no support in via[k]: the popped
      constraint being revised, whose scope holds the pruned variable. */
  ghost predicate GacTrail(cons: seq<Constraint>, asg: seq<Option<int>>, cur0: seq<set<int>>, p: seq<Prune>, via: seq<nat>)
    requires |asg| == |cur0| && ScopesIn(cons, |cur0|)
  {
    && |via| == |p|
    && (|p| > 0 ==>
          var (x, v), ci := p[|p| - 1], via[|p| - 1];
          && GacTrail(cons, asg, cur0, p[..|p| - 1], via[..|p| - 1])
          && ci < |cons| && x in cons[ci].scope
          && !HasSupport(cons[ci], Shrunk(cur0, p[..|p| - 1]), asg, x, v))
  }

  /** The trail record by record: record k removed a value of a scope variable
      of constraint via[k] that had no support in via[k] once the records
      before it were applied. */
  lemma {:induction false} GacTrailAt(cons: seq<Constraint>, asg: seq<Option<int>>, cur0: seq<set<int>>, p: seq<Prune>, via: seq<nat>)
    requires |asg| == |cur0| && ScopesIn(cons, |cur0|)
    requires GacTrail(cons, asg, cur0, p, via)
    ensures |via| == |p|
    ensures forall k :: 0 <= k < |p| ==>
      && via[k] < |cons| && p[k].0 in cons[via[k]].scope
      && !HasSupport(cons[via[k]], Shrunk(cur0, p[..k]), asg, p[k].0, p[k].1)
  {
    if |p| > 0 {
      var q, w := p[..|p| - 1], via[..|p| - 1];
      GacTrailAt(cons, asg, cur0, q, w);
      forall k | 0 <= k < |q|
        ensures via[k] < |cons| && p[k].0 in cons[via[k]].scope
          && !HasSupport(cons[via[k]], Shrunk(cur0, p[..k]), asg, p[k].0, p[k].1)
      {
        assert q[..k] == p[..k] && q[k] == p[k] && w[k] == via[k];
      }
    }
  }

  /** n copies of constraint c: the popped constraint behind each record of
      one revision. */
  function Repeat(c: nat, n: nat): (r: seq<nat>)
    ensures |r| == n
  {
    if n == 0 then [] else Repeat(c, n - 1) + [c]
  }

  /** Every entry of Repeat(c, n) is c. */
  lemma {:induction false} RepeatAt(c: nat, n: nat)
    ensures forall i :: 0 <= i < n ==> Repeat(c, n)[i] == c
  {
    if n > 0 {
      RepeatAt(c, n - 1);
      assert forall i :: 0 <= i < n - 1 ==> Repeat(c, n)[i] == Repeat(c, n - 1)[i];
    }
  }

  /** One more record caused by the same constraint. */
  lemma RepeatSnoc(via: seq<nat>, c: nat, n: nat)
    ensures via + Repeat(c, n) + [c] == via + Repeat(c, n + 1)
  {
    assert Repeat(c, n + 1) == Repeat(c, n) + [c];
  }

  /** The domains a trail leaves are the current ones. */
  lemma ShrunkIsCurrent(cur0: seq<set<int>>, cur: seq<set<int>>, p: seq<Prune>)
    requires Trail(cur0, cur, p)
    ensures Shrunk(cur0, p) == cur
  {
  }

  /** The parts of a sequence with one element appended. */
  lemma SnocParts<T>(s: seq<T>, e: T)
    ensures |s + [e]| - 1 == |s| && (s + [e])[..|s|] == s && (s + [e])[|s|] == e
  {
  }

  /** Recording an unsupported value extends a trail of unsupported values. */
  lemma GacTrailStep(cons: seq<Constraint>, asg: seq<Option<int>>, cur0: seq<set<int>>,
                     p: seq<Prune>, via: seq<nat>, ci: nat, x: nat, v: int)
    requires |asg| == |cur0| && ScopesIn(cons, |cur0|)
    requires GacTrail(cons, asg, cur0, p, via)
    requires ci < |cons| && x in cons[ci].scope && !HasSupport(cons[ci], Shrunk(cur0, p), asg, x, v)
    ensures GacTrail(cons, asg, cur0, p + [(x, v)], via + [ci])
  {
    SnocParts(p, (x, v));
    SnocParts(via, ci);
  }

  /** Pruning an unsupported current value extends an exact, sound trail. */
  lemma GacPruneStep(cons: seq<Constraint>, asg: seq<Option<int>>, cur0: seq<set<int>>, cur: seq<set<int>>,
                     p: seq<Prune>, via: seq<nat>, ci: nat, x: nat, v: int)
    requires |asg| == |cur0| == |cur| && ScopesIn(cons, |cur0|)
    requires Trail(cur0, cur, p) && GacTrail(cons, asg, cur0, p, via)
    requires ci < |cons| && x in cons[ci].scope && v in cur[x] && !HasSupport(cons[ci], cur, asg, x, v)
    ensures var after := cur[x := cur[x] - {v}];
      && Trail(cur0, after, p + [(x, v)])
      && GacTrail(cons, asg, cur0, p + [(x, v)], via + [ci])
      && Total(after) < Total(cur)
  {
    var after := cur[x := cur[x] - {v}];
    TrailStep(cur0, cur, p, x, v);
    TotalDrops(cur, x, v);
    ShrunkIsCurrent(cur0, cur, p);
    GacTrailStep(cons, asg, cur0, p, via, ci, x, v);
  }

  /** Removing one more recorded value from what a trail leaves. */
  lemma ShrunkSnoc(cur0: seq<set<int>>, p: seq<Prune>, x: nat, v: int)
    requires x < |cur0|
    ensures Shrunk(cur0, p + [(x, v)]) == Shrunk(cur0, p)[x := Shrunk(cur0, p)[x] - {v}]
  {
    var q := p + [(x, v)];
    forall y | 0 <= y < |cur0| ensures PrunedOf(q, y) == PrunedOf(p, y) + (if y == x then {v} else {}) {
      forall w | w in PrunedOf(q, y) ensures w in PrunedOf(p, y) + (if y == x then {v} else {}) {
        var i :| 0 <= i < |q| && q[i].0 == y && q[i].1 == w;
        if i < |p| { assert p[i] == q[i]; }
      }
      forall w | w in PrunedOf(p, y) ensures w in PrunedOf(q, y) {
        var i :| 0 <= i < |p| && p[i].0 == y && p[i].1 == w;
        assert q[i] == p[i];
      }
      if y == x { assert q[|p|] == (x, v); }
    }
    var lhs, rhs := Shrunk(cur0, q), Shrunk(cur0, p)[x := Shrunk(cur0, p)[x] - {v}];
    assert forall y :: 0 <= y < |cur0| ==> lhs[y] == rhs[y];
  }

  /** A trail of values that each lacked support when removed loses no
      solution: the heart of GAC's soundness. */
  lemma {:induction false} GacTrailKeepsSolutions(cons: seq<Constraint>, asg: seq<Option<int>>, cur0: seq<set<int>>,
                                                   p: seq<Prune>, via: seq<nat>)
    requires |asg| == |cur0| && ScopesIn(cons, |cur0|)
    requires GacTrail(cons, asg, cur0, p, via)
    ensures NoLostSolutions(cons, asg, cur0, Shrunk(cur0, p))
  {
    if |p| == 0 {
      assert forall y :: 0 <= y < |cur0| ==> PrunedOf(p, y) == {};
      assert forall y :: 0 <= y < |cur0| ==> Shrunk(cur0, p)[y] == cur0[y];
    } else {
      var q, w := p[..|p| - 1], via[..|p| - 1];
      var (x, v) := p[|p| - 1];
      var ci := via[|p| - 1];
      GacTrailKeepsSolutions(cons, asg, cur0, q, w);
      PruneUnsupportedKeepsSolutions(cons, asg, Shrunk(cur0, q), ci, x, v);
      assert q + [(x, v)] == p;
      ShrunkSnoc(cur0, q, x, v);
      NoLostTrans(cons, asg, cur0, Shrunk(cur0, q), Shrunk(cur0, p));
    }
  }

  /** Every seed and every constraint on a pruned variable has been popped or
      is pending. */
  ghost predicate Covered(cons: seq<Constraint>, checkList: seq<nat>, pruned: seq<Prune>, queue: seq<nat>, processed: set<nat>) {
    && (forall j :: 0 <= j < |checkList| ==> checkList[j] in processed || checkList[j] in queue)
    && (forall k, ci :: 0 <= k < |pruned| && 0 <= ci < |cons| && pruned[k].0 in cons[ci].scope ==>
          ci in processed || ci in queue)
  }

  /** Every popped constraint that is not pending again, other than those in
      hand, supports every current value of its scope. */
  ghost predicate Settled(cons: seq<Constraint>, asg: seq<Option<int>>, cur: seq<set<int>>,
                          queue: seq<nat>, processed: set<nat>, inHand: set<nat>)
    requires |asg| == |cur| && ScopesIn(cons, |cur|)
  {
    forall ci :: ci in processed ==> ci < |cons| && (ci !in queue && ci !in inHand ==> Supported(cons[ci], cur, asg))
  }

  /** Support in a constraint depends only on the domains of its scope. */
  lemma SupportedFrame(c: Constraint, cur: seq<set<int>>, asg: seq<Option<int>>, x: nat, s: set<int>)
    requires |asg| == |cur| && x < |cur| && forall k :: 0 <= k < |c.scope| ==> c.scope[k] < |cur|
    requires x !in c.scope && Supported(c, cur, asg)
    ensures Supported(c, cur[x := s], asg)
  {
    var after := cur[x := s];
    forall k, w | 0 <= k < |c.scope| && w in after[c.scope[k]] ensures HasSupport(c, after, asg, c.scope[k], w) {
      var y := c.scope[k];
      assert HasSupport(c, cur, asg, y, w);
      var t :| t in c.sat && |t| == |c.scope| &&
        forall i :: 0 <= i < |t| ==> if c.scope[i] == y then t[i] == w else t[i] in Allowed(cur, asg, c.scope[i]);
      forall i | 0 <= i < |t| ensures if c.scope[i] == y then t[i] == w else t[i] in Allowed(after, asg, c.scope[i]) {
        assert c.scope[i] != x;
      }
    }
  }

  /** Whether v of x has support never depends on x's own current domain. */
  lemma SupportIgnoresOwnDomain(c: Constraint, cur: seq<set<int>>, asg: seq<Option<int>>, x: nat, s: set<int>, v: int)
    requires x < |cur|
    ensures HasSupport(c, cur[x := s], asg, x, v) == HasSupport(c, cur, asg, x, v)
  {
    var after := cur[x := s];
    forall y: nat | y < |cur| && y != x ensures Allowed(after, asg, y) == Allowed(cur, asg, y) { }
    if HasSupport(c, cur, asg, x, v) {
      var t :| t in c.sat && |t| == |c.scope| &&
        forall i :: 0 <= i < |t| ==> if c.scope[i] == x then t[i] == v else t[i] in Allowed(cur, asg, c.scope[i]);
      assert forall i :: 0 <= i < |t| ==> if c.scope[i] == x then t[i] == v else t[i] in Allowed(after, asg, c.scope[i]);
    }
    if HasSupport(c, after, asg, x, v) {
      var t :| t in c.sat && |t| == |c.scope| &&
        forall i :: 0 <= i < |t| ==> if c.scope[i] == x then t[i] == v else t[i] in Allowed(after, asg, c.scope[i]);
      assert forall i :: 0 <= i < |t| ==> if c.scope[i] == x then t[i] == v else t[i] in Allowed(cur, asg, c.scope[i]);
    }
  }

  /** The state of GAC_Enforce between steps: the trail so far is exact and
      made of values unsupported in the constraint then revised; no domain has
      been wiped out; the queue holds constraints and has no repeats; nothing
      popped or pruned is forgotten; and whatever was popped and is settled
      supports its values. */
  ghost predicate GacInv(cons: seq<Constraint>, asg: seq<Option<int>>, cur0: seq<set<int>>, cur: seq<set<int>>,
                         pruned: seq<Prune>, via: seq<nat>, checkList: seq<nat>, queue: seq<nat>, processed: set<nat>, inHand: set<nat>)
    requires |asg| == |cur0| == |cur| && ScopesIn(cons, |cur0|)
  {
    && Trail(cur0, cur, pruned)
    && GacTrail(cons, asg, cur0, pruned, via)
    && NoneEmptied(cur0, cur)
    && (forall ci :: ci in queue ==> ci < |cons|)
    && (Distinct(checkList) ==> Distinct(queue))
    && Covered(cons, checkList, pruned, queue, processed)
    && Settled(cons, asg, cur, queue, processed, inHand)
  }

  /** The records GAC_Enforce's inner loop makes for x while revising
      constraint c: the first n listed values of x without support in c, in
      order. */
  function Revision(c: Constraint, cur: seq<set<int>>, asg: seq<Option<int>>, x: nat, vals: seq<int>, n: nat): seq<Prune>
  {
    if n == 0 || |vals| < n then []
    else
      Revision(c, cur, asg, x, vals, n - 1) + (if HasSupport(c, cur, asg, x, vals[n - 1]) then [] else [(x, vals[n - 1])])
  }

  /** Every record of a revision of x is about x. */
  lemma RevisionOfVar(c: Constraint, cur: seq<set<int>>, asg: seq<Option<int>>, x: nat, vals: seq<int>, r: seq<Prune>)
    requires r == Revision(c, cur, asg, x, vals, |vals|)
    ensures forall j :: 0 <= j < |r| ==> r[j].0 == x
  {
    RevisionSound(c, cur, asg, x, vals, |vals|);
  }

  /** A revision of x over all its values that records nothing shows that
      every value of x has support. */
  lemma RevisionEmpty(c: Constraint, cur: seq<set<int>>, asg: seq<Option<int>>, x: nat, vals: seq<int>)
    requires x < |cur| && forall v :: v in vals <==> v in cur[x]
    requires |Revision(c, cur, asg, x, vals, |vals|)| == 0
    ensures forall w :: w in cur[x] ==> HasSupport(c, cur, asg, x, w)
  {
    RevisionSound(c, cur, asg, x, vals, |vals|);
    forall w | w in cur[x] ensures HasSupport(c, cur, asg, x, w) {
      var j :| 0 <= j < |vals| && vals[j] == w;
    }
  }

  /** Every record of a revision is about x and names a listed value that
      lacks support. */
  lemma {:induction false} RevisionRecords(c: Constraint, cur: seq<set<int>>, asg: seq<Option<int>>, x: nat, vals: seq<int>, n: nat)
    requires n <= |vals|
    ensures forall k :: 0 <= k < |Revision(c, cur, asg, x, vals, n)| ==>
      var e := Revision(c, cur, asg, x, vals, n)[k];
      e.0 == x && !HasSupport(c, cur, asg, x, e.1) && exists i :: 0 <= i < n && vals[i] == e.1
  {
    if n > 0 {
      RevisionRecords(c, cur, asg, x, vals, n - 1);
      var r0 := Revision(c, cur, asg, x, vals, n - 1);
      var r := Revision(c, cur, asg, x, vals, n);
      var v := vals[n - 1];
      assert r == r0 + (if HasSupport(c, cur, asg, x, v) then [] else [(x, v)]);
      forall k | 0 <= k < |r|
        ensures r[k].0 == x && !HasSupport(c, cur, asg, x, r[k].1) && exists i :: 0 <= i < n && vals[i] == r[k].1
      {
        if k < |r0| {
          assert r[k] == r0[k];
        } else {
          assert r[k] == (x, v) && !HasSupport(c, cur, asg, x, v);
        }
      }
    }
  }

  /** Every listed value that lacks support is recorded. */
  lemma {:induction false} RevisionComplete(c: Constraint, cur: seq<set<int>>, asg: seq<Option<int>>, x: nat, vals: seq<int>, n: nat)
    requires n <= |vals|
    ensures var r := Revision(c, cur, asg, x, vals, n);
      forall j :: 0 <= j < n && !HasSupport(c, cur, asg, x, vals[j]) ==> (x, vals[j]) in r
  {
    if n > 0 {
      RevisionComplete(c, cur, asg, x, vals, n - 1);
      var r0 := Revision(c, cur, asg, x, vals, n - 1);
      var r := Revision(c, cur, asg, x, vals, n);
      assert forall k :: 0 <= k < |r0| ==> r[k] == r0[k];
      if !HasSupport(c, cur, asg, x, vals[n - 1]) {
        assert r[|r0|] == (x, vals[n - 1]);
      }
    }
  }

  /** A revision records x with exactly the listed values that lack support. */
  lemma RevisionSound(c: Constraint, cur: seq<set<int>>, asg: seq<Option<int>>, x: nat, vals: seq<int>, n: nat)
    requires n <= |vals|
    ensures var r := Revision(c, cur, asg, x, vals, n);
      && (forall k :: 0 <= k < |r| ==>
            r[k].0 == x && !HasSupport(c, cur, asg, x, r[k].1) && exists i :: 0 <= i < n && vals[i] == r[k].1)
      && (forall j :: 0 <= j < n && !HasSupport(c, cur, asg, x, vals[j]) ==> (x, vals[j]) in r)
  {
    RevisionRecords(c, cur, asg, x, vals, n);
    RevisionComplete(c, cur, asg, x, vals, n);
  }

  /** A revision of a list without repeats records no pair twice. */
  lemma {:induction false} RevisionDistinct(c: Constraint, cur: seq<set<int>>, asg: seq<Option<int>>, x: nat, vals: seq<int>, n: nat)
    requires n <= |vals| && Distinct(vals)
    ensures Distinct(Revision(c, cur, asg, x, vals, n))
  {
    if n > 0 {
      RevisionDistinct(c, cur, asg, x, vals, n - 1);
      RevisionSound(c, cur, asg, x, vals, n - 1);
      var r0 := Revision(c, cur, asg, x, vals, n - 1);
      var r := Revision(c, cur, asg, x, vals, n);
      if HasSupport(c, cur, asg, x, vals[n - 1]) {
        assert r == r0 + [];
        assert r0 + [] == r0;
      } else {
        forall a, b | 0 <= a < b < |r| ensures r[a] != r[b] {
          assert r[a] == r0[a];
          if b < |r0| {
            assert r[b] == r0[b];
          } else {
            var i :| 0 <= i < n - 1 && vals[i] == r0[a].1;
          }
        }
      }
    }
  }

  /** The values a revision of the first n listed values removes from x. */
  ghost function Dropped(c: Constraint, cur: seq<set<int>>, asg: seq<Option<int>>, x: nat, vals: seq<int>, n: nat): set<int>
  {
    if n == 0 || |vals| < n then {}
    else
      Dropped(c, cur, asg, x, vals, n - 1) + (if HasSupport(c, cur, asg, x, vals[n - 1]) then {} else {vals[n - 1]})
  }

  /** Only listed values are dropped. */
  lemma {:induction false} DroppedListed(c: Constraint, cur: seq<set<int>>, asg: seq<Option<int>>, x: nat, vals: seq<int>, n: nat, w: int)
    requires n <= |vals|
    requires w in Dropped(c, cur, asg, x, vals, n)
    ensures exists j :: 0 <= j < n && vals[j] == w
  {
    if w !in Dropped(c, cur, asg, x, vals, n - 1) {
      assert vals[n - 1] == w;
    } else {
      DroppedListed(c, cur, asg, x, vals, n - 1, w);
    }
  }

  /** A value listed once is not among those dropped before it. */
  lemma DroppedFresh(c: Constraint, cur: seq<set<int>>, asg: seq<Option<int>>, x: nat, vals: seq<int>, n: nat)
    requires n < |vals| && Distinct(vals)
    ensures vals[n] !in Dropped(c, cur, asg, x, vals, n)
  {
    if vals[n] in Dropped(c, cur, asg, x, vals, n) {
      DroppedListed(c, cur, asg, x, vals, n, vals[n]);
    }
  }

  /** After revising against c, the trail extended by the revision's records r
      is exact and made of values unsupported in c, and the total domain size
      fell exactly when something was recorded. */
  ghost predicate RevisedTrail(cons: seq<Constraint>, asg: seq<Option<int>>, cur0: seq<set<int>>, cur: seq<set<int>>,
                               pruned: seq<Prune>, via: seq<nat>, c: nat, after: seq<set<int>>, r: seq<Prune>)
    requires |asg| == |cur0| && ScopesIn(cons, |cur0|)
  {
    && Trail(cur0, after, pruned + r)
    && GacTrail(cons, asg, cur0, pruned + r, via + Repeat(c, |r|))
    && (|r| == 0 ==> after == cur)
    && (|r| > 0 ==> Total(after) < Total(cur))
  }

  /** Removing the values d and then v is removing d and v together. */
  lemma RemoveTwice(cur: seq<set<int>>, x: nat, d: set<int>, v: int)
    requires x < |cur|
    ensures cur[x := cur[x] - d][x := (cur[x] - d) - {v}] == cur[x := cur[x] - (d + {v})]
  {
    assert (cur[x] - d) - {v} == cur[x] - (d + {v});
  }

  /** Appending one record after a revision's records. */
  lemma AppendRecord(pruned: seq<Prune>, r: seq<Prune>, e: Prune)
    ensures pruned + (r + [e]) == (pruned + r) + [e]
  {
  }

  /** Recording a further unsupported value of x keeps RevisedTrail. */
  lemma RevisedTrailDrop(cons: seq<Constraint>, asg: seq<Option<int>>, cur0: seq<set<int>>, cur: seq<set<int>>,
                         pruned: seq<Prune>, via: seq<nat>, r: seq<Prune>, c: nat, x: nat, v: int, d: set<int>)
    requires |asg| == |cur0| == |cur| && ScopesIn(cons, |cur0|) && x < |cur|
    requires RevisedTrail(cons, asg, cur0, cur, pruned, via, c, cur[x := cur[x] - d], r)
    requires v in cur[x] && v !in d
    requires c < |cons| && x in cons[c].scope && !HasSupport(cons[c], cur, asg, x, v)
    ensures RevisedTrail(cons, asg, cur0, cur, pruned, via, c, cur[x := cur[x] - (d + {v})], r + [(x, v)])
  {
    var a := cur[x := cur[x] - d];
    SupportIgnoresOwnDomain(cons[c], cur, asg, x, cur[x] - d, v);
    GacPruneStep(cons, asg, cur0, a, pruned + r, via + Repeat(c, |r|), c, x, v);
    AppendRecord(pruned, r, (x, v));
    RemoveTwice(cur, x, d, v);
    RepeatSnoc(via, c, |r|);
  }

  /** One more listed value keeps the revised trail: a supported value leaves
      it as it was, an unsupported one is dropped and recorded. */
  lemma RevisedTrailNext(cons: seq<Constraint>, asg: seq<Option<int>>, cur0: seq<set<int>>, cur: seq<set<int>>,
                         pruned: seq<Prune>, via: seq<nat>, c: nat, x: nat, v: int,
                         d: set<int>, r: seq<Prune>, d': set<int>, r': seq<Prune>)
    requires |asg| == |cur0| == |cur| && ScopesIn(cons, |cur0|) && x < |cur|
    requires c < |cons| && x in cons[c].scope
    requires RevisedTrail(cons, asg, cur0, cur, pruned, via, c, cur[x := cur[x] - d], r)
    requires v in cur[x] && v !in d
    requires HasSupport(cons[c], cur, asg, x, v) ==> d' == d && r' == r
    requires !HasSupport(cons[c], cur, asg, x, v) ==> d' == d + {v} && r' == r + [(x, v)]
    ensures RevisedTrail(cons, asg, cur0, cur, pruned, via, c, cur[x := cur[x] - d'], r')
  {
    if !HasSupport(cons[c], cur, asg, x, v) {
      RevisedTrailDrop(cons, asg, cur0, cur, pruned, via, r, c, x, v, d);
    }
  }

  /** How one more listed value extends the revision: a supported value
      changes nothing, an unsupported one is removed and recorded; either way
      it was not removed before and its support does not depend on x's own
      domain. */
  lemma RevisionNext(c: Constraint, cur: seq<set<int>>, asg: seq<Option<int>>, x: nat, vals: seq<int>, n: nat)
    requires x < |cur| && 0 < n <= |vals| && Distinct(vals)
    ensures var v, d := vals[n - 1], Dropped(c, cur, asg, x, vals, n - 1);
      && v !in d
      && Dropped(c, cur, asg, x, vals, n) == (if HasSupport(c, cur, asg, x, v) then d else d + {v})
      && Revision(c, cur, asg, x, vals, n) ==
         var r := Revision(c, cur, asg, x, vals, n - 1);
         if HasSupport(c, cur, asg, x, v) then r else r + [(x, v)]
  {
    var d := Dropped(c, cur, asg, x, vals, n - 1);
    var r := Revision(c, cur, asg, x, vals, n - 1);
    assert d + {} == d;
    assert r + [] == r;
    DroppedFresh(c, cur, asg, x, vals, n - 1);
  }

  /** Revising against the n-th listed value keeps the revised trail of the
      first n - 1. */
  lemma RevisedTrailAt(cons: seq<Constraint>, asg: seq<Option<int>>, cur0: seq<set<int>>, cur: seq<set<int>>,
                       pruned: seq<Prune>, via: seq<nat>, c: nat, x: nat, vals: seq<int>, n: nat)
    requires |asg| == |cur0| == |cur| && ScopesIn(cons, |cur0|) && c < |cons| && x in cons[c].scope
    requires 0 < n <= |vals| && Distinct(vals) && forall v :: v in vals ==> v in cur[x]
    requires RevisedTrail(cons, asg, cur0, cur, pruned, via, c, cur[x := cur[x] - Dropped(cons[c], cur, asg, x, vals, n - 1)],
                          Revision(cons[c], cur, asg, x, vals, n - 1))
    ensures RevisedTrail(cons, asg, cur0, cur, pruned, via, c, cur[x := cur[x] - Dropped(cons[c], cur, asg, x, vals, n)],
                         Revision(cons[c], cur, asg, x, vals, n))
  {
    RevisionNext(cons[c], cur, asg, x, vals, n);
    RevisedTrailNext(cons, asg, cur0, cur, pruned, via, c, x, vals[n - 1],
                     Dropped(cons[c], cur, asg, x, vals, n - 1), Revision(cons[c], cur, asg, x, vals, n - 1),
                     Dropped(cons[c], cur, asg, x, vals, n), Revision(cons[c], cur, asg, x, vals, n));
  }

  /** Revising x against c extends an exact trail of unsupported values, and
      lowers the total domain size whenever it records anything. */
  lemma {:induction false} GacRevisionTrail(cons: seq<Constraint>, asg: seq<Option<int>>, cur0: seq<set<int>>, cur: seq<set<int>>,
                                            pruned: seq<Prune>, via: seq<nat>, c: nat, x: nat, vals: seq<int>, n: nat)
    requires |asg| == |cur0| == |cur| && ScopesIn(cons, |cur0|) && c < |cons| && x in cons[c].scope
    requires Trail(cur0, cur, pruned) && GacTrail(cons, asg, cur0, pruned, via)
    requires n <= |vals| && Distinct(vals) && forall v :: v in vals ==> v in cur[x]
    ensures RevisedTrail(cons, asg, cur0, cur, pruned, via, c, cur[x := cur[x] - Dropped(cons[c], cur, asg, x, vals, n)],
                         Revision(cons[c], cur, asg, x, vals, n))
  {
    if n == 0 {
      assert cur[x] - {} == cur[x];
      assert cur[x := cur[x] - {}] == cur;
      assert pruned + [] == pruned;
      assert via + Repeat(c, 0) == via;
    } else {
      GacRevisionTrail(cons, asg, cur0, cur, pruned, via, c, x, vals, n - 1);
      RevisedTrailAt(cons, asg, cur0, cur, pruned, via, c, x, vals, n);
    }
  }

  /** The queue after appending, in order, each constraint of cs that is not
      already pending. */
  function Enqueued(queue: seq<nat>, cs: seq<nat>): seq<nat>
  {
    if |cs| == 0 then queue
    else
      var q := Enqueued(queue, cs[..|cs| - 1]);
      if cs[|cs| - 1] in q then q else q + [cs[|cs| - 1]]
  }

  /** Enqueueing keeps what was pending, in front and in order, adds exactly
      the members of cs, and never creates a duplicate entry. */
  lemma {:induction false} EnqueuedSound(queue: seq<nat>, cs: seq<nat>)
    ensures var q := Enqueued(queue, cs);
      && |queue| <= |q| && q[..|queue|] == queue
      && (forall ci :: ci in q <==> ci in queue || ci in cs)
      && (Distinct(queue) ==> Distinct(q))
  {
    if |cs| > 0 {
      var init := cs[..|cs| - 1];
      EnqueuedSound(queue, init);
      var q0 := Enqueued(queue, init);
      assert forall ci :: ci in cs <==> ci in init || ci == cs[|cs| - 1];
      if cs[|cs| - 1] !in q0 {
        assert (q0 + [cs[|cs| - 1]])[..|queue|] == q0[..|queue|];
      }
    }
  }

  /** Enqueueing constraints that are all pending changes nothing. */
  lemma {:induction false} EnqueuedPresent(queue: seq<nat>, cs: seq<nat>)
    requires forall ci :: ci in cs ==> ci in queue
    ensures Enqueued(queue, cs) == queue
  {
    if |cs| > 0 {
      assert cs[|cs| - 1] in cs;
      EnqueuedPresent(queue, cs[..|cs| - 1]);
    }
  }

  /** Enqueueing the same constraints twice is enqueueing them once. */
  lemma EnqueuedIdempotent(queue: seq<nat>, cs: seq<nat>)
    ensures Enqueued(Enqueued(queue, cs), cs) == Enqueued(queue, cs)
  {
    EnqueuedSound(queue, cs);
    EnqueuedPresent(Enqueued(queue, cs), cs);
  }

  /** Appends to the queue, in order, each constraint of cs not already pending. */
  method EnqueueNew(queue: seq<nat>, cs: seq<nat>) returns (q: seq<nat>)
    ensures q == Enqueued(queue, cs)
  {
    q := queue;
    var j := 0;
    while j < |cs|
      invariant 0 <= j <= |cs|
      invariant q == Enqueued(queue, cs[..j])
    {
      assert cs[..j + 1][..j] == cs[..j];
      if cs[j] !in q {
        q := q + [cs[j]];
      }
      j := j + 1;
    }
    assert cs[..j] == cs;
  }

  /** The state of the middle loop after the first m listed values of x:
      the records and the values removed so far are those of the revision,
      the domains are the entry domains less those values, a wipeout has
      happened only at the last value, and the queue has been extended exactly
      when something was removed. */
  ghost predicate Revising(cons: seq<Constraint>, c: nat, curIn: seq<set<int>>, asg: seq<Option<int>>, x: nat,
                           vals: seq<int>, m: nat, queue: seq<nat>,
                           cur: seq<set<int>>, removed: seq<Prune>, gone: set<int>, wiped: bool, queue': seq<nat>)
    requires c < |cons| && m <= |vals|
  {
    && removed == Revision(cons[c], curIn, asg, x, vals, m)
    && gone == Dropped(cons[c], curIn, asg, x, vals, m)
    && |cur| == |curIn| && x < |curIn| && cur[x] == curIn[x] - gone
    && (forall y :: 0 <= y < |curIn| && y != x ==> cur[y] == curIn[y])
    && (wiped <==> |removed| > 0 && |cur[x]| == 0)
    && (wiped ==> m == |vals|)
    && queue' == if wiped then [] else if |removed| > 0 then Enqueued(queue, ConsWithVar(cons, x)) else queue
  }

  /** The next listed value is still current when the loop reaches it. */
  lemma RevisingNext(cons: seq<Constraint>, c: nat, curIn: seq<set<int>>, asg: seq<Option<int>>, x: nat,
                     vals: seq<int>, m: nat, queue: seq<nat>,
                     cur: seq<set<int>>, removed: seq<Prune>, gone: set<int>, wiped: bool, queue': seq<nat>)
    requires c < |cons| && m < |vals|
    requires Revising(cons, c, curIn, asg, x, vals, m, queue, cur, removed, gone, wiped, queue')
    requires Distinct(vals) && forall v :: v in vals ==> v in curIn[x]
    ensures !wiped && vals[m] in cur[x]
  {
    if vals[m] in gone {
      DroppedListed(cons[c], curIn, asg, x, vals, m, vals[m]);
    }
  }

  /** A listed value with support in c stays: testing it against the current
      domains is testing it against the entry domains, since x's own domain
      does not matter. */
  lemma RevisingKeep(cons: seq<Constraint>, c: nat, curIn: seq<set<int>>, asg: seq<Option<int>>, x: nat,
                     vals: seq<int>, m: nat, queue: seq<nat>,
                     cur: seq<set<int>>, removed: seq<Prune>, gone: set<int>, wiped: bool, queue': seq<nat>)
    requires c < |cons| && m < |vals|
    requires Revising(cons, c, curIn, asg, x, vals, m, queue, cur, removed, gone, wiped, queue')
    requires HasSupport(cons[c], cur, asg, x, vals[m])
    ensures Revising(cons, c, curIn, asg, x, vals, m + 1, queue, cur, removed, gone, wiped, queue')
  {
    assert cur == curIn[x := curIn[x] - gone];
    SupportIgnoresOwnDomain(cons[c], curIn, asg, x, curIn[x] - gone, vals[m]);
    assert !wiped;
  }

  /** A listed value without support in c is pruned and recorded; the prune
      wipes x out only at the last listed value, and otherwise the constraints
      on x end up enqueued. */
  lemma RevisingDrop(cons: seq<Constraint>, c: nat, curIn: seq<set<int>>, asg: seq<Option<int>>, x: nat,
                     vals: seq<int>, m: nat, queue: seq<nat>,
                     cur: seq<set<int>>, removed: seq<Prune>, gone: set<int>, wiped: bool, queue': seq<nat>,
                     cur2: seq<set<int>>, wiped2: bool, queue2: seq<nat>)
    requires c < |cons| && m < |vals|
    requires Revising(cons, c, curIn, asg, x, vals, m, queue, cur, removed, gone, wiped, queue')
    requires Distinct(vals) && forall v :: v in vals ==> v in curIn[x]
    requires !HasSupport(cons[c], cur, asg, x, vals[m])
    requires cur2 == cur[x := cur[x] - {vals[m]}]
    requires wiped2 <==> |cur2[x]| == 0
    requires queue2 == if wiped2 then [] else Enqueued(queue', ConsWithVar(cons, x))
    ensures Revising(cons, c, curIn, asg, x, vals, m + 1, queue, cur2, removed + [(x, vals[m])], gone + {vals[m]}, wiped2, queue2)
  {
    var v := vals[m];
    RevisingNext(cons, c, curIn, asg, x, vals, m, queue, cur, removed, gone, wiped, queue');
    UpdateAt(cur, curIn, x, curIn[x] - gone);
    SupportIgnoresOwnDomain(cons[c], curIn, asg, x, curIn[x] - gone, v);
    EnqueuedIdempotent(queue, ConsWithVar(cons, x));
    assert (curIn[x] - gone) - {v} == curIn[x] - (gone + {v});
    if m + 1 < |vals| {
      assert vals[m + 1] in cur2[x] by {
        DroppedFresh(cons[c], curIn, asg, x, vals, m + 1);
      }
    }
  }

  /** A sequence that agrees with cur everywhere except at x, where it holds s. */
  lemma UpdateAt(cur: seq<set<int>>, curIn: seq<set<int>>, x: nat, s: set<int>)
    requires |cur| == |curIn| && x < |curIn| && cur[x] == s
    requires forall y :: 0 <= y < |curIn| && y != x ==> cur[y] == curIn[y]
    ensures cur == curIn[x := s]
  {
  }

  /** The body of GAC_Enforce's innermost loop: v, a current value of x, is
      pruned exactly when c gives it no support in the current domains; a
      prune that empties x clears the queue and reports the wipeout, any other
      prune enqueues the constraints on x that are not pending. */
  method ReviseValue(csp: Store, c: nat, x: nat, v: int, queue: seq<nat>) returns (dropped: bool, wiped: bool, queue': seq<nat>)
    requires csp.Valid() && c < |csp.cons| && x in csp.cons[c].scope && v in csp.cur[x]
    modifies csp
    ensures csp.Valid() && csp.asg == old(csp.asg)
    ensures dropped <==> !HasSupport(csp.cons[c], old(csp.cur), csp.asg, x, v)
    ensures csp.cur == if dropped then old(csp.cur)[x := old(csp.cur)[x] - {v}] else old(csp.cur)
    ensures wiped <==> dropped && |csp.cur[x]| == 0
    ensures queue' == if wiped then [] else if dropped then Enqueued(queue, ConsWithVar(csp.cons, x)) else queue
  {
    dropped := !HasSupport(csp.cons[c], csp.cur, csp.asg, x, v);
    wiped, queue' := false, queue;
    if dropped {
      csp.PruneValue(x, v);
      if |csp.cur[x]| == 0 {
        wiped, queue' := true, [];
      } else {
        queue' := EnqueueNew(queue, ConsWithVar(csp.cons, x));
      }
    }
  }

  /** One pass of GAC_Enforce's middle loop: every current value of x (a scope
      variable of constraint c) without support in c is pruned and returned in
      domain order, and after each prune the constraints on x that are not
      pending are enqueued, unless x has just been wiped out, in which case
      the queue is cleared. */
  method ReviseVar(csp: Store, c: nat, x: nat, queue: seq<nat>)
    returns (wiped: bool, queue': seq<nat>, removed: seq<Prune>)
    requires csp.Valid() && c < |csp.cons| && x in csp.cons[c].scope
    modifies csp
    ensures csp.Valid() && csp.asg == old(csp.asg)
    ensures removed == Revision(csp.cons[c], old(csp.cur), csp.asg, x, old(csp.CurDomain(x)), |old(csp.CurDomain(x))|)
    ensures csp.cur == old(csp.cur)[x := old(csp.cur)[x] - Dropped(csp.cons[c], old(csp.cur), csp.asg, x, old(csp.CurDomain(x)), |old(csp.CurDomain(x))|)]
    ensures wiped <==> |removed| > 0 && csp.cur[x] == {}
    ensures queue' == if wiped then [] else if |removed| > 0 then Enqueued(queue, ConsWithVar(csp.cons, x)) else queue
  {
    var cons, asg := csp.cons, csp.asg;
    ghost var curIn := csp.cur;
    wiped, queue', removed := false, queue, [];
    var vals := csp.CurDomain(x);
    ghost var gone: set<int> := {};
    var m := 0;
    while m < |vals|
      invariant 0 <= m <= |vals|
      invariant csp.Valid() && csp.asg == asg
      invariant Revising(cons, c, curIn, asg, x, vals, m, queue, csp.cur, removed, gone, wiped, queue')
    {
      var v := vals[m];
      RevisingNext(cons, c, curIn, asg, x, vals, m, queue, csp.cur, removed, gone, wiped, queue');
      ghost var cur, removed0, gone0, queue0 := csp.cur, removed, gone, queue';
      var dropped;
      dropped, wiped, queue' := ReviseValue(csp, c, x, v, queue');
      if dropped {
        RevisingDrop(cons, c, curIn, asg, x, vals, m, queue, cur, removed0, gone0, false, queue0, csp.cur, wiped, queue');
        removed := removed + [(x, v)];
        gone := gone + {v};
      } else {
        assert !wiped && queue' == queue0 && csp.cur == cur;
        RevisingKeep(cons, c, curIn, asg, x, vals, m, queue, cur, removed0, gone0, false, queue0);
      }
      m := m + 1;
    }
    UpdateAt(csp.cur, curIn, x, curIn[x] - gone);
  }

  /** What the queue becomes when the constraints on x are enqueued: what was
      pending stays, exactly those constraints join, and no entry repeats. */
  lemma ReviseQueue(cons: seq<Constraint>, x: nat, queue: seq<nat>)
    ensures var q := Enqueued(queue, ConsWithVar(cons, x));
      && (forall ci :: ci in q <==> ci in queue || (0 <= ci < |cons| && x in cons[ci].scope))
      && (Distinct(queue) ==> Distinct(q))
  {
    EnqueuedSound(queue, ConsWithVar(cons, x));
  }

  /** Records about x keep everything covered once the constraints on x are
      pending. */
  lemma CoveredGrow(cons: seq<Constraint>, checkList: seq<nat>, pruned: seq<Prune>, r: seq<Prune>,
                    queue: seq<nat>, q: seq<nat>, processed: set<nat>, x: nat)
    requires Covered(cons, checkList, pruned, queue, processed)
    requires forall k :: 0 <= k < |r| ==> r[k].0 == x
    requires forall ci :: ci in q <==> ci in queue || (0 <= ci < |cons| && x in cons[ci].scope)
    ensures Covered(cons, checkList, pruned + r, q, processed)
  {
    var p := pruned + r;
    forall k, ci | 0 <= k < |p| && 0 <= ci < |cons| && p[k].0 in cons[ci].scope ensures ci in processed || ci in q {
      if k < |pruned| {
        assert p[k] == pruned[k];
      } else {
        assert p[k] == r[k - |pruned|];
      }
    }
  }

  /** Changing x's domain leaves every settled constraint not on x supported,
      so with the constraints on x pending nothing settled is disturbed. */
  lemma SettledGrow(cons: seq<Constraint>, asg: seq<Option<int>>, cur: seq<set<int>>, s: set<int>,
                    queue: seq<nat>, q: seq<nat>, processed: set<nat>, c: nat, x: nat)
    requires |asg| == |cur| && ScopesIn(cons, |cur|) && x < |cur|
    requires Settled(cons, asg, cur, queue, processed, {c})
    requires forall ci :: ci in q <==> ci in queue || (0 <= ci < |cons| && x in cons[ci].scope)
    ensures Settled(cons, asg, cur[x := s], q, processed, {c})
  {
    forall ci | ci in processed ensures ci < |cons| && (ci !in q && ci !in {c} ==> Supported(cons[ci], cur[x := s], asg)) {
      if ci !in q && ci != c {
        SupportedFrame(cons[ci], cur, asg, x, s);
      }
    }
  }

  /** GAC_Enforce stopped at a wipeout: the trail is exact and made of
      unsupported values, its last record emptied a domain, and the queue has
      been cleared. */
  ghost predicate Wiped(cons: seq<Constraint>, asg: seq<Option<int>>, cur0: seq<set<int>>, cur: seq<set<int>>,
                        pruned: seq<Prune>, via: seq<nat>, queue: seq<nat>)
    requires |asg| == |cur0| && ScopesIn(cons, |cur0|)
  {
    && Trail(cur0, cur, pruned)
    && GacTrail(cons, asg, cur0, pruned, via)
    && |pruned| > 0 && pruned[|pruned| - 1].0 < |cur| && cur[pruned[|pruned| - 1].0] == {}
    && (forall y :: 0 <= y < |cur0| && y != pruned[|pruned| - 1].0 && cur0[y] != {} ==> cur[y] != {})
    && |queue| == 0
  }

  /** Constraint ci got onto the queue legitimately given the trail p: it is a
      seed, or a scope variable of it has a record in p. */
  ghost predicate Sourced(cons: seq<Constraint>, seeds: seq<nat>, p: seq<Prune>, ci: nat) {
    ci in seeds || (ci < |cons| && exists m :: 0 <= m < |p| && p[m].0 in cons[ci].scope)
  }

  /** Every pending constraint is sourced. */
  ghost predicate QueueSourced(cons: seq<Constraint>, seeds: seq<nat>, p: seq<Prune>, queue: seq<nat>) {
    forall ci :: ci in queue ==> Sourced(cons, seeds, p, ci)
  }

  /** Every popped constraint is sourced. */
  ghost predicate PoppedSourced(cons: seq<Constraint>, seeds: seq<nat>, p: seq<Prune>, processed: set<nat>) {
    forall ci :: ci in processed ==> Sourced(cons, seeds, p, ci)
  }

  /** The constraint behind each record was a seed, or had a variable pruned
      by an earlier record: the queue discipline of AC-3. */
  ghost predicate ViaSourced(cons: seq<Constraint>, seeds: seq<nat>, p: seq<Prune>, via: seq<nat>) {
    && |via| == |p|
    && forall k :: 0 <= k < |via| ==>
         via[k] in seeds || (via[k] < |cons| && exists m :: 0 <= m < k && p[m].0 in cons[via[k]].scope)
  }

  /** A sourced constraint stays sourced as the trail grows. */
  lemma SourcedGrow(cons: seq<Constraint>, seeds: seq<nat>, p: seq<Prune>, r: seq<Prune>, ci: nat)
    requires Sourced(cons, seeds, p, ci)
    ensures Sourced(cons, seeds, p + r, ci)
  {
    if ci !in seeds {
      var m :| 0 <= m < |p| && p[m].0 in cons[ci].scope;
      assert (p + r)[m] == p[m];
    }
  }

  /** Popped constraints stay sourced as the trail grows. */
  lemma PoppedSourcedGrow(cons: seq<Constraint>, seeds: seq<nat>, p: seq<Prune>, r: seq<Prune>, processed: set<nat>)
    requires PoppedSourced(cons, seeds, p, processed)
    ensures PoppedSourced(cons, seeds, p + r, processed)
  {
    forall ci | ci in processed ensures Sourced(cons, seeds, p + r, ci) {
      SourcedGrow(cons, seeds, p, r, ci);
    }
  }

  /** Enqueuing the constraints on x after records about x keeps the queue
      sourced. */
  lemma QueueSourcedGrow(cons: seq<Constraint>, seeds: seq<nat>, p: seq<Prune>, r: seq<Prune>, queue: seq<nat>, x: nat)
    requires QueueSourced(cons, seeds, p, queue)
    requires |r| > 0 && r[0].0 == x
    ensures QueueSourced(cons, seeds, p + r, Enqueued(queue, ConsWithVar(cons, x)))
  {
    ReviseQueue(cons, x, queue);
    forall ci | ci in Enqueued(queue, ConsWithVar(cons, x)) ensures Sourced(cons, seeds, p + r, ci) {
      if ci in queue {
        SourcedGrow(cons, seeds, p, r, ci);
      } else {
        assert (p + r)[|p|] == r[0];
      }
    }
  }

  /** The records of a revision against a sourced constraint keep the trail
      sourced. */
  lemma ViaSourcedGrow(cons: seq<Constraint>, seeds: seq<nat>, p: seq<Prune>, via: seq<nat>, r: seq<Prune>, c: nat)
    requires ViaSourced(cons, seeds, p, via) && Sourced(cons, seeds, p, c)
    ensures ViaSourced(cons, seeds, p + r, via + Repeat(c, |r|))
  {
    RepeatAt(c, |r|);
    var p2, w := p + r, via + Repeat(c, |r|);
    forall k | 0 <= k < |w|
      ensures w[k] in seeds || (w[k] < |cons| && exists m :: 0 <= m < k && p2[m].0 in cons[w[k]].scope)
    {
      if k < |via| {
        assert w[k] == via[k];
        if via[k] !in seeds {
          var m :| 0 <= m < k && p[m].0 in cons[via[k]].scope;
          assert p2[m] == p[m];
        }
      } else {
        assert w[k] == c;
        if c !in seeds {
          var m :| 0 <= m < |p| && p[m].0 in cons[c].scope;
          assert p2[m] == p[m];
        }
      }
    }
  }

  /** A trail whose last record emptied a domain, leaving every other
      non-empty domain non-empty, emptied nothing before that record: each
      record was made while no domain was wiped out. */
  lemma WipedLast(cur0: seq<set<int>>, cur: seq<set<int>>, p: seq<Prune>)
    requires Trail(cur0, cur, p) && |p| > 0
    requires forall y :: 0 <= y < |cur0| && y != p[|p| - 1].0 && cur0[y] != {} ==> cur[y] != {}
    ensures forall k :: 0 <= k < |p| ==> NoneEmptied(cur0, Shrunk(cur0, p[..k]))
  {
    var n := |p| - 1;
    var (x, w) := p[n];
    forall k | 0 <= k < |p| ensures NoneEmptied(cur0, Shrunk(cur0, p[..k])) {
      var q := p[..k];
      forall y | 0 <= y < |cur0| && cur0[y] != {} ensures Shrunk(cur0, q)[y] != {} {
        assert PrunedOf(q, y) <= PrunedOf(p, y) by {
          forall e | e in PrunedOf(q, y) ensures e in PrunedOf(p, y) {
            var i :| 0 <= i < |q| && q[i].0 == y && q[i].1 == e;
            assert p[i] == q[i];
          }
        }
        if y == x {
          forall i | 0 <= i < |q| ensures q[i] != (x, w) {
            assert q[i] == p[i];
          }
          assert w in Shrunk(cur0, q)[y];
        } else {
          assert cur[y] <= Shrunk(cur0, q)[y];
        }
      }
    }
  }

  /** Every record was caused by a constraint that has been popped. */
  ghost predicate ViaPopped(via: seq<nat>, processed: set<nat>) {
    forall k :: 0 <= k < |via| ==> via[k] in processed
  }

  /** The records of a revision against a popped constraint were caused by a
      popped constraint. */
  lemma ViaGrow(via: seq<nat>, processed: set<nat>, c: nat, n: nat)
    requires ViaPopped(via, processed) && c in processed
    ensures ViaPopped(via + Repeat(c, n), processed)
  {
    var w := via + Repeat(c, n);
    RepeatAt(c, n);
    forall k | 0 <= k < |w| ensures w[k] in processed {
      if k < |via| { assert w[k] == via[k]; } else { assert w[k] == c; }
    }
  }

  /** The state of GAC_Enforce's outer loop: the invariant while it runs, the
      wipeout facts once it has stopped on one. */
  ghost predicate GacState(cons: seq<Constraint>, asg: seq<Option<int>>, cur0: seq<set<int>>, cur: seq<set<int>>,
                           pruned: seq<Prune>, via: seq<nat>, checkList: seq<nat>, queue: seq<nat>, processed: set<nat>, ok: bool)
    requires |asg| == |cur0| == |cur| && ScopesIn(cons, |cur0|)
  {
    && ViaPopped(via, processed)
    && ViaSourced(cons, checkList, pruned, via)
    && QueueSourced(cons, checkList, pruned, queue)
    && PoppedSourced(cons, checkList, pruned, processed)
    && if ok then GacInv(cons, asg, cur0, cur, pruned, via, checkList, queue, processed, {})
       else Wiped(cons, asg, cur0, cur, pruned, via, queue)
  }

  /** The state of GAC_Enforce's middle loop after the first k scope variables
      of the popped constraint c have been revised. Unless a wipeout stopped it,
      the invariant holds with c in hand; if anything was pruned since the pop,
      c is pending again and the domains have shrunk; otherwise nothing has
      changed and every revised variable's values have support in c. */
  ghost predicate InPass(cons: seq<Constraint>, asg: seq<Option<int>>, cur0: seq<set<int>>, cur: seq<set<int>>,
                         pruned: seq<Prune>, via: seq<nat>, checkList: seq<nat>, queue: seq<nat>, processed: set<nat>,
                         c: nat, k: nat, curAtPop: seq<set<int>>, queueAtPop: seq<nat>, prunedAtPop: seq<Prune>, ok: bool)
    requires |asg| == |cur0| == |cur| && ScopesIn(cons, |cur0|) && c < |cons|
  {
    && c in processed
    && ViaPopped(via, processed)
    && Sourced(cons, checkList, pruned, c)
    && ViaSourced(cons, checkList, pruned, via)
    && QueueSourced(cons, checkList, pruned, queue)
    && PoppedSourced(cons, checkList, pruned, processed)
    && if !ok then Wiped(cons, asg, cur0, cur, pruned, via, queue) && Total(cur) < Total(curAtPop)
    else
      && GacInv(cons, asg, cur0, cur, pruned, via, checkList, queue, processed, {c})
      && |prunedAtPop| <= |pruned|
      && (|pruned| > |prunedAtPop| ==> c in queue && Total(cur) < Total(curAtPop))
      && (|pruned| == |prunedAtPop| ==> cur == curAtPop && queue == queueAtPop)
      && (|pruned| == |prunedAtPop| ==>
            forall kk, w {:trigger HasSupport(cons[c], cur, asg, cons[c].scope[kk], w)} ::
              0 <= kk < k && kk < |cons[c].scope| && w in cur[cons[c].scope[kk]] ==> HasSupport(cons[c], cur, asg, cons[c].scope[kk], w))
  }

  /** Popping the head of a non-empty queue starts a pass over its scope with
      the head in hand. */
  lemma GacPop(cons: seq<Constraint>, asg: seq<Option<int>>, cur0: seq<set<int>>, cur: seq<set<int>>,
               pruned: seq<Prune>, via: seq<nat>, checkList: seq<nat>, queue: seq<nat>, processed: set<nat>, ok: bool)
    requires |asg| == |cur0| == |cur| && ScopesIn(cons, |cur0|) && |queue| > 0
    requires GacState(cons, asg, cur0, cur, pruned, via, checkList, queue, processed, ok)
    ensures ok && queue[0] < |cons|
    ensures InPass(cons, asg, cur0, cur, pruned, via, checkList, queue[1..], processed + {queue[0]},
                   queue[0], 0, cur, queue[1..], pruned, true)
  {
    var q := queue[1..];
    assert queue[0] in queue;
    assert forall j :: 0 <= j < |q| ==> q[j] == queue[j + 1];
    assert forall ci :: ci in queue ==> ci == queue[0] || ci in q;
    assert forall ci :: ci in q ==> ci in queue;
  }

  /** A revision that records nothing changes nothing, and shows that every
      value of x has support in c. */
  lemma GacReviseNone(cons: seq<Constraint>, asg: seq<Option<int>>, cur0: seq<set<int>>, cur: seq<set<int>>,
                      pruned: seq<Prune>, via: seq<nat>, checkList: seq<nat>, queue: seq<nat>, processed: set<nat>,
                      c: nat, k: nat, curAtPop: seq<set<int>>, queueAtPop: seq<nat>, prunedAtPop: seq<Prune>,
                      vals: seq<int>, after: seq<set<int>>)
    requires |asg| == |cur0| == |cur| && ScopesIn(cons, |cur0|) && c < |cons| && k < |cons[c].scope|
    requires InPass(cons, asg, cur0, cur, pruned, via, checkList, queue, processed, c, k, curAtPop, queueAtPop, prunedAtPop, true)
    requires forall v :: v in vals <==> v in cur[cons[c].scope[k]]
    requires |Revision(cons[c], cur, asg, cons[c].scope[k], vals, |vals|)| == 0
    requires RevisedTrail(cons, asg, cur0, cur, pruned, via, c, after, [])
    ensures InPass(cons, asg, cur0, after, pruned + [], via + Repeat(c, 0), checkList, queue, processed, c, k + 1,
                   curAtPop, queueAtPop, prunedAtPop, true)
  {
    var x := cons[c].scope[k];
    assert pruned + [] == pruned;
    assert via + Repeat(c, 0) == via;
    RevisionEmpty(cons[c], cur, asg, x, vals);
  }

  /** A revision that records something but wipes nothing out: the trail
      grows, c and every other constraint on x are pending, and the domains
      have shrunk. */
  lemma GacReviseGrow(cons: seq<Constraint>, asg: seq<Option<int>>, cur0: seq<set<int>>, cur: seq<set<int>>,
                      pruned: seq<Prune>, via: seq<nat>, checkList: seq<nat>, queue: seq<nat>, processed: set<nat>,
                      c: nat, k: nat, curAtPop: seq<set<int>>, queueAtPop: seq<nat>, prunedAtPop: seq<Prune>,
                      r: seq<Prune>, after: seq<set<int>>, q: seq<nat>, wiped: bool)
    requires |asg| == |cur0| == |cur| && ScopesIn(cons, |cur0|) && c < |cons| && k < |cons[c].scope|
    requires InPass(cons, asg, cur0, cur, pruned, via, checkList, queue, processed, c, k, curAtPop, queueAtPop, prunedAtPop, true)
    requires |r| > 0 && forall j :: 0 <= j < |r| ==> r[j].0 == cons[c].scope[k]
    requires |after| == |cur| && after == cur[cons[c].scope[k] := after[cons[c].scope[k]]]
    requires after[cons[c].scope[k]] != {} && RevisedTrail(cons, asg, cur0, cur, pruned, via, c, after, r)
    requires q == Enqueued(queue, ConsWithVar(cons, cons[c].scope[k])) && !wiped
    ensures InPass(cons, asg, cur0, after, pruned + r, via + Repeat(c, |r|), checkList, q, processed, c, k + 1,
                   curAtPop, queueAtPop, prunedAtPop, !wiped)
  {
    var x := cons[c].scope[k];
    var s := after[x];
    ViaGrow(via, processed, c, |r|);
    SourcedGrow(cons, checkList, pruned, r, c);
    ViaSourcedGrow(cons, checkList, pruned, via, r, c);
    PoppedSourcedGrow(cons, checkList, pruned, r, processed);
    QueueSourcedGrow(cons, checkList, pruned, r, queue, x);
    GacInvGrow(cons, asg, cur0, cur, pruned, via, checkList, queue, processed, c, x, r, s);
    ReviseQueue(cons, x, queue);
  }

  /** The GAC invariant, with c in hand, survives a revision of x against c
      that records something without wiping x out. */
  lemma GacInvGrow(cons: seq<Constraint>, asg: seq<Option<int>>, cur0: seq<set<int>>, cur: seq<set<int>>,
                   pruned: seq<Prune>, via: seq<nat>, checkList: seq<nat>, queue: seq<nat>, processed: set<nat>,
                   c: nat, x: nat, r: seq<Prune>, s: set<int>)
    requires |asg| == |cur0| == |cur| && ScopesIn(cons, |cur0|) && c < |cons| && x < |cur|
    requires GacInv(cons, asg, cur0, cur, pruned, via, checkList, queue, processed, {c})
    requires forall j :: 0 <= j < |r| ==> r[j].0 == x
    requires s != {} && RevisedTrail(cons, asg, cur0, cur, pruned, via, c, cur[x := s], r)
    ensures GacInv(cons, asg, cur0, cur[x := s], pruned + r, via + Repeat(c, |r|), checkList,
                   Enqueued(queue, ConsWithVar(cons, x)), processed, {c})
  {
    var q := Enqueued(queue, ConsWithVar(cons, x));
    assert NoneEmptied(cur0, cur[x := s]);
    ReviseQueue(cons, x, queue);
    CoveredGrow(cons, checkList, pruned, r, queue, q, processed, x);
    SettledGrow(cons, asg, cur, s, queue, q, processed, c, x);
  }


  /** A revision that wipes x out leaves the wipeout state. */
  lemma GacReviseWipe(cons: seq<Constraint>, asg: seq<Option<int>>, cur0: seq<set<int>>, cur: seq<set<int>>,
                      pruned: seq<Prune>, via: seq<nat>, checkList: seq<nat>, queue: seq<nat>, processed: set<nat>,
                      c: nat, k: nat, curAtPop: seq<set<int>>, queueAtPop: seq<nat>, prunedAtPop: seq<Prune>,
                      r: seq<Prune>, after: seq<set<int>>, q: seq<nat>, wiped: bool)
    requires |asg| == |cur0| == |cur| && ScopesIn(cons, |cur0|) && c < |cons| && k < |cons[c].scope|
    requires InPass(cons, asg, cur0, cur, pruned, via, checkList, queue, processed, c, k, curAtPop, queueAtPop, prunedAtPop, true)
    requires RevisedTrail(cons, asg, cur0, cur, pruned, via, c, after, r)
    requires |r| > 0 && r[|r| - 1].0 == cons[c].scope[k] && after[cons[c].scope[k]] == {}
    requires |after| == |cur| && after == cur[cons[c].scope[k] := after[cons[c].scope[k]]]
    requires q == [] && wiped
    ensures InPass(cons, asg, cur0, after, pruned + r, via + Repeat(c, |r|), checkList, q, processed, c, k + 1, curAtPop, queueAtPop, prunedAtPop, !wiped)
  {
    ViaGrow(via, processed, c, |r|);
    SourcedGrow(cons, checkList, pruned, r, c);
    ViaSourcedGrow(cons, checkList, pruned, via, r, c);
    PoppedSourcedGrow(cons, checkList, pruned, r, processed);
    assert (pruned + r)[|pruned + r| - 1] == r[|r| - 1];
  }

  /** One revision, as ReviseVar performs it, advances the pass. */
  lemma GacReviseStep(cons: seq<Constraint>, asg: seq<Option<int>>, cur0: seq<set<int>>, cur: seq<set<int>>,
                      pruned: seq<Prune>, via: seq<nat>, checkList: seq<nat>, queue: seq<nat>, processed: set<nat>,
                      c: nat, k: nat, curAtPop: seq<set<int>>, queueAtPop: seq<nat>, prunedAtPop: seq<Prune>,
                      vals: seq<int>, after: seq<set<int>>, r: seq<Prune>, q: seq<nat>, wiped: bool)
    requires |asg| == |cur0| == |cur| && ScopesIn(cons, |cur0|) && c < |cons| && k < |cons[c].scope|
    requires InPass(cons, asg, cur0, cur, pruned, via, checkList, queue, processed, c, k, curAtPop, queueAtPop, prunedAtPop, true)
    requires Distinct(vals) && forall v :: v in vals <==> v in cur[cons[c].scope[k]]
    requires r == Revision(cons[c], cur, asg, cons[c].scope[k], vals, |vals|)
    requires after == cur[cons[c].scope[k] := cur[cons[c].scope[k]] - Dropped(cons[c], cur, asg, cons[c].scope[k], vals, |vals|)]
    requires wiped <==> |r| > 0 && after[cons[c].scope[k]] == {}
    requires q == if wiped then [] else if |r| > 0 then Enqueued(queue, ConsWithVar(cons, cons[c].scope[k])) else queue
    ensures InPass(cons, asg, cur0, after, pruned + r, via + Repeat(c, |r|), checkList, q, processed, c, k + 1,
                   curAtPop, queueAtPop, prunedAtPop, !wiped)
  {
    if |r| == 0 {
      PassRevisionTrail(cons, asg, cur0, cur, pruned, via, checkList, queue, processed, c, k, curAtPop, queueAtPop, prunedAtPop, vals, after, r);
      assert r == [] && q == queue && !wiped;
      GacReviseNone(cons, asg, cur0, cur, pruned, via, checkList, queue, processed, c, k, curAtPop, queueAtPop, prunedAtPop, vals, after);
    } else {
      GacReviseSome(cons, asg, cur0, cur, pruned, via, checkList, queue, processed, c, k, curAtPop, queueAtPop, prunedAtPop,
                    vals, after, r, q, wiped);
    }
  }

  /** Mid-pass, the trail so far is exact and unsupported, so revising the
      next scope variable extends it as GacRevisionTrail says. */
  lemma PassRevisionTrail(cons: seq<Constraint>, asg: seq<Option<int>>, cur0: seq<set<int>>, cur: seq<set<int>>,
                          pruned: seq<Prune>, via: seq<nat>, checkList: seq<nat>, queue: seq<nat>, processed: set<nat>,
                          c: nat, k: nat, curAtPop: seq<set<int>>, queueAtPop: seq<nat>, prunedAtPop: seq<Prune>,
                          vals: seq<int>, after: seq<set<int>>, r: seq<Prune>)
    requires |asg| == |cur0| == |cur| && ScopesIn(cons, |cur0|) && c < |cons| && k < |cons[c].scope|
    requires InPass(cons, asg, cur0, cur, pruned, via, checkList, queue, processed, c, k, curAtPop, queueAtPop, prunedAtPop, true)
    requires Distinct(vals) && forall v :: v in vals <==> v in cur[cons[c].scope[k]]
    requires r == Revision(cons[c], cur, asg, cons[c].scope[k], vals, |vals|)
    requires after == cur[cons[c].scope[k] := cur[cons[c].scope[k]] - Dropped(cons[c], cur, asg, cons[c].scope[k], vals, |vals|)]
    ensures RevisedTrail(cons, asg, cur0, cur, pruned, via, c, after, r)
    ensures |after| == |cur| && after == cur[cons[c].scope[k] := after[cons[c].scope[k]]]
  {
    assert GacInv(cons, asg, cur0, cur, pruned, via, checkList, queue, processed, {c});
    GacRevisionTrail(cons, asg, cur0, cur, pruned, via, c, cons[c].scope[k], vals, |vals|);
  }

  /** A revision that records something either wipes x out or shrinks it. */
  lemma GacReviseSome(cons: seq<Constraint>, asg: seq<Option<int>>, cur0: seq<set<int>>, cur: seq<set<int>>,
                      pruned: seq<Prune>, via: seq<nat>, checkList: seq<nat>, queue: seq<nat>, processed: set<nat>,
                      c: nat, k: nat, curAtPop: seq<set<int>>, queueAtPop: seq<nat>, prunedAtPop: seq<Prune>,
                      vals: seq<int>, after: seq<set<int>>, r: seq<Prune>, q: seq<nat>, wiped: bool)
    requires |asg| == |cur0| == |cur| && ScopesIn(cons, |cur0|) && c < |cons| && k < |cons[c].scope|
    requires InPass(cons, asg, cur0, cur, pruned, via, checkList, queue, processed, c, k, curAtPop, queueAtPop, prunedAtPop, true)
    requires Distinct(vals) && forall v :: v in vals <==> v in cur[cons[c].scope[k]]
    requires r == Revision(cons[c], cur, asg, cons[c].scope[k], vals, |vals|) && |r| > 0
    requires after == cur[cons[c].scope[k] := cur[cons[c].scope[k]] - Dropped(cons[c], cur, asg, cons[c].scope[k], vals, |vals|)]
    requires wiped <==> after[cons[c].scope[k]] == {}
    requires q == if wiped then [] else Enqueued(queue, ConsWithVar(cons, cons[c].scope[k]))
    ensures InPass(cons, asg, cur0, after, pruned + r, via + Repeat(c, |r|), checkList, q, processed, c, k + 1,
                   curAtPop, queueAtPop, prunedAtPop, !wiped)
  {
    PassRevisionTrail(cons, asg, cur0, cur, pruned, via, checkList, queue, processed, c, k, curAtPop, queueAtPop, prunedAtPop, vals, after, r);
    RevisionOfVar(cons[c], cur, asg, cons[c].scope[k], vals, r);
    if wiped {
      GacReviseWipe(cons, asg, cur0, cur, pruned, via, checkList, queue, processed, c, k, curAtPop, queueAtPop, prunedAtPop, r, after, q, wiped);
    } else {
      GacReviseGrow(cons, asg, cur0, cur, pruned, via, checkList, queue, processed, c, k, curAtPop, queueAtPop, prunedAtPop, r, after, q, wiped);
    }
  }

  /** When the pass ends, it has either covered the whole scope or stopped at a
      wipeout. */
  lemma GacPassEnd(cons: seq<Constraint>, asg: seq<Option<int>>, cur0: seq<set<int>>, cur: seq<set<int>>,
                   pruned: seq<Prune>, via: seq<nat>, checkList: seq<nat>, queue: seq<nat>, processed: set<nat>,
                   c: nat, k: nat, curAtPop: seq<set<int>>, queueAtPop: seq<nat>, prunedAtPop: seq<Prune>, ok: bool)
    requires |asg| == |cur0| == |cur| && ScopesIn(cons, |cur0|) && c < |cons|
    requires InPass(cons, asg, cur0, cur, pruned, via, checkList, queue, processed, c, k, curAtPop, queueAtPop, prunedAtPop, ok)
    requires ok ==> k == |cons[c].scope|
    ensures InPass(cons, asg, cur0, cur, pruned, via, checkList, queue, processed, c, |cons[c].scope|, curAtPop, queueAtPop, prunedAtPop, ok)
  {
  }

  /** A finished or stopped pass leaves the outer loop's state, having either
      shrunk the domains or only shortened the queue. */
  lemma GacPassDone(cons: seq<Constraint>, asg: seq<Option<int>>, cur0: seq<set<int>>, cur: seq<set<int>>,
                    pruned: seq<Prune>, via: seq<nat>, checkList: seq<nat>, queue: seq<nat>, processed: set<nat>,
                    c: nat, curAtPop: seq<set<int>>, queueAtPop: seq<nat>, prunedAtPop: seq<Prune>, ok: bool)
    requires |asg| == |cur0| == |cur| && ScopesIn(cons, |cur0|) && c < |cons| && c in processed
    requires InPass(cons, asg, cur0, cur, pruned, via, checkList, queue, processed, c, |cons[c].scope|, curAtPop, queueAtPop, prunedAtPop, ok)
    ensures GacState(cons, asg, cur0, cur, pruned, via, checkList, queue, processed, ok)
    ensures Total(cur) < Total(curAtPop) || (cur == curAtPop && queue == queueAtPop)
  {
    if ok && |pruned| == |prunedAtPop| {
      assert Supported(cons[c], cur, asg);
    }
  }

  /** With the queue empty and no wipeout, every seed and every constraint on a
      pruned variable was popped, and every popped constraint supports every
      current value of its scope. */
  lemma GacFixpoint(cons: seq<Constraint>, asg: seq<Option<int>>, cur0: seq<set<int>>, cur: seq<set<int>>,
                    pruned: seq<Prune>, via: seq<nat>, checkList: seq<nat>, processed: set<nat>)
    requires |asg| == |cur0| == |cur| && ScopesIn(cons, |cur0|)
    requires GacInv(cons, asg, cur0, cur, pruned, via, checkList, [], processed, {})
    ensures forall j :: 0 <= j < |checkList| ==> checkList[j] in processed
    ensures forall k, ci :: 0 <= k < |pruned| && 0 <= ci < |cons| && pruned[k].0 in cons[ci].scope ==> ci in processed
    ensures forall ci :: ci in processed ==> ci < |cons| && Supported(cons[ci], cur, asg)
  {
  }

  /** Whatever way GAC_Enforce stops, its trail loses no solution; a wipeout
      shows there is none. */
  lemma GacDone(cons: seq<Constraint>, asg: seq<Option<int>>, cur0: seq<set<int>>, cur: seq<set<int>>,
                pruned: seq<Prune>, via: seq<nat>, checkList: seq<nat>, processed: set<nat>, ok: bool)
    requires |asg| == |cur0| == |cur| && ScopesIn(cons, |cur0|)
    requires GacState(cons, asg, cur0, cur, pruned, via, checkList, [], processed, ok)
    ensures Trail(cur0, cur, pruned) && GacTrail(cons, asg, cur0, pruned, via)
    ensures NoLostSolutions(cons, asg, cur0, cur)
    ensures ok ==> NoneEmptied(cur0, cur)
    ensures !ok ==> |pruned| > 0 && cur[pruned[|pruned| - 1].0] == {}
    ensures !ok ==> forall k :: 0 <= k < |pruned| ==> NoneEmptied(cur0, Shrunk(cur0, pruned[..k]))
    ensures !ok ==> forall s :: !IsSolution(cons, cur0, asg, s)
    ensures |via| == |pruned| && forall k :: 0 <= k < |via| ==>
      via[k] in checkList || (via[k] < |cons| && exists m :: 0 <= m < k && pruned[m].0 in cons[via[k]].scope)
    ensures forall ci :: ci in processed ==>
      ci in checkList || (ci < |cons| && exists m :: 0 <= m < |pruned| && pruned[m].0 in cons[ci].scope)
  {
    ShrunkIsCurrent(cur0, cur, pruned);
    GacTrailKeepsSolutions(cons, asg, cur0, pruned, via);
    if !ok {
      WipeoutNoSolution(cons, asg, cur, pruned[|pruned| - 1].0);
      WipedLast(cur0, cur, pruned);
    }
  }

  /** One pass of GAC_Enforce's middle loop over the scope of the popped
      constraint c: each scope variable in turn is revised against c, the
      prunes are appended to the trail, and the pass stops at a wipeout. */
  method ReviseScope(csp: Store, c: nat, queue: seq<nat>, pruned: seq<Prune>, ghost via: seq<nat>,
                     ghost cur0: seq<set<int>>, ghost checkList: seq<nat>, ghost processed: set<nat>)
    returns (ok: bool, queue': seq<nat>, pruned': seq<Prune>, ghost via': seq<nat>)
    requires csp.Valid() && c < |csp.cons| && |cur0| == |csp.cur|
    requires InPass(csp.cons, csp.asg, cur0, csp.cur, pruned, via, checkList, queue, processed, c, 0, csp.cur, queue, pruned, true)
    modifies csp
    ensures csp.Valid() && csp.asg == old(csp.asg)
    ensures InPass(csp.cons, csp.asg, cur0, csp.cur, pruned', via', checkList, queue', processed, c, |csp.cons[c].scope|,
                   old(csp.cur), queue, pruned, ok)
  {
    var cons, asg := csp.cons, csp.asg;
    ghost var curAtPop := csp.cur;
    var scope := cons[c].scope;
    ok, queue', pruned', via' := true, queue, pruned, via;
    var k := 0;
    while k < |scope| && ok
      invariant 0 <= k <= |scope|
      invariant csp.Valid() && csp.asg == asg
      invariant InPass(cons, asg, cur0, csp.cur, pruned', via', checkList, queue', processed, c, k, curAtPop, queue, pruned, ok)
    {
      ghost var curK, queueK, prunedK, viaK := csp.cur, queue', pruned', via';
      ghost var vals := csp.CurDomain(scope[k]);
      var wiped, removed;
      wiped, queue', removed := ReviseVar(csp, c, scope[k], queue');
      GacReviseStep(cons, asg, cur0, curK, prunedK, viaK, checkList, queueK, processed, c, k, curAtPop, queue, pruned,
                    vals, csp.cur, removed, queue', wiped);
      pruned' := pruned' + removed;
      via' := via' + Repeat(c, |removed|);
      ok := !wiped;
      k := k + 1;
    }
    GacPassEnd(cons, asg, cur0, csp.cur, pruned', via', checkList, queue', processed, c, k, curAtPop, queue, pruned, ok);
  }

  /** One round of GAC_Enforce's outer loop: pops the head of the queue and
      revises its scope; either the domains shrink or only the queue does. */
  method GacRound(csp: Store, ghost cur0: seq<set<int>>, ghost checkList: seq<nat>, queue: seq<nat>, pruned: seq<Prune>,
                  ghost via: seq<nat>, ghost processed: set<nat>, ghost ok: bool)
    returns (ok': bool, queue': seq<nat>, pruned': seq<Prune>, ghost via': seq<nat>, ghost processed': set<nat>)
    requires csp.Valid() && |cur0| == |csp.cur| && |queue| > 0
    requires GacState(csp.cons, csp.asg, cur0, csp.cur, pruned, via, checkList, queue, processed, ok)
    modifies csp
    ensures csp.Valid() && csp.asg == old(csp.asg)
    ensures GacState(csp.cons, csp.asg, cur0, csp.cur, pruned', via', checkList, queue', processed', ok')
    ensures Total(csp.cur) < Total(old(csp.cur)) || (csp.cur == old(csp.cur) && |queue'| < |queue|)
  {
    var cons, asg := csp.cons, csp.asg;
    GacPop(cons, asg, cur0, csp.cur, pruned, via, checkList, queue, processed, ok);
    var c := queue[0];
    ghost var curAtPop, queueAtPop := csp.cur, queue[1..];
    processed' := processed + {c};
    ok', queue', pruned', via' := ReviseScope(csp, c, queue[1..], pruned, via, cur0, checkList, processed');
    GacPassDone(cons, asg, cur0, csp.cur, pruned', via', checkList, queue', processed', c, curAtPop, queueAtPop, pruned, ok');
  }

  /** The outer loop of GAC_Enforce, from the seeds until the queue is empty. */
  method GacLoop(csp: Store, checkList: seq<nat>)
    returns (ok: bool, pruned: seq<Prune>, ghost via: seq<nat>, ghost processed: set<nat>)
    requires csp.Valid()
    requires forall j :: 0 <= j < |checkList| ==> checkList[j] < |csp.cons|
    modifies csp
    ensures csp.Valid() && csp.asg == old(csp.asg)
    ensures GacState(csp.cons, csp.asg, old(csp.cur), csp.cur, pruned, via, checkList, [], processed, ok)
  {
    ghost var cur0 := csp.cur;
    var cons, asg := csp.cons, csp.asg;
    var queue := checkList;
    pruned := [];
    via := [];
    processed := {};
    ok := true;
    TrailNil(cur0);
    while |queue| != 0
      invariant csp.Valid() && csp.asg == asg
      invariant GacState(cons, asg, cur0, csp.cur, pruned, via, checkList, queue, processed, ok)
      decreases Total(csp.cur), |queue|
    {
      ok, queue, pruned, via, processed := GacRound(csp, cur0, checkList, queue, pruned, via, processed, ok);
    }
  }

  /** GAC_Enforce: the AC-3 queue fixpoint. Pops a constraint, prunes every
      current value of its scope without support, re-enqueues every constraint
      on a pruned variable that is not pending, and stops at the first
      wipeout. The ghost via names, for each record, the popped constraint
      that lacked a support for it; processed holds every popped constraint. */
  method GACEnforce(csp: Store, checkList: seq<nat>)
    returns (ok: bool, pruned: seq<Prune>, ghost via: seq<nat>, ghost processed: set<nat>)
    requires csp.Valid()
    requires forall j :: 0 <= j < |checkList| ==> checkList[j] < |csp.cons|
    modifies csp
    ensures csp.Valid() && csp.asg == old(csp.asg)
    ensures Trail(old(csp.cur), csp.cur, pruned)
    ensures GacTrail(csp.cons, csp.asg, old(csp.cur), pruned, via)
    ensures forall k :: 0 <= k < |via| ==> via[k] in processed
    ensures NoLostSolutions(csp.cons, csp.asg, old(csp.cur), csp.cur)
    ensures ok ==> NoneEmptied(old(csp.cur), csp.cur)
    ensures !ok ==> |pruned| > 0 && csp.cur[pruned[|pruned| - 1].0] == {}
    ensures !ok ==> forall k :: 0 <= k < |pruned| ==> NoneEmptied(old(csp.cur), Shrunk(old(csp.cur), pruned[..k]))
    ensures !ok ==> forall s :: !IsSolution(csp.cons, old(csp.cur), csp.asg, s)
    ensures |via| == |pruned| && forall k :: 0 <= k < |via| ==>
      via[k] in checkList || (via[k] < |csp.cons| && exists m :: 0 <= m < k && pruned[m].0 in csp.cons[via[k]].scope)
    ensures forall ci :: ci in processed ==>
      ci in checkList || (ci < |csp.cons| && exists m :: 0 <= m < |pruned| && pruned[m].0 in csp.cons[ci].scope)
    ensures ok ==> forall j :: 0 <= j < |checkList| ==> checkList[j] in processed
    ensures ok ==> forall k, ci :: 0 <= k < |pruned| && 0 <= ci < |csp.cons| && pruned[k].0 in csp.cons[ci].scope ==> ci in processed
    ensures ok ==> forall ci :: ci in processed ==> ci < |csp.cons| && Supported(csp.cons[ci], csp.cur, csp.asg)
  {
    ghost var cur0 := csp.cur;
    var cons, asg := csp.cons, csp.asg;
    ok, pruned, via, processed := GacLoop(csp, checkList);
    GacDone(cons, asg, cur0, csp.cur, pruned, via, checkList, processed, ok);
    if ok {
      GacFixpoint(cons, asg, cur0, csp.cur, pruned, via, checkList, processed);
    }
  }

  /** prop_GAC: GAC_Enforce seeded with every constraint, or with the
      constraints on the newly assigned variable. */
  method PropGAC(csp: Store, newVar: Option<nat>)
    returns (ok: bool, pruned: seq<Prune>, ghost via: seq<nat>, ghost processed: set<nat>)
    requires csp.Valid()
    requires newVar.Some? ==> newVar.value < |csp.dom|
    modifies csp
    ensures csp.Valid() && csp.asg == old(csp.asg)
    ensures Trail(old(csp.cur), csp.cur, pruned)
    ensures GacTrail(csp.cons, csp.asg, old(csp.cur), pruned, via)
    ensures forall k :: 0 <= k < |via| ==> via[k] in processed
    ensures NoLostSolutions(csp.cons, csp.asg, old(csp.cur), csp.cur)
    ensures ok ==> NoneEmptied(old(csp.cur), csp.cur)
    ensures !ok ==> |pruned| > 0 && csp.cur[pruned[|pruned| - 1].0] == {}
    ensures !ok ==> forall k :: 0 <= k < |pruned| ==> NoneEmptied(old(csp.cur), Shrunk(old(csp.cur), pruned[..k]))
    ensures !ok ==> forall s :: !IsSolution(csp.cons, old(csp.cur), csp.asg, s)
    ensures |via| == |pruned| && forall k :: 0 <= k < |via| ==>
      via[k] in Candidates(csp.cons, newVar) ||
      (via[k] < |csp.cons| && exists m :: 0 <= m < k && pruned[m].0 in csp.cons[via[k]].scope)
    ensures forall ci :: ci in processed ==>
      ci in Candidates(csp.cons, newVar) ||
      (ci < |csp.cons| && exists m :: 0 <= m < |pruned| && pruned[m].0 in csp.cons[ci].scope)
    ensures ok ==> forall ci :: ci in Candidates(csp.cons, newVar) ==> ci in processed
    ensures ok ==> forall k, ci :: 0 <= k < |pruned| && 0 <= ci < |csp.cons| && pruned[k].0 in csp.cons[ci].scope ==> ci in processed
    ensures ok ==> forall ci :: ci in processed ==> ci < |csp.cons| && Supported(csp.cons[ci], csp.cur, csp.asg)
  {
    var checkList := Candidates(csp.cons, newVar);
    ok, pruned, via, processed := GACEnforce(csp, checkList);
  }
}
