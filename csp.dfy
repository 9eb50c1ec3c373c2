/** The problem state the propagators work on: variables with a fixed domain,
    a current domain and an optional assigned value, and constraints given by an
    ordered scope and a set of satisfying tuples.  Variables and constraints are
    named by their index in the store. */
module Csp {

  datatype Option<T> = None | Some(value: T)

  /** A constraint: the ordered scope (variable indices) and its satisfying tuples,
      each listing one value per scope position in scope order. */
  datatype Constraint = Constraint(scope: seq<nat>, sat: set<seq<int>>)

  /** One record of the prune trail: (variable, value). */
  type Prune = (nat, int)

  predicate Distinct<T(==)>(s: seq<T>) {
    forall i, j :: 0 <= i < j < |s| ==> s[i] != s[j]
  }

  /** Every scope of every constraint names one of the n variables. */
  predicate ScopesIn(cons: seq<Constraint>, n: nat) {
    forall i, k :: 0 <= i < |cons| && 0 <= k < |cons[i].scope| ==> cons[i].scope[k] < n
  }

  /** The indices lo, lo+1, ..., hi-1. */
  function Range(lo: nat, hi: nat): (r: seq<nat>)
    decreases hi - lo
    ensures |r| == if lo <= hi then hi - lo else 0
    ensures forall k :: 0 <= k < |r| ==> r[k] == lo + k
    ensures forall i :: i in r <==> lo <= i < hi
    ensures Distinct(r)
  {
    if lo >= hi then [] else [lo] + Range(lo + 1, hi)
  }

  /** The constraints (by index, from lo on) whose scope mentions x, in the order
      they were added to the problem. */
  function ConsWithVarFrom(cons: seq<Constraint>, x: nat, lo: nat): (r: seq<nat>)
    decreases |cons| - lo
    ensures forall i :: i in r <==> lo <= i < |cons| && x in cons[i].scope
    ensures forall a :: 0 <= a < |r| ==> lo <= r[a] < |cons| && x in cons[r[a]].scope
  {
    if lo >= |cons| then []
    else (if x in cons[lo].scope then [lo] else []) + ConsWithVarFrom(cons, x, lo + 1)
  }

  /** The constraints found from lo on are listed once each. */
  lemma {:induction false} ConsWithVarFromDistinct(cons: seq<Constraint>, x: nat, lo: nat)
    decreases |cons| - lo
    ensures Distinct(ConsWithVarFrom(cons, x, lo))
  {
    if lo < |cons| {
      ConsWithVarFromDistinct(cons, x, lo + 1);
      var t := ConsWithVarFrom(cons, x, lo + 1);
      if x in cons[lo].scope {
        var r := [lo] + t;
        forall i, j | 0 <= i < j < |r| ensures r[i] != r[j] {
          assert r[j] == t[j - 1];
          if i > 0 { assert r[i] == t[i - 1]; }
        }
      } else {
        assert ConsWithVarFrom(cons, x, lo) == t;
      }
    }
  }

  /** get_cons_with_var: every constraint mentioning x, in order. */
  function ConsWithVar(cons: seq<Constraint>, x: nat): (r: seq<nat>)
    ensures forall i :: i in r <==> 0 <= i < |cons| && x in cons[i].scope
    ensures forall k :: 0 <= k < |r| ==> r[k] < |cons| && x in cons[r[k]].scope
  {
    ConsWithVarFrom(cons, x, 0)
  }

  /** get_cons_with_var lists each constraint once. */
  lemma ConsWithVarDistinct(cons: seq<Constraint>, x: nat)
    ensures Distinct(ConsWithVar(cons, x))
  {
    ConsWithVarFromDistinct(cons, x, 0);
  }

  /** The variables of a scope that are unassigned, in scope order (get_unasgn_vars);
      get_n_unasgn is its length. */
  function UnasgnVars(scope: seq<nat>, asg: seq<Option<int>>): (r: seq<nat>)
    requires forall k :: 0 <= k < |scope| ==> scope[k] < |asg|
    ensures |r| <= |scope|
    ensures forall k :: 0 <= k < |r| ==> r[k] in scope && asg[r[k]].None?
    ensures forall k :: 0 <= k < |scope| && asg[scope[k]].None? ==> scope[k] in r
    ensures |r| == 0 <==> AllAssigned(scope, asg)
  {
    if |scope| == 0 then []
    else (if asg[scope[0]].None? then [scope[0]] else []) + UnasgnVars(scope[1..], asg)
  }

  /** Every variable of the scope is assigned. */
  predicate AllAssigned(scope: seq<nat>, asg: seq<Option<int>>)
    requires forall k :: 0 <= k < |scope| ==> scope[k] < |asg|
  {
    forall k :: 0 <= k < |scope| ==> asg[scope[k]].Some?
  }

  /** The assigned values of a fully assigned scope, in scope order. */
  function AssignedTuple(scope: seq<nat>, asg: seq<Option<int>>): (t: seq<int>)
    requires forall k :: 0 <= k < |scope| ==> scope[k] < |asg| && asg[scope[k]].Some?
    ensures |t| == |scope|
    ensures forall k :: 0 <= k < |scope| ==> t[k] == asg[scope[k]].value
  {
    if |scope| == 0 then [] else [asg[scope[0]].value] + AssignedTuple(scope[1..], asg)
  }

  /** A constraint with no unassigned variable is satisfied by its assigned values
      (c.check on the assigned tuple, asked only when get_n_unasgn is 0). */
  predicate FullOk(c: Constraint, asg: seq<Option<int>>)
    requires forall k :: 0 <= k < |c.scope| ==> c.scope[k] < |asg|
  {
    AllAssigned(c.scope, asg) ==> AssignedTuple(c.scope, asg) in c.sat
  }

  /** prop_BT checks a constraint only when get_n_unasgn is 0, and then by
      c.check on the assigned tuple; a constraint with an unassigned variable
      never fails. */
  lemma FullOkChecked(c: Constraint, asg: seq<Option<int>>)
    requires forall k :: 0 <= k < |c.scope| ==> c.scope[k] < |asg|
    ensures |UnasgnVars(c.scope, asg)| != 0 ==> FullOk(c, asg)
    ensures |UnasgnVars(c.scope, asg)| == 0 ==> (FullOk(c, asg) <==> AssignedTuple(c.scope, asg) in c.sat)
  {
  }

  /** Every fully assigned constraint that mentions x is satisfied. */
  ghost predicate BTHolds(cons: seq<Constraint>, asg: seq<Option<int>>, x: nat)
    requires ScopesIn(cons, |asg|)
  {
    forall i :: 0 <= i < |cons| && x in cons[i].scope ==> FullOk(cons[i], asg)
  }

  /** Assigning v to the unassigned x leaves every fully assigned constraint on x
      satisfied: the trial of forward checking. */
  ghost predicate FcPasses(cons: seq<Constraint>, asg: seq<Option<int>>, x: nat, v: int)
    requires ScopesIn(cons, |asg|) && x < |asg|
  {
    BTHolds(cons, asg[x := Some(v)], x)
  }

  /** The values variable y may still take: its current domain, narrowed to the
      assigned value when y is assigned. */
  function Allowed(cur: seq<set<int>>, asg: seq<Option<int>>, y: nat): (r: set<int>)
    ensures y < |cur| ==> r <= cur[y]
    ensures y < |cur| && (y >= |asg| || asg[y].None?) ==> r == cur[y]
    ensures y < |cur| && y < |asg| && asg[y].Some? ==>
      r == if asg[y].value in cur[y] then {asg[y].value} else {}
    ensures y >= |cur| ==> r == {}
  {
    if y >= |cur| then {}
    else if y < |asg| && asg[y].Some? then cur[y] * {asg[y].value}
    else cur[y]
  }

  /** has_support: some satisfying tuple of c puts v at every slot of x and, at
      every other slot, a value the slot's variable may still take. */
  predicate HasSupport(c: Constraint, cur: seq<set<int>>, asg: seq<Option<int>>, x: nat, v: int) {
    exists t :: t in c.sat && |t| == |c.scope| &&
      forall k :: 0 <= k < |t| ==>
        if c.scope[k] == x then t[k] == v else t[k] in Allowed(cur, asg, c.scope[k])
  }

  /** has_support fails when the constraint has no satisfying tuple, or when
      another scope variable has no value left to offer. */
  lemma NoSupportWhen(c: Constraint, cur: seq<set<int>>, asg: seq<Option<int>>, x: nat, v: int)
    ensures c.sat == {} ==> !HasSupport(c, cur, asg, x, v)
    ensures (exists k :: 0 <= k < |c.scope| && c.scope[k] != x && Allowed(cur, asg, c.scope[k]) == {}) ==>
      !HasSupport(c, cur, asg, x, v)
  {
  }

  /** Generalised arc consistency of one constraint: every current value of every
      scope variable has support. */
  ghost predicate Supported(c: Constraint, cur: seq<set<int>>, asg: seq<Option<int>>) {
    forall k, v {:trigger HasSupport(c, cur, asg, c.scope[k], v)} ::
      0 <= k < |c.scope| && c.scope[k] < |cur| && v in cur[c.scope[k]] ==> HasSupport(c, cur, asg, c.scope[k], v)
  }

  /** The values of the scope's variables in a complete assignment s. */
  function Project(s: seq<int>, scope: seq<nat>): (t: seq<int>)
    requires forall k :: 0 <= k < |scope| ==> scope[k] < |s|
    ensures |t| == |scope|
  {
    seq(|scope|, k requires 0 <= k < |scope| => s[scope[k]])
  }

  /** s is a solution: it gives each variable a value it may still take and
      satisfies every constraint. */
  ghost predicate IsSolution(cons: seq<Constraint>, cur: seq<set<int>>, asg: seq<Option<int>>, s: seq<int>)
    requires |asg| == |cur| && ScopesIn(cons, |cur|)
  {
    && |s| == |cur|
    && (forall y :: 0 <= y < |s| ==> s[y] in Allowed(cur, asg, y))
    && (forall i :: 0 <= i < |cons| ==> Project(s, cons[i].scope) in cons[i].sat)
  }

  /** Every solution of the domains before is still a solution of the domains after. */
  ghost predicate NoLostSolutions(cons: seq<Constraint>, asg: seq<Option<int>>, before: seq<set<int>>, after: seq<set<int>>)
    requires |asg| == |before| == |after| && ScopesIn(cons, |before|)
  {
    forall s :: IsSolution(cons, before, asg, s) ==> IsSolution(cons, after, asg, s)
  }

  /** No domain that was non-empty before is empty after: no wipeout happened. */
  predicate NoneEmptied(before: seq<set<int>>, after: seq<set<int>>) {
    |after| == |before| && forall y :: 0 <= y < |before| && before[y] != {} ==> after[y] != {}
  }

  /** The values of x recorded in a prune list. */
  ghost function PrunedOf(p: seq<Prune>, x: nat): set<int> {
    set i | 0 <= i < |p| && p[i].0 == x :: p[i].1
  }

  /** p is an exact trail from before to after: each record names a value that was
      present, no record repeats, and after is before less exactly the recorded values. */
  ghost predicate Trail(before: seq<set<int>>, after: seq<set<int>>, p: seq<Prune>) {
    && |after| == |before|
    && Distinct(p)
    && (forall i :: 0 <= i < |p| ==> p[i].0 < |before| && p[i].1 in before[p[i].0])
    && (forall y :: 0 <= y < |before| ==> after[y] == before[y] - PrunedOf(p, y))
  }

  /** The search driver's undo: put every recorded value back. */
  function Restore(cur: seq<set<int>>, p: seq<Prune>): (r: seq<set<int>>)
    ensures |r| == |cur|
  {
    if |p| == 0 then cur
    else
      var x := p[|p| - 1].0;
      var r := Restore(cur, p[..|p| - 1]);
      if x < |r| then r[x := r[x] + {p[|p| - 1].1}] else r
  }

  /** Sum of the current domain sizes: the measure every prune decreases. */
  function Total(cur: seq<set<int>>): nat {
    if |cur| == 0 then 0 else |cur[|cur| - 1]| + Total(cur[..|cur| - 1])
  }

  /** The current domain listed in the order of the fixed domain (cur_domain). */
  function InOrder(d: seq<int>, s: set<int>): (r: seq<int>)
    ensures forall v :: v in r <==> v in d && v in s
    ensures Distinct(d) ==> Distinct(r)
  {
    if |d| == 0 then []
    else (if d[0] in s then [d[0]] else []) + InOrder(d[1..], s)
  }

  /** Undoing a trail gives back exactly the domains it started from. */
  lemma {:induction false} RestoreUndoesTrail(before: seq<set<int>>, after: seq<set<int>>, p: seq<Prune>)
    requires Trail(before, after, p)
    ensures Restore(after, p) == before
  {
    RestorePointwise(after, p);
    forall y | 0 <= y < |before|
      ensures Restore(after, p)[y] == before[y]
    {
      forall v | v in before[y] ensures v in after[y] || v in PrunedOf(p, y) { }
    }
  }

  lemma {:induction false} RestorePointwise(cur: seq<set<int>>, p: seq<Prune>)
    ensures forall y :: 0 <= y < |cur| ==> Restore(cur, p)[y] == cur[y] + PrunedOf(p, y)
  {
    if |p| > 0 {
      var q := p[..|p| - 1];
      RestorePointwise(cur, q);
      forall y | 0 <= y < |cur|
        ensures Restore(cur, p)[y] == cur[y] + PrunedOf(p, y)
      {
        assert forall i :: 0 <= i < |q| ==> q[i] == p[i];
        if p[|p| - 1].0 == y {
          assert PrunedOf(p, y) == PrunedOf(q, y) + {p[|p| - 1].1};
        } else {
          assert PrunedOf(p, y) == PrunedOf(q, y);
        }
      }
    }
  }

  /** Nothing pruned, nothing changed. */
  lemma TrailNil(cur: seq<set<int>>)
    ensures Trail(cur, cur, [])
  {
    forall y | 0 <= y < |cur| ensures PrunedOf([], y) == {} { }
  }

  /** Pruning one present value extends the trail by exactly that record. */
  lemma TrailStep(before: seq<set<int>>, cur: seq<set<int>>, p: seq<Prune>, x: nat, v: int)
    requires Trail(before, cur, p)
    requires x < |cur| && v in cur[x]
    ensures Trail(before, cur[x := cur[x] - {v}], p + [(x, v)])
  {
    var q := p + [(x, v)];
    assert forall i :: 0 <= i < |p| ==> q[i] == p[i];
    forall y | 0 <= y < |before|
      ensures cur[x := cur[x] - {v}][y] == before[y] - PrunedOf(q, y)
    {
      if y == x {
        assert q[|p|] == (x, v);
        assert PrunedOf(q, y) == PrunedOf(p, y) + {v};
      } else {
        assert PrunedOf(q, y) == PrunedOf(p, y);
      }
    }
    forall i, j | 0 <= i < j < |q| ensures q[i] != q[j] {
      if j == |p| && p[i].0 == x {
        assert p[i].1 in PrunedOf(p, x);
      }
    }
  }

  /** Two trails in a row make one trail: what prop_FC relies on when it
      concatenates the prune lists of its FCCheck calls. */
  lemma TrailAppend(a: seq<set<int>>, b: seq<set<int>>, c: seq<set<int>>, p: seq<Prune>, q: seq<Prune>)
    requires Trail(a, b, p) && Trail(b, c, q)
    ensures Trail(a, c, p + q)
  {
    var r := p + q;
    forall y | 0 <= y < |a| ensures PrunedOf(r, y) == PrunedOf(p, y) + PrunedOf(q, y) {
      forall w | w in PrunedOf(r, y) ensures w in PrunedOf(p, y) + PrunedOf(q, y) {
        var i :| 0 <= i < |r| && r[i].0 == y && r[i].1 == w;
        if i < |p| { assert p[i] == r[i]; } else { assert q[i - |p|] == r[i]; }
      }
      forall w | w in PrunedOf(p, y) ensures w in PrunedOf(r, y) {
        var i :| 0 <= i < |p| && p[i].0 == y && p[i].1 == w;
        assert r[i] == p[i];
      }
      forall w | w in PrunedOf(q, y) ensures w in PrunedOf(r, y) {
        var i :| 0 <= i < |q| && q[i].0 == y && q[i].1 == w;
        assert r[|p| + i] == q[i];
      }
    }
    forall i, j | 0 <= i < j < |r| ensures r[i] != r[j] {
      if i < |p| <= j {
        var y := q[j - |p|].0;
        assert r[j] == q[j - |p|];
        assert q[j - |p|].1 in b[y];
        assert r[i] == p[i];
        if p[i].0 == y {
          assert p[i].1 in PrunedOf(p, y);
        }
      } else if j < |p| {
        assert r[i] == p[i] && r[j] == p[j];
      } else {
        assert r[i] == q[i - |p|] && r[j] == q[j - |p|];
      }
    }
  }

  /** Removing a present value lowers the total domain size. */
  lemma {:induction false} TotalDrops(cur: seq<set<int>>, x: nat, v: int)
    requires x < |cur| && v in cur[x]
    ensures Total(cur[x := cur[x] - {v}]) < Total(cur)
  {
    var n := |cur|;
    var after := cur[x := cur[x] - {v}];
    assert after[..n - 1] == if x < n - 1 then cur[..n - 1][x := cur[x] - {v}] else cur[..n - 1];
    if x < n - 1 {
      TotalDrops(cur[..n - 1], x, v);
    }
  }

  /** The values a solution gives a constraint's scope form a support for each
      of them. */
  lemma SolutionSupports(cons: seq<Constraint>, asg: seq<Option<int>>, cur: seq<set<int>>, s: seq<int>, ci: nat, x: nat)
    requires |asg| == |cur| && ScopesIn(cons, |cur|) && x < |cur| && ci < |cons|
    requires IsSolution(cons, cur, asg, s)
    ensures HasSupport(cons[ci], cur, asg, x, s[x])
  {
    var c := cons[ci];
    var t := Project(s, c.scope);
    assert t in c.sat;
    assert forall k :: 0 <= k < |t| ==>
      if c.scope[k] == x then t[k] == s[x] else t[k] in Allowed(cur, asg, c.scope[k]);
  }

  /** Pruning a value that lacks support in a constraint of the problem keeps
      every solution: the soundness of GAC pruning. */
  lemma PruneUnsupportedKeepsSolutions(cons: seq<Constraint>, asg: seq<Option<int>>, cur: seq<set<int>>, ci: nat, x: nat, v: int)
    requires |asg| == |cur| && ScopesIn(cons, |cur|) && x < |cur|
    requires ci < |cons| && !HasSupport(cons[ci], cur, asg, x, v)
    ensures NoLostSolutions(cons, asg, cur, cur[x := cur[x] - {v}])
  {
    var after := cur[x := cur[x] - {v}];
    forall s | IsSolution(cons, cur, asg, s) ensures IsSolution(cons, after, asg, s) {
      SolutionSupports(cons, asg, cur, s, ci, x);
      assert forall y :: 0 <= y < |s| ==> s[y] in Allowed(after, asg, y);
    }
  }

  /** A solution passes the forward-checking trial of the value it gives an
      unassigned variable. */
  lemma SolutionPassesTrial(cons: seq<Constraint>, asg: seq<Option<int>>, cur: seq<set<int>>, s: seq<int>, x: nat)
    requires |asg| == |cur| && ScopesIn(cons, |cur|) && x < |cur| && asg[x].None?
    requires IsSolution(cons, cur, asg, s)
    ensures FcPasses(cons, asg, x, s[x])
  {
    var a2 := asg[x := Some(s[x])];
    forall i | 0 <= i < |cons| && x in cons[i].scope ensures FullOk(cons[i], a2) {
      var sc := cons[i].scope;
      if AllAssigned(sc, a2) {
        forall k | 0 <= k < |sc| ensures a2[sc[k]].value == s[sc[k]] {
          assert s[sc[k]] in Allowed(cur, asg, sc[k]);
        }
        assert AssignedTuple(sc, a2) == Project(s, sc);
      }
    }
  }

  /** Pruning values whose trial assignments violate a fully assigned constraint
      keeps every solution: the soundness of forward-checking pruning. */
  lemma FcPruneKeepsSolutions(cons: seq<Constraint>, asg: seq<Option<int>>, cur: seq<set<int>>, x: nat, failing: set<int>)
    requires |asg| == |cur| && ScopesIn(cons, |cur|) && x < |cur| && asg[x].None?
    requires forall v :: v in failing ==> !FcPasses(cons, asg, x, v)
    ensures NoLostSolutions(cons, asg, cur, cur[x := cur[x] - failing])
  {
    var after := cur[x := cur[x] - failing];
    forall s | IsSolution(cons, cur, asg, s) ensures IsSolution(cons, after, asg, s) {
      SolutionPassesTrial(cons, asg, cur, s, x);
      assert forall y :: 0 <= y < |s| ==> s[y] in Allowed(after, asg, y);
    }
  }

  lemma NoLostTrans(cons: seq<Constraint>, asg: seq<Option<int>>, a: seq<set<int>>, b: seq<set<int>>, c: seq<set<int>>)
    requires |asg| == |a| == |b| == |c| && ScopesIn(cons, |a|)
    requires NoLostSolutions(cons, asg, a, b) && NoLostSolutions(cons, asg, b, c)
    ensures NoLostSolutions(cons, asg, a, c)
  {
  }

  /** A variable whose current domain is empty leaves no solution. */
  lemma WipeoutNoSolution(cons: seq<Constraint>, asg: seq<Option<int>>, cur: seq<set<int>>, y: nat)
    requires |asg| == |cur| && ScopesIn(cons, |cur|) && y < |cur| && cur[y] == {}
    ensures forall s :: !IsSolution(cons, cur, asg, s)
  {
    forall s: seq<int> | |s| == |cur| ensures s[y] !in Allowed(cur, asg, y) { }
  }

  /** The domain store (cspbase's Variable objects seen together): fixed domains,
      current domains, assignments and the problem's constraints. */
  class Store {
    const dom: seq<seq<int>>
    const cons: seq<Constraint>
    var cur: seq<set<int>>
    var asg: seq<Option<int>>

    ghost predicate Valid()
      reads this
    {
      && |cur| == |dom| && |asg| == |dom|
      && (forall y :: 0 <= y < |dom| ==> Distinct(dom[y]))
      && (forall y, v :: 0 <= y < |dom| && v in cur[y] ==> v in dom[y])
      && ScopesIn(cons, |dom|)
    }

    /** A fresh problem: every value of every domain current, nothing assigned. */
    constructor (dom: seq<seq<int>>, cons: seq<Constraint>)
      requires forall y :: 0 <= y < |dom| ==> Distinct(dom[y])
      requires ScopesIn(cons, |dom|)
      ensures Valid() && this.dom == dom && this.cons == cons
      ensures forall y :: 0 <= y < |dom| ==> cur[y] == set v | v in dom[y]
      ensures forall y :: 0 <= y < |dom| ==> asg[y].None?
    {
      this.dom := dom;
      this.cons := cons;
      cur := seq(|dom|, y requires 0 <= y < |dom| => set v | v in dom[y]);
      asg := seq(|dom|, y => None);
    }

    /** cur_domain: the current values in domain order. */
    function CurDomain(x: nat): (r: seq<int>)
      reads this
      requires Valid() && x < |dom|
      ensures Distinct(r)
      ensures forall v :: v in r <==> v in cur[x]
    {
      InOrder(dom[x], cur[x])
    }

    method Assign(x: nat, v: int)
      requires Valid() && x < |dom| && asg[x].None? && v in cur[x]
      modifies this
      ensures Valid() && cur == old(cur) && asg == old(asg)[x := Some(v)]
    {
      asg := asg[x := Some(v)];
    }

    method Unassign(x: nat)
      requires Valid() && x < |dom| && asg[x].Some?
      modifies this
      ensures Valid() && cur == old(cur) && asg == old(asg)[x := None]
    {
      asg := asg[x := None];
    }

    /** prune_value: remove v from x's current domain; v must still be current,
        since a value is never pruned twice without a restore in between. */
    method PruneValue(x: nat, v: int)
      requires Valid() && x < |dom| && v in cur[x]
      modifies this
      ensures Valid() && asg == old(asg) && cur == old(cur)[x := old(cur)[x] - {v}]
    {
      cur := cur[x := cur[x] - {v}];
    }
  }
}
