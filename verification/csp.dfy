/**
 * The constraint network the propagators read and shrink.
 *
 * cspbase.py is not part of this model; its Variable, Constraint and CSP
 * classes are described here by the behaviour the propagators rely on:
 *  - a variable has an original domain (ordered, duplicate free), a current
 *    domain contained in it, and an optional assigned value; pruning and
 *    assignment are tracked independently;
 *  - a constraint has an ordered scope of variable indices and a set of
 *    satisfying tuples, and `check(vals)` holds iff `vals` is one of them;
 *  - `has_support(x, v)` holds iff some satisfying tuple puts `v` at a scope
 *    position of `x` and every entry of the tuple lies in the current domain
 *    of the variable at its position.
 * Variables and constraints are identified by their index in the network.
 */
module Csp {
  import opened Seqs

  datatype Option<T> = None | Some(value: T)

  type VarId = nat
  type ConId = nat

  /** `dom` is the original domain in construction order, `cur` the current domain. */
  datatype Variable = Variable(dom: seq<int>, cur: set<int>, assignment: Option<int>)

  datatype Constraint = Constraint(scope: seq<VarId>, tuples: set<seq<int>>)

  datatype Csp = Csp(vars: seq<Variable>, cons: seq<Constraint>)

  /** One removal of value `v` from the current domain of variable `x`. */
  datatype Prune = Prune(x: VarId, v: int)

  /** What a propagator returns: the verdict, the prune list, and the network after pruning. */
  datatype Outcome = Outcome(ok: bool, prunes: seq<Prune>, csp: Csp)

  predicate ValidVariable(v: Variable) {
    Distinct(v.dom) && forall w :: w in v.cur ==> w in v.dom
  }

  predicate InRange(scope: seq<VarId>, n: nat) {
    forall i :: 0 <= i < |scope| ==> scope[i] < n
  }

  /** Every satisfying tuple has one entry per scope position. */
  predicate ArityOk(c: Constraint) {
    forall t :: t in c.tuples ==> |t| == |c.scope|
  }

  predicate WellFormed(csp: Csp) {
    && (forall x :: 0 <= x < |csp.vars| ==> ValidVariable(csp.vars[x]))
    && (forall k :: 0 <= k < |csp.cons| ==> InRange(csp.cons[k].scope, |csp.vars|) && ArityOk(csp.cons[k]))
  }

  /* ---------------- variables ---------------- */

  /** `cur_domain()`: a snapshot of the current domain, in original-domain order. */
  function CurDomain(v: Variable): (r: seq<int>)
    ensures forall w :: w in r <==> w in v.dom && w in v.cur
    ensures Distinct(v.dom) ==> Distinct(r)
  {
    Filter(v.dom, v.cur)
  }

  /** The snapshot is empty exactly when the current domain is. */
  lemma CurDomainEmpty(v: Variable)
    requires ValidVariable(v)
    ensures CurDomain(v) == [] <==> v.cur == {}
  {
    var r := CurDomain(v);
    if r != [] {
      assert r[0] in r;
    }
    if r == [] {
      assert forall w :: w in v.cur ==> w in r;
      assert v.cur == {};
    }
  }

  function AssignVar(csp: Csp, x: VarId, v: int): Csp {
    if x < |csp.vars| then csp.(vars := csp.vars[x := csp.vars[x].(assignment := Some(v))]) else csp
  }

  function UnassignVar(csp: Csp, x: VarId): Csp {
    if x < |csp.vars| then csp.(vars := csp.vars[x := csp.vars[x].(assignment := None)]) else csp
  }

  function PruneValue(csp: Csp, p: Prune): Csp {
    if p.x < |csp.vars| then csp.(vars := csp.vars[p.x := csp.vars[p.x].(cur := csp.vars[p.x].cur - {p.v})]) else csp
  }

  function UnpruneValue(csp: Csp, p: Prune): Csp {
    if p.x < |csp.vars| then csp.(vars := csp.vars[p.x := csp.vars[p.x].(cur := csp.vars[p.x].cur + {p.v})]) else csp
  }

  /* ---------------- constraints ---------------- */

  /** `get_unasgn_vars()`: the scope entries with no assigned value, in scope order. */
  function UnassignedVars(csp: Csp, scope: seq<VarId>): (r: seq<VarId>)
    requires InRange(scope, |csp.vars|)
    ensures forall y :: y in r <==> y in scope && y < |csp.vars| && csp.vars[y].assignment.None?
  {
    if scope == [] then []
    else (if csp.vars[scope[0]].assignment.None? then [scope[0]] else []) + UnassignedVars(csp, scope[1..])
  }

  /** `get_n_unasgn()`. */
  function NUnassigned(csp: Csp, scope: seq<VarId>): nat
    requires InRange(scope, |csp.vars|)
  {
    |UnassignedVars(csp, scope)|
  }

  predicate FullyAssigned(csp: Csp, scope: seq<VarId>) {
    forall i :: 0 <= i < |scope| ==> scope[i] < |csp.vars| && csp.vars[scope[i]].assignment.Some?
  }

  /** The assigned values of the scope variables, in scope order. */
  function AssignedValues(csp: Csp, scope: seq<VarId>): (vals: seq<int>)
    requires FullyAssigned(csp, scope)
  {
    seq(|scope|, i requires 0 <= i < |scope| => csp.vars[scope[i]].assignment.value)
  }

  /** A scope has no unassigned entry exactly when all of its variables are assigned. */
  lemma NoUnassignedMeansFullyAssigned(csp: Csp, scope: seq<VarId>)
    requires InRange(scope, |csp.vars|)
    ensures NUnassigned(csp, scope) == 0 <==> FullyAssigned(csp, scope)
  {
    var r := UnassignedVars(csp, scope);
    if |r| == 0 {
      forall i | 0 <= i < |scope| ensures csp.vars[scope[i]].assignment.Some? {
        assert scope[i] !in r;
      }
    } else {
      assert r[0] in scope;
    }
  }

  /** With a single unassigned scope variable `x`, assigning `x` completes the scope. */
  lemma OneUnassignedThenTrialComplete(csp: Csp, scope: seq<VarId>, x: VarId, v: int)
    requires InRange(scope, |csp.vars|)
    requires UnassignedVars(csp, scope) == [x]
    ensures x < |csp.vars| && csp.vars[x].assignment.None?
    ensures FullyAssigned(AssignVar(csp, x, v), scope)
  {
    var r := UnassignedVars(csp, scope);
    assert x in r;
    forall i | 0 <= i < |scope| && scope[i] != x ensures csp.vars[scope[i]].assignment.Some? {
      assert scope[i] !in r;
    }
  }

  /** Two networks agree on every variable's assignment. */
  predicate SameAssignments(a: Csp, b: Csp) {
    |a.vars| == |b.vars| && forall y :: 0 <= y < |a.vars| ==> a.vars[y].assignment == b.vars[y].assignment
  }

  /** What a scope's assignment looks like depends on assignments only, not on domains. */
  lemma {:induction false} SameAssignmentsSameScope(a: Csp, b: Csp, scope: seq<VarId>)
    requires SameAssignments(a, b) && InRange(scope, |a.vars|)
    ensures UnassignedVars(a, scope) == UnassignedVars(b, scope)
    ensures FullyAssigned(a, scope) <==> FullyAssigned(b, scope)
    ensures FullyAssigned(a, scope) ==> AssignedValues(a, scope) == AssignedValues(b, scope)
    decreases |scope|
  {
    if scope != [] {
      SameAssignmentsSameScope(a, b, scope[1..]);
    }
  }

  /** `check(vals)`: the values, in scope order, form a satisfying tuple. */
  predicate Check(c: Constraint, vals: seq<int>) {
    vals in c.tuples
  }

  /** Every entry of `t` lies in the current domain of the variable at its scope position. */
  predicate TupleValid(csp: Csp, c: Constraint, t: seq<int>)
    requires InRange(c.scope, |csp.vars|)
  {
    |t| == |c.scope| && forall j :: 0 <= j < |c.scope| ==> t[j] in csp.vars[c.scope[j]].cur
  }

  /** `has_support(x, v)`. */
  predicate HasSupport(csp: Csp, c: Constraint, x: VarId, v: int)
    requires InRange(c.scope, |csp.vars|)
  {
    exists t :: t in c.tuples && TupleValid(csp, c, t) && exists i :: 0 <= i < |c.scope| && c.scope[i] == x && t[i] == v
  }

  /** `get_cons_with_var(x)`: indices of the constraints whose scope mentions `x`, in order. */
  function ConsWith(cons: seq<Constraint>, x: VarId): (r: seq<ConId>)
    ensures forall k: ConId :: k in r <==> k < |cons| && x in cons[k].scope
    ensures forall i :: 0 <= i < |r| ==> r[i] < |cons| && x in cons[r[i]].scope
  {
    ConsWithFrom(cons, x, None, 0)
  }

  /** The constraints from index `k` on whose scope mentions `x`, leaving out `skip`. */
  function ConsWithFrom(cons: seq<Constraint>, x: VarId, skip: Option<ConId>, k: nat): (r: seq<ConId>)
    ensures forall q: ConId :: q in r <==> k <= q < |cons| && x in cons[q].scope && skip != Some(q)
    ensures forall i :: 0 <= i < |r| ==> k <= r[i] < |cons| && x in cons[r[i]].scope
    decreases |cons| - k
  {
    if k >= |cons| then []
    else (if x in cons[k].scope && skip != Some(k) then [k] else []) + ConsWithFrom(cons, x, skip, k + 1)
  }

  /** `get_all_cons()`. */
  function AllCons(cons: seq<Constraint>): (r: seq<ConId>)
    ensures forall k: ConId :: k in r <==> k < |cons|
    ensures forall i :: 0 <= i < |r| ==> r[i] < |cons|
  {
    IndicesFrom(|cons|, 0)
  }

  function IndicesFrom(n: nat, k: nat): (r: seq<ConId>)
    ensures forall q: ConId :: q in r <==> k <= q < n
    ensures forall i :: 0 <= i < |r| ==> k <= r[i] < n
    decreases n - k
  {
    if k >= n then [] else [k] + IndicesFrom(n, k + 1)
  }

  /* ---------------- full value assignments ---------------- */

  /** The values a full assignment `a` gives to the scope, in scope order. */
  function Project(a: seq<int>, scope: seq<VarId>): seq<int>
    requires InRange(scope, |a|)
  {
    seq(|scope|, i requires 0 <= i < |scope| => a[scope[i]])
  }

  ghost predicate Satisfies(a: seq<int>, c: Constraint) {
    InRange(c.scope, |a|) && Project(a, c.scope) in c.tuples
  }

  ghost predicate SatisfiesAll(a: seq<int>, cons: seq<Constraint>) {
    forall k :: 0 <= k < |cons| ==> Satisfies(a, cons[k])
  }

  /** Every variable's value in `a` is still in its current domain. */
  ghost predicate Within(csp: Csp, a: seq<int>) {
    |a| == |csp.vars| && forall x :: 0 <= x < |a| ==> a[x] in csp.vars[x].cur
  }

  /** A full assignment inside the current domains that satisfies every constraint. */
  ghost predicate Solution(csp: Csp, a: seq<int>) {
    Within(csp, a) && SatisfiesAll(a, csp.cons)
  }

  /** A solution supports each of its own values in every constraint. */
  lemma SolutionSupports(csp: Csp, a: seq<int>, k: nat, i: nat)
    requires Solution(csp, a) && k < |csp.cons| && i < |csp.cons[k].scope|
    ensures InRange(csp.cons[k].scope, |csp.vars|)
    ensures HasSupport(csp, csp.cons[k], csp.cons[k].scope[i], a[csp.cons[k].scope[i]])
  {
    var c := csp.cons[k];
    assert Satisfies(a, c);
    var t := Project(a, c.scope);
    assert TupleValid(csp, c, t);
  }

  /** `a` agrees with every assignment the network has made so far. */
  predicate Extends(csp: Csp, a: seq<int>) {
    |a| == |csp.vars| && forall y :: 0 <= y < |a| && csp.vars[y].assignment.Some? ==> a[y] == csp.vars[y].assignment.value
  }

  /** On a fully assigned scope, the assigned values are the values of any extension. */
  lemma AssignedOfExtension(csp: Csp, a: seq<int>, scope: seq<VarId>)
    requires Extends(csp, a) && FullyAssigned(csp, scope)
    ensures InRange(scope, |a|) && AssignedValues(csp, scope) == Project(a, scope)
  {
  }

  /** A network with a solution has no empty current domain. */
  lemma SolutionMeansNoWipe(before: Csp, after: Csp, a: seq<int>)
    requires Solution(after, a) && |before.vars| == |after.vars|
    ensures NoWipe(before, after)
  {
    forall y | 0 <= y < |before.vars| ensures !Wiped(before, after, y) {
      assert a[y] in after.vars[y].cur;
    }
  }

  /** Prunes that avoid every value of `a` keep `a` a solution. */
  lemma PrunesAvoidingSolution(csp: Csp, ps: seq<Prune>, a: seq<int>)
    requires Solution(csp, a) && forall p :: p in ps && p.x < |a| ==> a[p.x] != p.v
    ensures Solution(ApplyPrunes(csp, ps), a)
  {
    var r := ApplyPrunes(csp, ps);
    forall x | 0 <= x < |a| ensures a[x] in r.vars[x].cur {
      assert a[x] !in PrunedValues(ps, x);
    }
  }

  /* ---------------- prune lists ---------------- */

  function PrunedValues(ps: seq<Prune>, y: VarId): set<int> {
    set p | p in ps && p.x == y :: p.v
  }

  /** The network after performing the prunes in order. */
  function ApplyPrunes(csp: Csp, ps: seq<Prune>): (r: Csp)
    ensures r.cons == csp.cons && |r.vars| == |csp.vars|
    ensures forall y :: 0 <= y < |csp.vars| ==>
      && r.vars[y].dom == csp.vars[y].dom
      && r.vars[y].assignment == csp.vars[y].assignment
      && r.vars[y].cur == csp.vars[y].cur - PrunedValues(ps, y)
    decreases |ps|
  {
    if ps == [] then csp
    else
      var r := ApplyPrunes(PruneValue(csp, ps[0]), ps[1..]);
      assert forall y :: PrunedValues(ps, y) == (if ps[0].x == y then {ps[0].v} else {}) + PrunedValues(ps[1..], y) by {
        forall y ensures PrunedValues(ps, y) == (if ps[0].x == y then {ps[0].v} else {}) + PrunedValues(ps[1..], y) {
          assert ps == [ps[0]] + ps[1..];
        }
      }
      r
  }

  /** A variable no prune mentions keeps its current domain. */
  lemma UntouchedUnchanged(csp: Csp, ps: seq<Prune>, y: VarId)
    requires y < |csp.vars| && forall p :: p in ps ==> p.x != y
    ensures ApplyPrunes(csp, ps).vars[y] == csp.vars[y]
  {
    assert PrunedValues(ps, y) == {};
  }

  /** Each prune removed a value that was in the current domain at that moment. */
  predicate PrunedWhilePresent(csp: Csp, ps: seq<Prune>)
    decreases |ps|
  {
    ps == [] || (ps[0].x < |csp.vars| && ps[0].v in csp.vars[ps[0].x].cur && PrunedWhilePresent(PruneValue(csp, ps[0]), ps[1..]))
  }

  /** The caller's undo: re-insert the pruned values, last prune first. */
  function Restore(csp: Csp, ps: seq<Prune>): Csp
    decreases |ps|
  {
    if ps == [] then csp else UnpruneValue(Restore(csp, ps[1..]), ps[0])
  }

  /** Restoration law: replaying a prune list in reverse gives back the network exactly. */
  lemma {:induction false} RestoreUndoesPrunes(csp: Csp, ps: seq<Prune>)
    requires PrunedWhilePresent(csp, ps)
    ensures Restore(ApplyPrunes(csp, ps), ps) == csp
    decreases |ps|
  {
    if ps != [] {
      var p := ps[0];
      var s1 := PruneValue(csp, p);
      RestoreUndoesPrunes(s1, ps[1..]);
      assert ApplyPrunes(csp, ps) == ApplyPrunes(s1, ps[1..]);
      assert csp.vars[p.x].cur - {p.v} + {p.v} == csp.vars[p.x].cur;
      assert UnpruneValue(s1, p).vars == csp.vars;
    }
  }

  /** Every pruned value was present before the prunes and is absent after them. */
  lemma {:induction false} PrunedPresentThenAbsent(csp: Csp, ps: seq<Prune>)
    requires PrunedWhilePresent(csp, ps)
    ensures forall p :: p in ps ==> p.x < |csp.vars| && p.v in csp.vars[p.x].cur && p.v !in ApplyPrunes(csp, ps).vars[p.x].cur
    decreases |ps|
  {
    if ps != [] {
      PrunedPresentThenAbsent(PruneValue(csp, ps[0]), ps[1..]);
    }
  }

  /** No (variable, value) pair is pruned twice. */
  lemma {:induction false} PrunesAreDistinct(csp: Csp, ps: seq<Prune>)
    requires PrunedWhilePresent(csp, ps)
    ensures Distinct(ps)
    decreases |ps|
  {
    if ps != [] {
      var s1 := PruneValue(csp, ps[0]);
      PrunesAreDistinct(s1, ps[1..]);
      PrunedPresentThenAbsent(s1, ps[1..]);
      assert ps[0] !in ps[1..];
      forall i, j | 0 <= i < j < |ps| ensures ps[i] != ps[j] {
        if i > 0 {
          assert ps[i] == ps[1..][i - 1] && ps[j] == ps[1..][j - 1];
        } else {
          assert ps[j] in ps[1..];
        }
      }
    }
  }

  /** Prune lists compose: doing `a` then `b` is doing `a + b`. */
  lemma {:induction false} PrunesCompose(csp: Csp, a: seq<Prune>, b: seq<Prune>)
    ensures ApplyPrunes(csp, a + b) == ApplyPrunes(ApplyPrunes(csp, a), b)
    ensures PrunedWhilePresent(csp, a + b) <==> PrunedWhilePresent(csp, a) && PrunedWhilePresent(ApplyPrunes(csp, a), b)
    decreases |a|
  {
    if a != [] {
      PrunesCompose(PruneValue(csp, a[0]), a[1..], b);
      assert (a + b)[1..] == a[1..] + b;
    } else {
      assert a + b == b;
    }
  }

  /** The (variable, value) pairs still in some current domain; its size is the total current-domain size. */
  ghost function Present(csp: Csp): set<Prune> {
    set x, v | 0 <= x < |csp.vars| && v in csp.vars[x].cur :: Prune(x, v)
  }

  /** Every performed prune takes exactly one pair out of the network. */
  lemma {:induction false} PrunesShrinkPresent(csp: Csp, ps: seq<Prune>)
    requires PrunedWhilePresent(csp, ps)
    ensures Present(ApplyPrunes(csp, ps)) <= Present(csp)
    ensures |Present(ApplyPrunes(csp, ps))| == |Present(csp)| - |ps|
    decreases |ps|
  {
    if ps != [] {
      var p := ps[0];
      var s1 := PruneValue(csp, p);
      PrunesShrinkPresent(s1, ps[1..]);
      assert p in Present(csp);
      assert Present(s1) == Present(csp) - {p};
      assert ApplyPrunes(csp, ps) == ApplyPrunes(s1, ps[1..]);
    }
  }

  /** Pruning preserves well-formedness and assignments. */
  lemma PrunedStaysWellFormed(csp: Csp, ps: seq<Prune>)
    requires WellFormed(csp)
    ensures WellFormed(ApplyPrunes(csp, ps)) && SameAssignments(csp, ApplyPrunes(csp, ps))
  {
    var s := ApplyPrunes(csp, ps);
    forall y | 0 <= y < |s.vars| ensures ValidVariable(s.vars[y]) {
      assert ValidVariable(csp.vars[y]);
    }
  }

  /** Variable `y` had values before and has none after. */
  predicate Wiped(before: Csp, after: Csp, y: VarId)
    requires y < |before.vars| && y < |after.vars|
  {
    before.vars[y].cur != {} && after.vars[y].cur == {}
  }

  /** No variable's current domain went from non-empty to empty. */
  predicate NoWipe(before: Csp, after: Csp) {
    forall y :: 0 <= y < |before.vars| && y < |after.vars| ==> !Wiped(before, after, y)
  }

  /** Wipe-outs compose along a chain of prunes. */
  lemma WipeChain(a: Csp, ps1: seq<Prune>, ps2: seq<Prune>)
    requires NoWipe(a, ApplyPrunes(a, ps1))
    ensures NoWipe(ApplyPrunes(a, ps1), ApplyPrunes(ApplyPrunes(a, ps1), ps2)) <==> NoWipe(a, ApplyPrunes(ApplyPrunes(a, ps1), ps2))
  {
    var b := ApplyPrunes(a, ps1);
    var c := ApplyPrunes(b, ps2);
    if !NoWipe(a, c) {
      var y :| 0 <= y < |a.vars| && y < |c.vars| && Wiped(a, c, y);
      assert !Wiped(a, b, y);
      assert Wiped(b, c, y);
    }
    if !NoWipe(b, c) {
      var y :| 0 <= y < |b.vars| && y < |c.vars| && Wiped(b, c, y);
      assert Wiped(a, c, y);
    }
  }

  /** A prune that leaves its domain non-empty wipes nothing, so later wipe-outs are wipe-outs from the start. */
  lemma WipeAfterFirstPrune(csp: Csp, p: Prune, ps: seq<Prune>)
    requires p.x < |csp.vars| && PruneValue(csp, p).vars[p.x].cur != {}
    ensures NoWipe(PruneValue(csp, p), ApplyPrunes(PruneValue(csp, p), ps)) <==> NoWipe(csp, ApplyPrunes(PruneValue(csp, p), ps))
  {
    var next := PruneValue(csp, p);
    assert next == ApplyPrunes(csp, [p]);
    forall y | 0 <= y < |csp.vars| ensures !Wiped(csp, next, y) {
      if y != p.x {
        assert next.vars[y] == csp.vars[y];
      }
    }
    WipeChain(csp, [p], ps);
  }

  /** Prunes of one variable that leave it some value wipe out nothing. */
  lemma OneVariableNoWipe(csp: Csp, ps: seq<Prune>, x: VarId)
    requires x < |csp.vars| && forall p :: p in ps ==> p.x == x
    requires ApplyPrunes(csp, ps).vars[x].cur != {}
    ensures NoWipe(csp, ApplyPrunes(csp, ps))
  {
    forall y | 0 <= y < |csp.vars| && y != x ensures ApplyPrunes(csp, ps).vars[y] == csp.vars[y] {
      UntouchedUnchanged(csp, ps, y);
    }
  }

  /**
   * A propagator that answers False stops at the first wipe-out: it made at
   * least one prune, and the prunes before the last one wiped out nothing.
   */
  predicate StopsAtWipe(csp: Csp, ps: seq<Prune>) {
    ps != [] && NoWipe(csp, ApplyPrunes(csp, ps[..|ps| - 1]))
  }

  /** A single prune always stops at itself. */
  lemma StopsAtSinglePrune(csp: Csp, p: Prune)
    ensures StopsAtWipe(csp, [p])
  {
    assert [p][..0] == [];
    forall y | 0 <= y < |csp.vars| ensures !Wiped(csp, csp, y) { }
  }

  /** Prunes that wiped out nothing, followed by a run that stops at its first wipe-out, stop at that wipe-out. */
  lemma StopsAtWipeAfter(csp: Csp, a: seq<Prune>, b: seq<Prune>)
    requires NoWipe(csp, ApplyPrunes(csp, a)) && StopsAtWipe(ApplyPrunes(csp, a), b)
    ensures StopsAtWipe(csp, a + b)
  {
    var b0 := b[..|b| - 1];
    assert (a + b)[..|a + b| - 1] == a + b0;
    PrunesCompose(csp, a, b0);
    WipeChain(csp, a, b0);
  }

  /** The constraints a propagator starts from: all of them, or those on the newly assigned variable. */
  predicate Scanned(csp: Csp, newVar: Option<VarId>, k: ConId) {
    k < |csp.cons| && (newVar.None? || newVar.value in csp.cons[k].scope)
  }

  function ScanList(csp: Csp, newVar: Option<VarId>): (ks: seq<ConId>)
    ensures forall i :: 0 <= i < |ks| ==> Scanned(csp, newVar, ks[i])
    ensures forall k: ConId :: k in ks <==> Scanned(csp, newVar, k)
  {
    match newVar
    case None => AllCons(csp.cons)
    case Some(x) => ConsWith(csp.cons, x)
  }
}
