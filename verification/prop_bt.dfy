/**
 * `prop_BT` (propagators.py): plain backtracking prunes nothing; it only
 * re-checks the fully assigned constraints on the variable just assigned.
 */
module Backtracking {
  import opened Csp

  /** Constraint `k` is fully assigned and rejects its assigned values. */
  predicate Violated(csp: Csp, k: ConId)
    requires WellFormed(csp) && k < |csp.cons|
  {
    var c := csp.cons[k];
    NoUnassignedMeansFullyAssigned(csp, c.scope);
    NUnassigned(csp, c.scope) == 0 && !Check(c, AssignedValues(csp, c.scope))
  }

  /** The loop over `get_cons_with_var(newVar)`: stops at the first violated constraint. */
  function CheckFullyAssigned(csp: Csp, ks: seq<ConId>): (ok: bool)
    requires WellFormed(csp)
    requires forall i :: 0 <= i < |ks| ==> ks[i] < |csp.cons|
    ensures ok <==> forall i :: 0 <= i < |ks| ==> !Violated(csp, ks[i])
  {
    if ks == [] then true
    else
      var c := csp.cons[ks[0]];
      NoUnassignedMeansFullyAssigned(csp, c.scope);
      if NUnassigned(csp, c.scope) == 0 && !Check(c, AssignedValues(csp, c.scope)) then false
      else CheckFullyAssigned(csp, ks[1..])
  }

  /**
   * With no new variable the answer is (True, []); otherwise False exactly
   * when some constraint containing the new variable is fully assigned and
   * rejects its assigned values. The prune list is always empty and the
   * network is left untouched.
   */
  function PropBT(csp: Csp, newVar: Option<VarId>): (r: Outcome)
    requires WellFormed(csp)
    ensures r.prunes == [] && r.csp == csp
    ensures newVar.None? ==> r.ok
    ensures newVar.Some? ==>
      (!r.ok <==> exists k :: 0 <= k < |csp.cons| && newVar.value in csp.cons[k].scope && Violated(csp, k))
  {
    match newVar
    case None => Outcome(true, [], csp)
    case Some(x) =>
      var ks := ConsWith(csp.cons, x);
      assert forall k: ConId :: k < |csp.cons| && x in csp.cons[k].scope ==> exists i :: 0 <= i < |ks| && ks[i] == k by {
        forall k: ConId | k < |csp.cons| && x in csp.cons[k].scope ensures exists i :: 0 <= i < |ks| && ks[i] == k {
          assert k in ks;
        }
      }
      Outcome(CheckFullyAssigned(csp, ks), [], csp)
  }

  /** Backtracking never rejects an assignment that extends to a solution. */
  lemma PropBTKeepsSolutions(csp: Csp, newVar: Option<VarId>, a: seq<int>)
    requires WellFormed(csp) && Solution(csp, a) && Extends(csp, a)
    ensures PropBT(csp, newVar).ok
  {
    forall k | 0 <= k < |csp.cons| ensures !Violated(csp, k) {
      var c := csp.cons[k];
      NoUnassignedMeansFullyAssigned(csp, c.scope);
      assert Satisfies(a, c);
      if FullyAssigned(csp, c.scope) {
        AssignedOfExtension(csp, a, c.scope);
      }
    }
  }
}
