/**
 * `ord_mrv` (propagators.py): the minimum-remaining-values variable ordering.
 *
 * The unassigned variables are visited in network order and the first one
 * whose current domain is strictly smaller than the best so far is kept, so
 * ties go to the earliest variable. With no unassigned variable the result
 * is None.
 */
module VariableOrdering {
  import opened Csp

  predicate Unassigned(csp: Csp, x: VarId) {
    x < |csp.vars| && csp.vars[x].assignment.None?
  }

  /** `cur_domain_size()`. */
  function DomainSize(csp: Csp, x: VarId): nat
    requires x < |csp.vars|
  {
    |csp.vars[x].cur|
  }

  /**
   * `x` is the variable MRV picks: unassigned, no unassigned variable has a
   * smaller current domain, and every earlier unassigned variable has a
   * strictly larger one.
   */
  ghost predicate FirstMinimum(csp: Csp, x: VarId) {
    && Unassigned(csp, x)
    && (forall y: VarId :: Unassigned(csp, y) ==> DomainSize(csp, x) <= DomainSize(csp, y))
    && (forall y: VarId :: y < x && Unassigned(csp, y) ==> DomainSize(csp, x) < DomainSize(csp, y))
  }

  /** At most one variable is the first minimum, so the specification fixes the answer. */
  lemma FirstMinimumUnique(csp: Csp, x: VarId, z: VarId)
    requires FirstMinimum(csp, x) && FirstMinimum(csp, z)
    ensures x == z
  {
  }

  /** `ord_mrv(csp)`. */
  method OrdMRV(csp: Csp) returns (r: Option<VarId>)
    ensures r.None? <==> forall y: VarId :: !Unassigned(csp, y)
    ensures r.Some? ==> FirstMinimum(csp, r.value)
  {
    r := None;
    var best := 0;
    var y := 0;
    while y < |csp.vars|
      invariant 0 <= y <= |csp.vars|
      invariant r.None? ==> forall z: VarId :: z < y ==> !Unassigned(csp, z)
      invariant r.Some? ==> r.value < y && Unassigned(csp, r.value) && best == DomainSize(csp, r.value)
      invariant r.Some? ==> forall z: VarId :: z < y && Unassigned(csp, z) ==> best <= DomainSize(csp, z)
      invariant r.Some? ==> forall z: VarId :: z < r.value && Unassigned(csp, z) ==> best < DomainSize(csp, z)
    {
      if csp.vars[y].assignment.None? && (r.None? || DomainSize(csp, y) < best) {
        r := Some(y);
        best := DomainSize(csp, y);
      }
      assert r.None? ==> !Unassigned(csp, y);
      y := y + 1;
    }
  }
}
