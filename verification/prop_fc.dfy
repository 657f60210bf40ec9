/**
 * Forward checking: `FCCheck` and `prop_FC` (propagators.py).
 *
 * A constraint with exactly one unassigned scope variable `x` is checked by
 * tentatively assigning each value of `x`'s current domain; every value whose
 * trial the constraint rejects is pruned. The module-level `pruned_list` of
 * the source is threaded through as the `recorded` parameter.
 */
module ForwardChecking {
  import opened Seqs
  import opened Csp

  /** The values `check` sees when the lone unassigned variable `x` is tentatively given `v`. */
  function TrialValues(csp: Csp, scope: seq<VarId>, x: VarId, v: int): seq<int>
    requires InRange(scope, |csp.vars|) && UnassignedVars(csp, scope) == [x]
  {
    OneUnassignedThenTrialComplete(csp, scope, x, v);
    AssignedValues(AssignVar(csp, x, v), scope)
  }

  predicate TrialFails(csp: Csp, c: Constraint, x: VarId, v: int)
    requires InRange(c.scope, |csp.vars|) && UnassignedVars(csp, c.scope) == [x]
  {
    !Check(c, TrialValues(csp, c.scope, x, v))
  }

  /** Every prune recorded so far is already out of its variable's current domain. */
  predicate RecordedAbsent(csp: Csp, recorded: seq<Prune>) {
    forall p :: p in recorded && p.x < |csp.vars| ==> p.v !in csp.vars[p.x].cur
  }

  /** After performing prunes, they join the record of values already out. */
  lemma RecordedGrows(csp: Csp, recorded: seq<Prune>, ps: seq<Prune>)
    requires RecordedAbsent(csp, recorded) && PrunedWhilePresent(csp, ps)
    ensures RecordedAbsent(ApplyPrunes(csp, ps), recorded + ps)
  {
    PrunedPresentThenAbsent(csp, ps);
  }

  /** Assigning and then unassigning the trial variable leaves no trace but the prune. */
  lemma TrialLeavesNoTrace(csp: Csp, x: VarId, v: int)
    requires x < |csp.vars| && csp.vars[x].assignment.None?
    ensures UnassignVar(AssignVar(csp, x, v), x) == csp
    ensures UnassignVar(PruneValue(AssignVar(csp, x, v), Prune(x, v)), x) == PruneValue(csp, Prune(x, v))
  {
    assert UnassignVar(AssignVar(csp, x, v), x).vars == csp.vars;
  }

  /** Trials depend on assignments only, so pruning does not change their verdicts. */
  lemma TrialsIgnoreDomains(a: Csp, b: Csp, c: Constraint, x: VarId)
    requires SameAssignments(a, b) && InRange(c.scope, |a.vars|) && UnassignedVars(a, c.scope) == [x]
    ensures UnassignedVars(b, c.scope) == [x]
    ensures forall w :: TrialFails(a, c, x, w) <==> TrialFails(b, c, x, w)
  {
    SameAssignmentsSameScope(a, b, c.scope);
    forall w ensures TrialFails(a, c, x, w) <==> TrialFails(b, c, x, w) {
      OneUnassignedThenTrialComplete(a, c.scope, x, w);
      assert SameAssignments(AssignVar(a, x, w), AssignVar(b, x, w));
      SameAssignmentsSameScope(AssignVar(a, x, w), AssignVar(b, x, w), c.scope);
    }
  }

  /**
   * One iteration of `FCCheck`: assign `v` to `x`, prune `v` if the
   * constraint rejects the trial (and `v` is present and not yet recorded),
   * then unassign `x`. Returns the prunes made and the resulting network.
   */
  function FCTry(csp: Csp, c: Constraint, x: VarId, v: int, recorded: seq<Prune>): (r: (seq<Prune>, Csp))
    requires InRange(c.scope, |csp.vars|) && x < |csp.vars| && UnassignedVars(csp, c.scope) == [x]
    requires v in csp.vars[x].cur && RecordedAbsent(csp, recorded)
    ensures r.0 == (if TrialFails(csp, c, x, v) then [Prune(x, v)] else [])
    ensures PrunedWhilePresent(csp, r.0) && r.1 == ApplyPrunes(csp, r.0)
  {
    var trial := AssignVar(csp, x, v);
    OneUnassignedThenTrialComplete(csp, c.scope, x, v);
    var fails := !Check(c, AssignedValues(trial, c.scope));
    var doPrune := fails && v in trial.vars[x].cur && Prune(x, v) !in recorded;
    var added := if doPrune then [Prune(x, v)] else [];
    TrialLeavesNoTrace(csp, x, v);
    (added, UnassignVar(if doPrune then PruneValue(trial, Prune(x, v)) else trial, x))
  }

  /** The loop of `FCCheck` over the snapshot `vals` of `x`'s current domain. */
  function FCLoop(csp: Csp, c: Constraint, x: VarId, vals: seq<int>, recorded: seq<Prune>): (r: Outcome)
    requires InRange(c.scope, |csp.vars|) && x < |csp.vars| && UnassignedVars(csp, c.scope) == [x]
    requires Distinct(vals) && forall w :: w in vals ==> w in csp.vars[x].cur
    requires RecordedAbsent(csp, recorded)
    ensures PrunedWhilePresent(csp, r.prunes) && r.csp == ApplyPrunes(csp, r.prunes)
    decreases |vals|
  {
    if vals == [] then
      Outcome(true, [], csp)
    else
      var (added, next) := FCTry(csp, c, x, vals[0], recorded);
      TrialsIgnoreDomains(csp, next, c, x);
      if next.vars[x].cur == {} then
        Outcome(false, added, next)
      else
        assert vals[0] !in vals[1..] && Distinct(vals[1..]);
        RecordedGrows(csp, recorded, added);
        var rest := FCLoop(next, c, x, vals[1..], recorded + added);
        PrunesCompose(csp, added, rest.prunes);
        Outcome(rest.ok, added + rest.prunes, rest.csp)
  }

  /**
   * The loop prunes exactly the values of the snapshot whose trial fails,
   * and stops with False exactly when the domain of `x` runs empty.
   */
  lemma {:induction false} FCLoopSound(csp: Csp, c: Constraint, x: VarId, vals: seq<int>, recorded: seq<Prune>)
    requires InRange(c.scope, |csp.vars|) && x < |csp.vars| && UnassignedVars(csp, c.scope) == [x]
    requires Distinct(vals) && forall w :: w in vals ==> w in csp.vars[x].cur
    requires RecordedAbsent(csp, recorded)
    ensures forall p :: p in FCLoop(csp, c, x, vals, recorded).prunes ==> p.x == x && TrialFails(csp, c, x, p.v)
    ensures forall w :: w in FCLoop(csp, c, x, vals, recorded).csp.vars[x].cur <==>
      w in csp.vars[x].cur && !(w in vals && TrialFails(csp, c, x, w))
    ensures FCLoop(csp, c, x, vals, recorded).ok <==> vals == [] || FCLoop(csp, c, x, vals, recorded).csp.vars[x].cur != {}
    decreases |vals|
  {
    if vals != [] {
      var (added, next) := FCTry(csp, c, x, vals[0], recorded);
      TrialsIgnoreDomains(csp, next, c, x);
      if next.vars[x].cur != {} {
        RecordedGrows(csp, recorded, added);
        assert Distinct(vals[1..]);
        FCLoopSound(next, c, x, vals[1..], recorded + added);
        var rest := FCLoop(next, c, x, vals[1..], recorded + added);
        FCLoopStep(csp, c, x, vals, added, rest);
      }
    }
  }

  /** The loop answers False at the prune that empties the domain, and prunes nothing after it. */
  lemma {:induction false} FCLoopStops(csp: Csp, c: Constraint, x: VarId, vals: seq<int>, recorded: seq<Prune>)
    requires InRange(c.scope, |csp.vars|) && x < |csp.vars| && UnassignedVars(csp, c.scope) == [x]
    requires Distinct(vals) && forall w :: w in vals ==> w in csp.vars[x].cur
    requires RecordedAbsent(csp, recorded)
    ensures !FCLoop(csp, c, x, vals, recorded).ok ==> StopsAtWipe(csp, FCLoop(csp, c, x, vals, recorded).prunes)
    decreases |vals|
  {
    if vals != [] {
      var (added, next) := FCTry(csp, c, x, vals[0], recorded);
      TrialsIgnoreDomains(csp, next, c, x);
      if next.vars[x].cur == {} {
        assert vals[0] in csp.vars[x].cur;
        assert added == [Prune(x, vals[0])];
        StopsAtSinglePrune(csp, Prune(x, vals[0]));
      } else {
        assert vals[0] !in vals[1..] && Distinct(vals[1..]);
        RecordedGrows(csp, recorded, added);
        FCLoopStops(next, c, x, vals[1..], recorded + added);
        OneVariableNoWipe(csp, added, x);
        var rest := FCLoop(next, c, x, vals[1..], recorded + added);
        if !rest.ok {
          StopsAtWipeAfter(csp, added, rest.prunes);
        }
      }
    }
  }

  /** When every value of the snapshot passes its trial, the loop prunes nothing and answers True. */
  lemma {:induction false} FCLoopNoop(csp: Csp, c: Constraint, x: VarId, vals: seq<int>, recorded: seq<Prune>)
    requires InRange(c.scope, |csp.vars|) && x < |csp.vars| && UnassignedVars(csp, c.scope) == [x]
    requires Distinct(vals) && forall w :: w in vals ==> w in csp.vars[x].cur && !TrialFails(csp, c, x, w)
    requires RecordedAbsent(csp, recorded)
    ensures FCLoop(csp, c, x, vals, recorded) == Outcome(true, [], csp)
    decreases |vals|
  {
    if vals != [] {
      var (added, next) := FCTry(csp, c, x, vals[0], recorded);
      assert added == [] && next == csp;
      assert Distinct(vals[1..]);
      assert recorded + added == recorded;
      FCLoopNoop(csp, c, x, vals[1..], recorded);
    }
  }

  /** The recursive case of `FCLoop`: the first trial's prune followed by the rest of the loop's. */
  lemma FCLoopStep(csp: Csp, c: Constraint, x: VarId, vals: seq<int>, added: seq<Prune>, rest: Outcome)
    requires InRange(c.scope, |csp.vars|) && x < |csp.vars| && UnassignedVars(csp, c.scope) == [x]
    requires Distinct(vals) && |vals| > 0 && vals[0] in csp.vars[x].cur
    requires added == (if TrialFails(csp, c, x, vals[0]) then [Prune(x, vals[0])] else [])
    requires PrunedWhilePresent(csp, added)
    requires SameAssignments(csp, ApplyPrunes(csp, added))
    requires UnassignedVars(ApplyPrunes(csp, added), c.scope) == [x]
    requires forall w :: TrialFails(csp, c, x, w) <==> TrialFails(ApplyPrunes(csp, added), c, x, w)
    requires rest.csp == ApplyPrunes(ApplyPrunes(csp, added), rest.prunes)
    requires forall p :: p in rest.prunes ==> p.x == x && TrialFails(ApplyPrunes(csp, added), c, x, p.v)
    requires forall w :: w in rest.csp.vars[x].cur <==>
      w in ApplyPrunes(csp, added).vars[x].cur && !(w in vals[1..] && TrialFails(csp, c, x, w))
    ensures forall p :: p in added + rest.prunes ==> p.x == x && TrialFails(csp, c, x, p.v)
    ensures forall w :: w in rest.csp.vars[x].cur <==> w in csp.vars[x].cur && !(w in vals && TrialFails(csp, c, x, w))
  {
    assert vals[0] !in vals[1..];
    forall w ensures w in rest.csp.vars[x].cur <==> w in csp.vars[x].cur && !(w in vals && TrialFails(csp, c, x, w)) {
      assert w in vals <==> w == vals[0] || w in vals[1..];
    }
  }

  /** The lone unassigned variable of a constraint with `get_n_unasgn() == 1`. */
  function FcVar(csp: Csp, k: ConId): (x: VarId)
    requires k < |csp.cons| && InRange(csp.cons[k].scope, |csp.vars|) && NUnassigned(csp, csp.cons[k].scope) == 1
    ensures UnassignedVars(csp, csp.cons[k].scope) == [x] && x < |csp.vars|
  {
    var r := UnassignedVars(csp, csp.cons[k].scope);
    assert r == [r[0]];
    assert r[0] in r;
    r[0]
  }

  /**
   * `FCCheck`: prunes exactly those values of the unassigned variable's
   * current domain whose trial the constraint rejects, and fails exactly
   * when that empties a domain that was not already empty.
   */
  function FCCheck(csp: Csp, k: ConId, recorded: seq<Prune>): (r: Outcome)
    requires WellFormed(csp) && k < |csp.cons| && NUnassigned(csp, csp.cons[k].scope) == 1
    requires RecordedAbsent(csp, recorded)
    ensures PrunedWhilePresent(csp, r.prunes) && r.csp == ApplyPrunes(csp, r.prunes)
    ensures forall p :: p in r.prunes ==> p.x == FcVar(csp, k) && TrialFails(csp, csp.cons[k], p.x, p.v)
    ensures r.csp.vars[FcVar(csp, k)].cur
         == set w | w in csp.vars[FcVar(csp, k)].cur && !TrialFails(csp, csp.cons[k], FcVar(csp, k), w)
    ensures r.ok <==> csp.vars[FcVar(csp, k)].cur == {} || r.csp.vars[FcVar(csp, k)].cur != {}
  {
    var x := FcVar(csp, k);
    var vals := CurDomain(csp.vars[x]);
    var r := FCLoop(csp, csp.cons[k], x, vals, recorded);
    assert ValidVariable(csp.vars[x]);
    FCLoopSound(csp, csp.cons[k], x, vals, recorded);
    CurDomainEmpty(csp.vars[x]);
    r
  }

  /** After forward checking constraint `k`, every remaining value of its variable passes the trial. */
  predicate FcConsistent(csp: Csp, k: ConId) {
    && k < |csp.cons| && InRange(csp.cons[k].scope, |csp.vars|) && NUnassigned(csp, csp.cons[k].scope) == 1
    && forall w :: w in csp.vars[FcVar(csp, k)].cur ==> !TrialFails(csp, csp.cons[k], FcVar(csp, k), w)
  }

  /** Prune `p` is a failed trial of the lone unassigned variable of constraint `k`. */
  predicate FcJustifies(csp: Csp, k: ConId, p: Prune) {
    k < |csp.cons| && InRange(csp.cons[k].scope, |csp.vars|) && NUnassigned(csp, csp.cons[k].scope) == 1 && p.x == FcVar(csp, k)
    && TrialFails(csp, csp.cons[k], p.x, p.v)
  }

  /** Pruning keeps forward-check consistency: it only removes values. */
  lemma FcConsistentAfterPrunes(csp: Csp, k: ConId, ps: seq<Prune>)
    requires WellFormed(csp) && k < |csp.cons| && NUnassigned(csp, csp.cons[k].scope) == 1
    requires FcConsistent(csp, k)
    ensures WellFormed(ApplyPrunes(csp, ps))
    ensures NUnassigned(ApplyPrunes(csp, ps), csp.cons[k].scope) == 1
    ensures FcConsistent(ApplyPrunes(csp, ps), k)
  {
    var s := ApplyPrunes(csp, ps);
    assert WellFormed(s) by {
      forall y | 0 <= y < |s.vars| ensures ValidVariable(s.vars[y]) {
        assert ValidVariable(csp.vars[y]);
      }
    }
    TrialsIgnoreDomains(csp, s, csp.cons[k], FcVar(csp, k));
  }

  /** A forward check fails exactly when it wipes out a domain, and then at once; it touches no other variable. */
  lemma FCCheckWipes(csp: Csp, k: ConId, recorded: seq<Prune>)
    requires WellFormed(csp) && k < |csp.cons| && NUnassigned(csp, csp.cons[k].scope) == 1
    requires RecordedAbsent(csp, recorded)
    ensures FCCheck(csp, k, recorded).ok <==> NoWipe(csp, FCCheck(csp, k, recorded).csp)
    ensures !FCCheck(csp, k, recorded).ok ==> StopsAtWipe(csp, FCCheck(csp, k, recorded).prunes)
  {
    var c1 := FCCheck(csp, k, recorded);
    var x := FcVar(csp, k);
    assert ValidVariable(csp.vars[x]);
    FCLoopStops(csp, csp.cons[k], x, CurDomain(csp.vars[x]), recorded);
    forall y | 0 <= y < |csp.vars| && y != x ensures c1.csp.vars[y].cur == csp.vars[y].cur {
      UntouchedUnchanged(csp, c1.prunes, y);
    }
    if !c1.ok {
      assert Wiped(csp, c1.csp, x);
    }
  }

  /**
   * What `prop_FC` does with one constraint: forward check it when exactly
   * one of its variables is unassigned, otherwise nothing.
   */
  function FCFirst(csp: Csp, k: ConId, recorded: seq<Prune>): (r: Outcome)
    requires WellFormed(csp) && k < |csp.cons| && RecordedAbsent(csp, recorded)
    ensures PrunedWhilePresent(csp, r.prunes) && r.csp == ApplyPrunes(csp, r.prunes)
    ensures WellFormed(r.csp) && SameAssignments(csp, r.csp) && RecordedAbsent(r.csp, recorded + r.prunes)
  {
    var r := if NUnassigned(csp, csp.cons[k].scope) == 1 then FCCheck(csp, k, recorded) else Outcome(true, [], csp);
    PrunedStaysWellFormed(csp, r.prunes);
    RecordedGrows(csp, recorded, r.prunes);
    r
  }

  /** Each prune of the first step is justified by its constraint, it fails exactly on a wipe-out, and success leaves the constraint consistent. */
  lemma FCFirstSound(csp: Csp, k: ConId, recorded: seq<Prune>)
    requires WellFormed(csp) && k < |csp.cons| && RecordedAbsent(csp, recorded)
    ensures forall p :: p in FCFirst(csp, k, recorded).prunes ==> FcJustifies(csp, k, p)
    ensures FCFirst(csp, k, recorded).ok <==> NoWipe(csp, FCFirst(csp, k, recorded).csp)
    ensures !FCFirst(csp, k, recorded).ok ==> StopsAtWipe(csp, FCFirst(csp, k, recorded).prunes)
    ensures FCFirst(csp, k, recorded).ok && NUnassigned(csp, csp.cons[k].scope) == 1 ==> FcConsistent(FCFirst(csp, k, recorded).csp, k)
  {
    if NUnassigned(csp, csp.cons[k].scope) == 1 {
      var c1 := FCCheck(csp, k, recorded);
      FCCheckWipes(csp, k, recorded);
      if c1.ok {
        PrunedStaysWellFormed(csp, c1.prunes);
        SameAssignmentsSameScope(csp, c1.csp, csp.cons[k].scope);
        TrialsIgnoreDomains(csp, c1.csp, csp.cons[k], FcVar(csp, k));
      }
    }
  }

  /** A constraint that is already forward consistent, or has not exactly one unassigned variable: nothing to do. */
  lemma FCFirstNoop(csp: Csp, k: ConId, recorded: seq<Prune>)
    requires WellFormed(csp) && k < |csp.cons| && RecordedAbsent(csp, recorded)
    requires NUnassigned(csp, csp.cons[k].scope) == 1 ==> FcConsistent(csp, k)
    ensures FCFirst(csp, k, recorded) == Outcome(true, [], csp)
  {
    if NUnassigned(csp, csp.cons[k].scope) == 1 {
      var x := FcVar(csp, k);
      assert ValidVariable(csp.vars[x]);
      FCLoopNoop(csp, csp.cons[k], x, CurDomain(csp.vars[x]), recorded);
    }
  }

  /** The loop of `prop_FC` over the scanned constraints. */
  function FCScan(csp: Csp, ks: seq<ConId>, recorded: seq<Prune>): (r: Outcome)
    requires WellFormed(csp) && forall i :: 0 <= i < |ks| ==> ks[i] < |csp.cons|
    requires RecordedAbsent(csp, recorded)
    ensures PrunedWhilePresent(csp, r.prunes) && r.csp == ApplyPrunes(csp, r.prunes)
    decreases |ks|
  {
    if ks == [] then
      Outcome(true, [], csp)
    else
      var c1 := FCFirst(csp, ks[0], recorded);
      if !c1.ok then
        c1
      else
        var rest := FCScan(c1.csp, ks[1..], recorded + c1.prunes);
        PrunesCompose(csp, c1.prunes, rest.prunes);
        Outcome(rest.ok, c1.prunes + rest.prunes, rest.csp)
  }

  /** Every prune of the scan is a failed trial of one of the scanned constraints. */
  lemma {:induction false} FCScanJustified(csp: Csp, ks: seq<ConId>, recorded: seq<Prune>)
    requires WellFormed(csp) && forall i :: 0 <= i < |ks| ==> ks[i] < |csp.cons|
    requires RecordedAbsent(csp, recorded)
    ensures forall p :: p in FCScan(csp, ks, recorded).prunes ==> exists i :: 0 <= i < |ks| && FcJustifies(csp, ks[i], p)
    decreases |ks|
  {
    if ks != [] {
      var c1 := FCFirst(csp, ks[0], recorded);
      FCFirstSound(csp, ks[0], recorded);
      if c1.ok {
        var rest := FCScan(c1.csp, ks[1..], recorded + c1.prunes);
        FCScanJustified(c1.csp, ks[1..], recorded + c1.prunes);
        JustifiedAfterFirst(csp, ks, c1, rest);
      } else {
        JustifiedByFirst(csp, ks, c1.prunes);
      }
    }
  }

  /** When the scan succeeds, every scanned one-unassigned constraint is forward consistent. */
  lemma {:induction false} FCScanConsistent(csp: Csp, ks: seq<ConId>, recorded: seq<Prune>)
    requires WellFormed(csp) && forall i :: 0 <= i < |ks| ==> ks[i] < |csp.cons|
    requires RecordedAbsent(csp, recorded)
    ensures FCScan(csp, ks, recorded).ok ==> forall i :: 0 <= i < |ks| && NUnassigned(csp, csp.cons[ks[i]].scope) == 1 ==>
      FcConsistent(FCScan(csp, ks, recorded).csp, ks[i])
    decreases |ks|
  {
    if ks != [] {
      var c1 := FCFirst(csp, ks[0], recorded);
      FCFirstSound(csp, ks[0], recorded);
      if c1.ok {
        var rest := FCScan(c1.csp, ks[1..], recorded + c1.prunes);
        FCScanConsistent(c1.csp, ks[1..], recorded + c1.prunes);
        ConsistencyTransfer(csp, c1, rest, ks);
      }
    }
  }

  /** The scan answers False exactly when some variable's current domain was wiped out, and stops at that wipe-out. */
  lemma {:induction false} FCScanWipes(csp: Csp, ks: seq<ConId>, recorded: seq<Prune>)
    requires WellFormed(csp) && forall i :: 0 <= i < |ks| ==> ks[i] < |csp.cons|
    requires RecordedAbsent(csp, recorded)
    ensures FCScan(csp, ks, recorded).ok <==> NoWipe(csp, FCScan(csp, ks, recorded).csp)
    ensures !FCScan(csp, ks, recorded).ok ==> StopsAtWipe(csp, FCScan(csp, ks, recorded).prunes)
    decreases |ks|
  {
    if ks != [] {
      var c1 := FCFirst(csp, ks[0], recorded);
      FCFirstSound(csp, ks[0], recorded);
      if c1.ok {
        var rest := FCScan(c1.csp, ks[1..], recorded + c1.prunes);
        FCScanWipes(c1.csp, ks[1..], recorded + c1.prunes);
        WipeChain(csp, c1.prunes, rest.prunes);
        if !rest.ok {
          StopsAtWipeAfter(csp, c1.prunes, rest.prunes);
        }
      }
    }
  }

  /** A scan over constraints that are all forward consistent (or not one-unassigned) prunes nothing. */
  lemma {:induction false} FCScanNoop(csp: Csp, ks: seq<ConId>, recorded: seq<Prune>)
    requires WellFormed(csp) && forall i :: 0 <= i < |ks| ==> ks[i] < |csp.cons|
    requires RecordedAbsent(csp, recorded)
    requires forall i :: 0 <= i < |ks| && NUnassigned(csp, csp.cons[ks[i]].scope) == 1 ==> FcConsistent(csp, ks[i])
    ensures FCScan(csp, ks, recorded) == Outcome(true, [], csp)
    decreases |ks|
  {
    if ks != [] {
      FCFirstNoop(csp, ks[0], recorded);
      assert recorded + [] == recorded;
      FCScanNoop(csp, ks[1..], recorded);
    }
  }

  lemma JustifiedByFirst(csp: Csp, ks: seq<ConId>, ps: seq<Prune>)
    requires |ks| > 0
    requires forall p :: p in ps ==> FcJustifies(csp, ks[0], p)
    ensures forall p :: p in ps ==> exists i :: 0 <= i < |ks| && FcJustifies(csp, ks[i], p)
  {
    forall p | p in ps ensures exists i :: 0 <= i < |ks| && FcJustifies(csp, ks[i], p) {
      assert FcJustifies(csp, ks[0], p);
    }
  }

  /** The first constraint's prunes and the rest of the scan's are all justified by a scanned constraint. */
  lemma JustifiedAfterFirst(csp: Csp, ks: seq<ConId>, c1: Outcome, rest: Outcome)
    requires WellFormed(csp) && |ks| > 0 && forall i :: 0 <= i < |ks| ==> ks[i] < |csp.cons|
    requires forall p :: p in c1.prunes ==> FcJustifies(csp, ks[0], p)
    requires WellFormed(c1.csp) && SameAssignments(csp, c1.csp) && c1.csp.cons == csp.cons
    requires forall p :: p in rest.prunes ==> exists i :: 0 <= i < |ks[1..]| && FcJustifies(c1.csp, ks[1..][i], p)
    ensures forall p :: p in c1.prunes + rest.prunes ==> exists i :: 0 <= i < |ks| && FcJustifies(csp, ks[i], p)
  {
    JustifiedByFirst(csp, ks, c1.prunes);
    JustificationsTransfer(csp, c1.csp, ks, rest.prunes);
    forall p | p in c1.prunes + rest.prunes ensures exists i :: 0 <= i < |ks| && FcJustifies(csp, ks[i], p) {
      assert p in c1.prunes || p in rest.prunes;
    }
  }

  lemma JustificationsTransfer(csp: Csp, s1: Csp, ks: seq<ConId>, ps: seq<Prune>)
    requires WellFormed(csp) && WellFormed(s1) && SameAssignments(csp, s1) && s1.cons == csp.cons
    requires |ks| > 0 && forall i :: 0 <= i < |ks| ==> ks[i] < |csp.cons|
    requires forall p :: p in ps ==> exists i :: 0 <= i < |ks[1..]| && FcJustifies(s1, ks[1..][i], p)
    ensures forall p :: p in ps ==> exists i :: 0 <= i < |ks| && FcJustifies(csp, ks[i], p)
  {
    forall p | p in ps ensures exists i :: 0 <= i < |ks| && FcJustifies(csp, ks[i], p) {
      var i :| 0 <= i < |ks[1..]| && FcJustifies(s1, ks[1..][i], p);
      JustificationTransfers(csp, s1, ks[i + 1], p);
    }
  }

  /** Whether a prune is a failed trial depends on the assignments only. */
  lemma JustificationTransfers(csp: Csp, s1: Csp, k: ConId, p: Prune)
    requires WellFormed(csp) && SameAssignments(csp, s1) && s1.cons == csp.cons
    requires FcJustifies(s1, k, p)
    ensures FcJustifies(csp, k, p)
  {
    SameAssignmentsSameScope(csp, s1, csp.cons[k].scope);
    TrialsIgnoreDomains(s1, csp, csp.cons[k], p.x);
  }

  lemma ConsistencyTransfer(csp: Csp, c1: Outcome, rest: Outcome, ks: seq<ConId>)
    requires WellFormed(csp) && |ks| > 0 && forall i :: 0 <= i < |ks| ==> ks[i] < |csp.cons|
    requires c1.csp == ApplyPrunes(csp, c1.prunes) && WellFormed(c1.csp) && SameAssignments(csp, c1.csp)
    requires NUnassigned(csp, csp.cons[ks[0]].scope) == 1 ==> FcConsistent(c1.csp, ks[0])
    requires rest.csp == ApplyPrunes(c1.csp, rest.prunes)
    requires rest.ok ==> forall i :: 0 <= i < |ks[1..]| && NUnassigned(c1.csp, c1.csp.cons[ks[1..][i]].scope) == 1 ==>
      FcConsistent(rest.csp, ks[1..][i])
    ensures rest.ok ==> forall i :: 0 <= i < |ks| && NUnassigned(csp, csp.cons[ks[i]].scope) == 1 ==>
      FcConsistent(rest.csp, ks[i])
  {
    if rest.ok {
      forall i | 0 <= i < |ks| && NUnassigned(csp, csp.cons[ks[i]].scope) == 1
        ensures FcConsistent(rest.csp, ks[i])
      {
        SameAssignmentsSameScope(csp, c1.csp, csp.cons[ks[i]].scope);
        if i == 0 {
          FcConsistentAfterPrunes(c1.csp, ks[0], rest.prunes);
        } else {
          assert ks[1..][i - 1] == ks[i];
        }
      }
    }
  }

  /**
   * `prop_FC`: the prune list is restorable and duplicate free, every prune
   * is a failed trial of a scanned constraint, success leaves every scanned
   * one-unassigned constraint forward-consistent, and the answer is False
   * exactly when some variable's current domain was wiped out.
   */
  function PropFC(csp: Csp, newVar: Option<VarId>): (r: Outcome)
    requires WellFormed(csp)
    ensures PrunedWhilePresent(csp, r.prunes) && r.csp == ApplyPrunes(csp, r.prunes)
    ensures forall p :: p in r.prunes ==> exists k :: Scanned(csp, newVar, k) && FcJustifies(csp, k, p)
    ensures r.ok ==> forall k: ConId :: Scanned(csp, newVar, k) && NUnassigned(csp, csp.cons[k].scope) == 1 ==>
      FcConsistent(r.csp, k)
    ensures r.ok <==> NoWipe(csp, r.csp)
    ensures !r.ok ==> StopsAtWipe(csp, r.prunes)
    ensures WellFormed(r.csp) && SameAssignments(csp, r.csp)
  {
    var ks := ScanList(csp, newVar);
    var r := FCScan(csp, ks, []);
    PrunedStaysWellFormed(csp, r.prunes);
    FCScanJustified(csp, ks, []);
    FCScanConsistent(csp, ks, []);
    FCScanWipes(csp, ks, []);
    ScannedJustify(csp, newVar, ks, r.prunes);
    ScannedConsistent(csp, newVar, ks, r);
    r
  }

  lemma ScannedJustify(csp: Csp, newVar: Option<VarId>, ks: seq<ConId>, ps: seq<Prune>)
    requires ks == ScanList(csp, newVar)
    requires forall p :: p in ps ==> exists i :: 0 <= i < |ks| && FcJustifies(csp, ks[i], p)
    ensures forall p :: p in ps ==> exists k :: Scanned(csp, newVar, k) && FcJustifies(csp, k, p)
  {
    forall p | p in ps ensures exists k :: Scanned(csp, newVar, k) && FcJustifies(csp, k, p) {
      var i :| 0 <= i < |ks| && FcJustifies(csp, ks[i], p);
      assert Scanned(csp, newVar, ks[i]);
    }
  }

  lemma ScannedConsistent(csp: Csp, newVar: Option<VarId>, ks: seq<ConId>, r: Outcome)
    requires WellFormed(csp) && ks == ScanList(csp, newVar)
    requires r.ok ==> forall i :: 0 <= i < |ks| && NUnassigned(csp, csp.cons[ks[i]].scope) == 1 ==> FcConsistent(r.csp, ks[i])
    ensures r.ok ==> forall k: ConId :: Scanned(csp, newVar, k) && NUnassigned(csp, csp.cons[k].scope) == 1 ==>
      FcConsistent(r.csp, k)
  {
    if r.ok {
      forall k: ConId | Scanned(csp, newVar, k) && NUnassigned(csp, csp.cons[k].scope) == 1
        ensures FcConsistent(r.csp, k)
      {
        assert k in ks;
        var i :| 0 <= i < |ks| && ks[i] == k;
      }
    }
  }

  /**
   * `prop_FC` is idempotent: after a successful call, every scanned
   * constraint with one unassigned variable is forward consistent, so the
   * same call again prunes nothing and answers True.
   */
  lemma PropFCIdempotent(csp: Csp, newVar: Option<VarId>)
    requires WellFormed(csp)
    ensures var r := PropFC(csp, newVar);
      r.ok ==> PropFC(r.csp, newVar) == Outcome(true, [], r.csp)
  {
    var r := PropFC(csp, newVar);
    if r.ok {
      var ks := ScanList(r.csp, newVar);
      forall i | 0 <= i < |ks| && NUnassigned(r.csp, r.csp.cons[ks[i]].scope) == 1 ensures FcConsistent(r.csp, ks[i]) {
        assert Scanned(csp, newVar, ks[i]);
        SameAssignmentsSameScope(csp, r.csp, csp.cons[ks[i]].scope);
      }
      FCScanNoop(r.csp, ks, []);
    }
  }

  /** Replaying the prune list of `prop_FC` in reverse gives back the network it started from; no pair is pruned twice. */
  lemma PropFCRestorable(csp: Csp, newVar: Option<VarId>)
    requires WellFormed(csp)
    ensures Distinct(PropFC(csp, newVar).prunes)
    ensures Restore(PropFC(csp, newVar).csp, PropFC(csp, newVar).prunes) == csp
  {
    PrunesAreDistinct(csp, PropFC(csp, newVar).prunes);
    RestoreUndoesPrunes(csp, PropFC(csp, newVar).prunes);
  }

  /** A value a solution extending the current assignment uses never fails its trial. */
  lemma SolutionPassesTrial(csp: Csp, c: Constraint, x: VarId, a: seq<int>)
    requires InRange(c.scope, |csp.vars|) && UnassignedVars(csp, c.scope) == [x]
    requires Extends(csp, a) && Satisfies(a, c)
    ensures x < |a| && !TrialFails(csp, c, x, a[x])
  {
    assert x in UnassignedVars(csp, c.scope);
    OneUnassignedThenTrialComplete(csp, c.scope, x, a[x]);
    var t := AssignVar(csp, x, a[x]);
    assert Extends(t, a);
    AssignedOfExtension(t, a, c.scope);
  }

  /**
   * Forward checking is sound: a solution that extends the current
   * assignment loses none of its values, so `prop_FC` cannot answer False
   * while one exists.
   */
  lemma PropFCKeepsSolutions(csp: Csp, newVar: Option<VarId>)
    requires WellFormed(csp)
    ensures forall a :: Solution(csp, a) && Extends(csp, a) ==> PropFC(csp, newVar).ok && Solution(PropFC(csp, newVar).csp, a)
  {
    forall a | Solution(csp, a) && Extends(csp, a) ensures PropFC(csp, newVar).ok && Solution(PropFC(csp, newVar).csp, a) {
      PropFCKeepsSolution(csp, newVar, a);
    }
  }

  lemma PropFCKeepsSolution(csp: Csp, newVar: Option<VarId>, a: seq<int>)
    requires WellFormed(csp) && Solution(csp, a) && Extends(csp, a)
    ensures PropFC(csp, newVar).ok && Solution(PropFC(csp, newVar).csp, a)
  {
    var r := PropFC(csp, newVar);
    forall p | p in r.prunes && p.x < |a| ensures a[p.x] != p.v {
      var k :| Scanned(csp, newVar, k) && FcJustifies(csp, k, p);
      JustifiedPruneAvoidsSolution(csp, k, p, a);
    }
    PrunesAvoidingSolution(csp, r.prunes, a);
    SolutionMeansNoWipe(csp, r.csp, a);
  }

  /** A prune justified by a forward check never removes a value of a solution extending the assignment. */
  lemma JustifiedPruneAvoidsSolution(csp: Csp, k: ConId, p: Prune, a: seq<int>)
    requires Solution(csp, a) && Extends(csp, a) && FcJustifies(csp, k, p)
    ensures p.x < |a| && a[p.x] != p.v
  {
    assert Satisfies(a, csp.cons[k]);
    SolutionPassesTrial(csp, csp.cons[k], p.x, a);
  }
}
