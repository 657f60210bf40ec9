/**
 * Generalized arc consistency: `GAC_Enforce` and `prop_GAC` (propagators.py).
 *
 * A queue of constraint indices is processed front first. Revising a
 * constraint walks its scope positions; for each, it takes a snapshot of the
 * variable's current domain and prunes every snapshot value without a
 * support. A prune that empties the domain stops everything with False;
 * otherwise every other constraint on the pruned variable joins the back of
 * the queue. The queue and prune list, module-level globals in the source,
 * are local to one call here.
 */
module GeneralizedArcConsistency {
  import opened Seqs
  import opened Csp

  /** What revising one constraint returns: verdict, prunes, network, and the constraints it enqueued. */
  datatype Revision = Revision(ok: bool, prunes: seq<Prune>, csp: Csp, added: seq<ConId>)

  /** The constraints enqueued after pruning a value of `y` while revising `k`: every other constraint on `y`. */
  function Requeue(cons: seq<Constraint>, k: ConId, y: VarId): (r: seq<ConId>)
    ensures forall q: ConId :: q in r <==> q < |cons| && q != k && y in cons[q].scope
    ensures forall i :: 0 <= i < |r| ==> r[i] < |cons|
  {
    ConsWithFrom(cons, y, Some(k), 0)
  }

  /** The constraints enqueued for a whole list of prunes, in prune order. */
  function RequeueAll(cons: seq<Constraint>, k: ConId, ps: seq<Prune>): (r: seq<ConId>)
    ensures forall i :: 0 <= i < |r| ==> r[i] < |cons|
    ensures ps == [] ==> r == []
    decreases |ps|
  {
    if ps == [] then [] else Requeue(cons, k, ps[0].x) + RequeueAll(cons, k, ps[1..])
  }

  /** The inner loop of `GAC_Enforce`: the snapshot `vals` of variable `x`, against constraint `k`. */
  function ReviseValues(csp: Csp, k: ConId, x: VarId, vals: seq<int>): (r: Revision)
    requires WellFormed(csp) && k < |csp.cons| && x < |csp.vars|
    requires Distinct(vals) && forall w :: w in vals ==> w in csp.vars[x].cur
    ensures PrunedWhilePresent(csp, r.prunes) && r.csp == ApplyPrunes(csp, r.prunes)
    ensures r.ok ==> r.added == RequeueAll(csp.cons, k, r.prunes)
    decreases |vals|
  {
    if vals == [] then
      Revision(true, [], csp, [])
    else if HasSupport(csp, csp.cons[k], x, vals[0]) then
      assert Distinct(vals[1..]);
      ReviseValues(csp, k, x, vals[1..])
    else
      var p := Prune(x, vals[0]);
      var next := PruneValue(csp, p);
      assert next == ApplyPrunes(csp, [p]);
      if next.vars[x].cur == {} then
        Revision(false, [p], next, [])
      else
        PrunedStaysWellFormed(csp, [p]);
        assert vals[0] !in vals[1..] && Distinct(vals[1..]);
        var rest := ReviseValues(next, k, x, vals[1..]);
        PrunesCompose(csp, [p], rest.prunes);
        assert ([p] + rest.prunes)[1..] == rest.prunes;
        Revision(rest.ok, [p] + rest.prunes, rest.csp, Requeue(csp.cons, k, x) + rest.added)
  }

  /** The scope loop of `GAC_Enforce`, from scope position `i` on. */
  function ReviseScope(csp: Csp, k: ConId, i: nat): (r: Revision)
    requires WellFormed(csp) && k < |csp.cons|
    ensures PrunedWhilePresent(csp, r.prunes) && r.csp == ApplyPrunes(csp, r.prunes)
    ensures r.ok ==> r.added == RequeueAll(csp.cons, k, r.prunes)
    decreases |csp.cons[k].scope| - i
  {
    if i >= |csp.cons[k].scope| then
      Revision(true, [], csp, [])
    else
      var x := csp.cons[k].scope[i];
      var a := ReviseValues(csp, k, x, CurDomain(csp.vars[x]));
      if !a.ok then
        a
      else
        PrunedStaysWellFormed(csp, a.prunes);
        var b := ReviseScope(a.csp, k, i + 1);
        PrunesCompose(csp, a.prunes, b.prunes);
        RequeueAllAppend(csp.cons, k, a.prunes, b.prunes);
        Revision(b.ok, a.prunes + b.prunes, b.csp, a.added + b.added)
  }

  lemma {:induction false} RequeueAllAppend(cons: seq<Constraint>, k: ConId, a: seq<Prune>, b: seq<Prune>)
    ensures RequeueAll(cons, k, a + b) == RequeueAll(cons, k, a) + RequeueAll(cons, k, b)
    decreases |a|
  {
    if a != [] {
      RequeueAllAppend(cons, k, a[1..], b);
      assert (a + b)[1..] == a[1..] + b;
      assert (a + b)[0] == a[0];
      var h := Requeue(cons, k, a[0].x);
      assert RequeueAll(cons, k, a + b) == h + RequeueAll(cons, k, a[1..] + b);
      assert RequeueAll(cons, k, a) == h + RequeueAll(cons, k, a[1..]);
    } else {
      assert a + b == b;
    }
  }

  /** `deque.append` of each of `more` onto `queue`; entries stay below `n`. */
  function Append(queue: seq<ConId>, more: seq<ConId>, n: nat): (r: seq<ConId>)
    requires forall i :: 0 <= i < |queue| ==> queue[i] < n
    requires forall i :: 0 <= i < |more| ==> more[i] < n
    ensures forall i :: 0 <= i < |r| ==> r[i] < n
  {
    queue + more
  }

  /** One round of `GAC_Enforce`: revise constraint `k` over its whole scope; success keeps the network well formed and removes one present pair per prune. */
  function Round(csp: Csp, k: ConId): (r: Revision)
    requires WellFormed(csp) && k < |csp.cons|
    ensures PrunedWhilePresent(csp, r.prunes) && r.csp == ApplyPrunes(csp, r.prunes)
    ensures r.ok ==> r.added == RequeueAll(csp.cons, k, r.prunes)
    ensures WellFormed(r.csp) && |Present(r.csp)| == |Present(csp)| - |r.prunes|
  {
    var r := ReviseScope(csp, k, 0);
    PrunedStaysWellFormed(csp, r.prunes);
    PrunesShrinkPresent(csp, r.prunes);
    r
  }

  /**
   * `GAC_Enforce`: revise the queue's constraints front first until the
   * queue is empty (True) or a domain is wiped out (False). It terminates:
   * each round either prunes, shrinking the set of present
   * (variable, value) pairs, or enqueues nothing and shortens the queue.
   */
  function GACEnforce(csp: Csp, queue: seq<ConId>): (r: Outcome)
    requires WellFormed(csp) && forall i :: 0 <= i < |queue| ==> queue[i] < |csp.cons|
    ensures PrunedWhilePresent(csp, r.prunes) && r.csp == ApplyPrunes(csp, r.prunes)
    decreases |Present(csp)|, |queue|
  {
    if queue == [] then
      Outcome(true, [], csp)
    else
      var rv := Round(csp, queue[0]);
      if !rv.ok then
        Outcome(false, rv.prunes, rv.csp)
      else
        var next := Append(queue[1..], rv.added, |csp.cons|);
        var rest := GACEnforce(rv.csp, next);
        PrunesCompose(csp, rv.prunes, rest.prunes);
        Outcome(rest.ok, rv.prunes + rest.prunes, rest.csp)
  }

  /** `prop_GAC`: the queue starts with all constraints, or with those on the new variable. */
  function PropGAC(csp: Csp, newVar: Option<VarId>): (r: Outcome)
    requires WellFormed(csp)
    ensures PrunedWhilePresent(csp, r.prunes) && r.csp == ApplyPrunes(csp, r.prunes)
    ensures WellFormed(r.csp) && SameAssignments(csp, r.csp)
  {
    var r := GACEnforce(csp, ScanList(csp, newVar));
    PrunedStaysWellFormed(csp, r.prunes);
    r
  }

  /* ---------------- supports ---------------- */

  /** `c` accepts the same tuples as valid (all entries current) in `a` and in `b`. */
  predicate SameValidTuples(a: Csp, b: Csp, c: Constraint)
    requires InRange(c.scope, |a.vars|) && InRange(c.scope, |b.vars|)
  {
    forall t :: t in c.tuples ==> (TupleValid(a, c, t) <==> TupleValid(b, c, t))
  }

  /** Every current value of the variable at scope position `j` of constraint `k` has a support. */
  predicate PositionSupported(csp: Csp, k: ConId, j: nat)
    requires k < |csp.cons| && InRange(csp.cons[k].scope, |csp.vars|) && j < |csp.cons[k].scope|
  {
    forall w :: w in csp.vars[csp.cons[k].scope[j]].cur ==> HasSupport(csp, csp.cons[k], csp.cons[k].scope[j], w)
  }

  /** Constraint `k` is generalized arc consistent: every scope position is supported. */
  predicate ArcConsistent(csp: Csp, k: ConId)
    requires k < |csp.cons| && InRange(csp.cons[k].scope, |csp.vars|)
  {
    forall j :: 0 <= j < |csp.cons[k].scope| ==> PositionSupported(csp, k, j)
  }

  /** The reason GAC prunes: in some constraint on `p.x`, value `p.v` has no support. */
  predicate Unsupported(csp: Csp, p: Prune) {
    exists k :: 0 <= k < |csp.cons| && InRange(csp.cons[k].scope, |csp.vars|) && p.x in csp.cons[k].scope
      && !HasSupport(csp, csp.cons[k], p.x, p.v)
  }

  /** Each prune removed a value that was unsupported at that moment. */
  predicate PrunedUnsupported(csp: Csp, ps: seq<Prune>)
    decreases |ps|
  {
    ps == [] || (Unsupported(csp, ps[0]) && PrunedUnsupported(PruneValue(csp, ps[0]), ps[1..]))
  }

  /** Each prune removed a value of a scope variable of constraint `k` that had no support in `k` at that moment. */
  predicate PrunedUnsupportedIn(csp: Csp, k: ConId, ps: seq<Prune>)
    decreases |ps|
  {
    ps == [] ||
      (&& k < |csp.cons| && InRange(csp.cons[k].scope, |csp.vars|) && ps[0].x in csp.cons[k].scope
       && !HasSupport(csp, csp.cons[k], ps[0].x, ps[0].v)
       && PrunedUnsupportedIn(PruneValue(csp, ps[0]), k, ps[1..]))
  }

  /** No support in constraint `k` is in particular no support in some constraint on the variable. */
  lemma {:induction false} UnsupportedInMeansUnsupported(csp: Csp, k: ConId, ps: seq<Prune>)
    requires PrunedUnsupportedIn(csp, k, ps)
    ensures PrunedUnsupported(csp, ps)
    decreases |ps|
  {
    if ps != [] {
      assert Unsupported(csp, ps[0]);
      UnsupportedInMeansUnsupported(PruneValue(csp, ps[0]), k, ps[1..]);
    }
  }

  lemma {:induction false} PrunedUnsupportedInCompose(csp: Csp, k: ConId, a: seq<Prune>, b: seq<Prune>)
    requires PrunedUnsupportedIn(csp, k, a) && PrunedUnsupportedIn(ApplyPrunes(csp, a), k, b)
    ensures PrunedUnsupportedIn(csp, k, a + b)
    decreases |a|
  {
    if a != [] {
      PrunedUnsupportedInCompose(PruneValue(csp, a[0]), k, a[1..], b);
      assert (a + b)[1..] == a[1..] + b;
      assert (a + b)[0] == a[0];
    } else {
      assert a + b == b;
    }
  }

  lemma {:induction false} PrunedUnsupportedCompose(csp: Csp, a: seq<Prune>, b: seq<Prune>)
    requires PrunedUnsupported(csp, a) && PrunedUnsupported(ApplyPrunes(csp, a), b)
    ensures PrunedUnsupported(csp, a + b)
    decreases |a|
  {
    if a != [] {
      PrunedUnsupportedCompose(PruneValue(csp, a[0]), a[1..], b);
      assert (a + b)[1..] == a[1..] + b;
      assert (a + b)[0] == a[0];
    } else {
      assert a + b == b;
    }
  }

  /** `PrunedUnsupportedCompose` for a trace already known to be the concatenation. */
  lemma ComposeUnsupported(csp: Csp, a: seq<Prune>, b: seq<Prune>, ab: seq<Prune>)
    requires ab == a + b && PrunedUnsupported(csp, a) && PrunedUnsupported(ApplyPrunes(csp, a), b)
    ensures PrunedUnsupported(csp, ab)
  {
    PrunedUnsupportedCompose(csp, a, b);
  }

  /** Taking out a value without a support leaves the valid tuples unchanged. */
  lemma PruneUnsupportedKeepsTuples(csp: Csp, c: Constraint, p: Prune)
    requires InRange(c.scope, |csp.vars|) && !HasSupport(csp, c, p.x, p.v)
    ensures InRange(c.scope, |PruneValue(csp, p).vars|)
    ensures SameValidTuples(csp, PruneValue(csp, p), c)
  {
    var next := PruneValue(csp, p);
    forall t | t in c.tuples && TupleValid(csp, c, t) ensures TupleValid(next, c, t) {
      forall j | 0 <= j < |c.scope| ensures t[j] in next.vars[c.scope[j]].cur {
        assert !(c.scope[j] == p.x && t[j] == p.v);
      }
    }
  }

  /** Same valid tuples, same supports. */
  lemma SameTuplesSameSupport(a: Csp, b: Csp, c: Constraint, y: VarId, w: int)
    requires InRange(c.scope, |a.vars|) && InRange(c.scope, |b.vars|) && SameValidTuples(a, b, c)
    ensures HasSupport(a, c, y, w) <==> HasSupport(b, c, y, w)
  {
    if HasSupport(a, c, y, w) {
      var t :| t in c.tuples && TupleValid(a, c, t) && exists i :: 0 <= i < |c.scope| && c.scope[i] == y && t[i] == w;
      assert TupleValid(b, c, t);
    }
    if HasSupport(b, c, y, w) {
      var t :| t in c.tuples && TupleValid(b, c, t) && exists i :: 0 <= i < |c.scope| && c.scope[i] == y && t[i] == w;
      assert TupleValid(a, c, t);
    }
  }

  lemma SameValidTuplesChain(a: Csp, b: Csp, d: Csp, c: Constraint)
    requires InRange(c.scope, |a.vars|) && InRange(c.scope, |b.vars|) && InRange(c.scope, |d.vars|)
    requires SameValidTuples(a, b, c) && SameValidTuples(b, d, c)
    ensures SameValidTuples(a, d, c)
  {
  }

  /* ---------------- revising one scope variable ---------------- */

  /** The inner loop prunes only values of `x` without a support in constraint `k`, the one being revised. */
  lemma {:induction false} ReviseValuesUnsupported(csp: Csp, k: ConId, x: VarId, vals: seq<int>)
    requires WellFormed(csp) && k < |csp.cons| && x < |csp.vars| && x in csp.cons[k].scope
    requires Distinct(vals) && forall w :: w in vals ==> w in csp.vars[x].cur
    ensures PrunedUnsupportedIn(csp, k, ReviseValues(csp, k, x, vals).prunes)
    ensures PrunedUnsupported(csp, ReviseValues(csp, k, x, vals).prunes)
    decreases |vals|
  {
    var c := csp.cons[k];
    if vals != [] {
      if HasSupport(csp, c, x, vals[0]) {
        assert Distinct(vals[1..]);
        ReviseValuesUnsupported(csp, k, x, vals[1..]);
      } else {
        var p := Prune(x, vals[0]);
        var next := PruneValue(csp, p);
        if next.vars[x].cur != {} {
          assert next == ApplyPrunes(csp, [p]);
          PrunedStaysWellFormed(csp, [p]);
          assert vals[0] !in vals[1..] && Distinct(vals[1..]);
          ReviseValuesUnsupported(next, k, x, vals[1..]);
          var rest := ReviseValues(next, k, x, vals[1..]);
          assert ([p] + rest.prunes)[1..] == rest.prunes;
          assert ReviseValues(csp, k, x, vals).prunes == [p] + rest.prunes;
        }
      }
    }
    UnsupportedInMeansUnsupported(csp, k, ReviseValues(csp, k, x, vals).prunes);
  }

  /** The inner loop prunes values of `x` only. */
  lemma {:induction false} ReviseValuesVars(csp: Csp, k: ConId, x: VarId, vals: seq<int>)
    requires WellFormed(csp) && k < |csp.cons| && x < |csp.vars|
    requires Distinct(vals) && forall w :: w in vals ==> w in csp.vars[x].cur
    ensures forall p :: p in ReviseValues(csp, k, x, vals).prunes ==> p.x == x
    decreases |vals|
  {
    if vals != [] {
      if HasSupport(csp, csp.cons[k], x, vals[0]) {
        assert Distinct(vals[1..]);
        ReviseValuesVars(csp, k, x, vals[1..]);
      } else {
        var p := Prune(x, vals[0]);
        var next := PruneValue(csp, p);
        if next.vars[x].cur != {} {
          assert next == ApplyPrunes(csp, [p]);
          PrunedStaysWellFormed(csp, [p]);
          assert vals[0] !in vals[1..] && Distinct(vals[1..]);
          ReviseValuesVars(next, k, x, vals[1..]);
        }
      }
    }
  }

  /** Only unsupported values go, so the inner loop keeps the constraint's valid tuples. */
  lemma {:induction false} ReviseValuesTuples(csp: Csp, k: ConId, x: VarId, vals: seq<int>)
    requires WellFormed(csp) && k < |csp.cons| && x < |csp.vars|
    requires Distinct(vals) && forall w :: w in vals ==> w in csp.vars[x].cur
    ensures InRange(csp.cons[k].scope, |ReviseValues(csp, k, x, vals).csp.vars|)
    ensures SameValidTuples(csp, ReviseValues(csp, k, x, vals).csp, csp.cons[k])
    decreases |vals|
  {
    var c := csp.cons[k];
    if vals != [] {
      if HasSupport(csp, c, x, vals[0]) {
        assert Distinct(vals[1..]);
        ReviseValuesTuples(csp, k, x, vals[1..]);
      } else {
        var p := Prune(x, vals[0]);
        var next := PruneValue(csp, p);
        PruneUnsupportedKeepsTuples(csp, c, p);
        if next.vars[x].cur != {} {
          assert next == ApplyPrunes(csp, [p]);
          PrunedStaysWellFormed(csp, [p]);
          assert vals[0] !in vals[1..] && Distinct(vals[1..]);
          ReviseValuesTuples(next, k, x, vals[1..]);
          var rest := ReviseValues(next, k, x, vals[1..]);
          SameValidTuplesChain(csp, next, rest.csp, c);
          assert ReviseValues(csp, k, x, vals).csp == rest.csp;
        }
      }
    }
  }

  /**
   * When it completes, the inner loop has removed exactly the values of the
   * snapshot that had no support in constraint `k`.
   */
  lemma {:induction false} ReviseValuesExact(csp: Csp, k: ConId, x: VarId, vals: seq<int>)
    requires WellFormed(csp) && k < |csp.cons| && x < |csp.vars| && x in csp.cons[k].scope
    requires Distinct(vals) && forall w :: w in vals ==> w in csp.vars[x].cur
    ensures ReviseValues(csp, k, x, vals).ok ==> forall w :: w in ReviseValues(csp, k, x, vals).csp.vars[x].cur <==>
      w in csp.vars[x].cur && !(w in vals && !HasSupport(csp, csp.cons[k], x, w))
    decreases |vals|
  {
    var c := csp.cons[k];
    if vals != [] {
      var r := ReviseValues(csp, k, x, vals);
      assert forall w :: w in vals <==> w == vals[0] || w in vals[1..];
      if HasSupport(csp, c, x, vals[0]) {
        assert Distinct(vals[1..]);
        ReviseValuesExact(csp, k, x, vals[1..]);
      } else {
        var p := Prune(x, vals[0]);
        var next := PruneValue(csp, p);
        if next.vars[x].cur != {} {
          PruneUnsupportedKeepsTuples(csp, c, p);
          assert next == ApplyPrunes(csp, [p]);
          PrunedStaysWellFormed(csp, [p]);
          assert vals[0] !in vals[1..] && Distinct(vals[1..]);
          ReviseValuesExact(next, k, x, vals[1..]);
          forall w {
            SameTuplesSameSupport(csp, next, c, x, w);
          }
        }
      }
    }
  }

  /** The inner loop answers False exactly when it wipes out a domain (that of `x`). */
  lemma {:induction false} ReviseValuesWipes(csp: Csp, k: ConId, x: VarId, vals: seq<int>)
    requires WellFormed(csp) && k < |csp.cons| && x < |csp.vars|
    requires Distinct(vals) && forall w :: w in vals ==> w in csp.vars[x].cur
    ensures ReviseValues(csp, k, x, vals).ok <==> NoWipe(csp, ReviseValues(csp, k, x, vals).csp)
    decreases |vals|
  {
    var c := csp.cons[k];
    if vals != [] {
      if HasSupport(csp, c, x, vals[0]) {
        assert Distinct(vals[1..]);
        ReviseValuesWipes(csp, k, x, vals[1..]);
        assert ReviseValues(csp, k, x, vals) == ReviseValues(csp, k, x, vals[1..]);
      } else {
        var p := Prune(x, vals[0]);
        var next := PruneValue(csp, p);
        assert next == ApplyPrunes(csp, [p]);
        if next.vars[x].cur == {} {
          assert ReviseValues(csp, k, x, vals).csp == next;
          assert Wiped(csp, next, x);
        } else {
          PrunedStaysWellFormed(csp, [p]);
          assert vals[0] !in vals[1..] && Distinct(vals[1..]);
          ReviseValuesWipes(next, k, x, vals[1..]);
          var rest := ReviseValues(next, k, x, vals[1..]);
          assert ReviseValues(csp, k, x, vals).ok == rest.ok && ReviseValues(csp, k, x, vals).csp == rest.csp;
          WipeAfterFirstPrune(csp, p, rest.prunes);
        }
      }
    }
  }

  /** The inner loop answers False at the prune that empties the domain, and prunes nothing after it. */
  lemma {:induction false} ReviseValuesStops(csp: Csp, k: ConId, x: VarId, vals: seq<int>)
    requires WellFormed(csp) && k < |csp.cons| && x < |csp.vars|
    requires Distinct(vals) && forall w :: w in vals ==> w in csp.vars[x].cur
    ensures !ReviseValues(csp, k, x, vals).ok ==> StopsAtWipe(csp, ReviseValues(csp, k, x, vals).prunes)
    decreases |vals|
  {
    if vals != [] {
      if HasSupport(csp, csp.cons[k], x, vals[0]) {
        assert Distinct(vals[1..]);
        ReviseValuesStops(csp, k, x, vals[1..]);
      } else {
        var p := Prune(x, vals[0]);
        var next := PruneValue(csp, p);
        assert next == ApplyPrunes(csp, [p]);
        if next.vars[x].cur == {} {
          StopsAtSinglePrune(csp, p);
        } else {
          PrunedStaysWellFormed(csp, [p]);
          assert vals[0] !in vals[1..] && Distinct(vals[1..]);
          ReviseValuesStops(next, k, x, vals[1..]);
          OneVariableNoWipe(csp, [p], x);
          var rest := ReviseValues(next, k, x, vals[1..]);
          if !rest.ok {
            StopsAtWipeAfter(csp, [p], rest.prunes);
          }
        }
      }
    }
  }

  /* ---------------- revising one constraint ---------------- */

  /** Revising constraint `k` prunes only values that had no support in `k` when pruned. */
  lemma ReviseScopeUnsupported(csp: Csp, k: ConId, i: nat)
    requires WellFormed(csp) && k < |csp.cons|
    ensures PrunedUnsupportedIn(csp, k, ReviseScope(csp, k, i).prunes)
    ensures PrunedUnsupported(csp, ReviseScope(csp, k, i).prunes)
  {
    ReviseScopeUnsupportedIn(csp, k, i);
    UnsupportedInMeansUnsupported(csp, k, ReviseScope(csp, k, i).prunes);
  }

  lemma {:induction false} ReviseScopeUnsupportedIn(csp: Csp, k: ConId, i: nat)
    requires WellFormed(csp) && k < |csp.cons|
    ensures PrunedUnsupportedIn(csp, k, ReviseScope(csp, k, i).prunes)
    decreases |csp.cons[k].scope| - i
  {
    var c := csp.cons[k];
    if i < |c.scope| {
      var x := c.scope[i];
      var vals := CurDomain(csp.vars[x]);
      assert ValidVariable(csp.vars[x]);
      ReviseValuesUnsupported(csp, k, x, vals);
      var a := ReviseValues(csp, k, x, vals);
      if a.ok {
        PrunedStaysWellFormed(csp, a.prunes);
        ReviseScopeUnsupportedIn(a.csp, k, i + 1);
        var b := ReviseScope(a.csp, k, i + 1);
        PrunedUnsupportedInCompose(csp, k, a.prunes, b.prunes);
        assert ReviseScope(csp, k, i).prunes == a.prunes + b.prunes;
      }
    }
  }

  /** One round of `GAC_Enforce` prunes only values that the popped constraint itself left without a support. */
  lemma RoundUnsupported(csp: Csp, k: ConId)
    requires WellFormed(csp) && k < |csp.cons|
    ensures PrunedUnsupportedIn(csp, k, Round(csp, k).prunes)
  {
    ReviseScopeUnsupported(csp, k, 0);
  }

  /** Revising constraint `k` prunes only values of its scope variables. */
  lemma {:induction false} ReviseScopeVars(csp: Csp, k: ConId, i: nat)
    requires WellFormed(csp) && k < |csp.cons|
    ensures forall p :: p in ReviseScope(csp, k, i).prunes ==> p.x in csp.cons[k].scope
    decreases |csp.cons[k].scope| - i
  {
    var c := csp.cons[k];
    if i < |c.scope| {
      var x := c.scope[i];
      var vals := CurDomain(csp.vars[x]);
      assert ValidVariable(csp.vars[x]);
      ReviseValuesVars(csp, k, x, vals);
      var a := ReviseValues(csp, k, x, vals);
      if a.ok {
        PrunedStaysWellFormed(csp, a.prunes);
        ReviseScopeVars(a.csp, k, i + 1);
        var b := ReviseScope(a.csp, k, i + 1);
        assert ReviseScope(csp, k, i).prunes == a.prunes + b.prunes;
        forall p | p in a.prunes + b.prunes ensures p.x in c.scope {
          assert p in a.prunes || p in b.prunes;
        }
      }
    }
  }

  /** Revising constraint `k` keeps its valid tuples. */
  lemma {:induction false} ReviseScopeTuples(csp: Csp, k: ConId, i: nat)
    requires WellFormed(csp) && k < |csp.cons|
    ensures InRange(csp.cons[k].scope, |ReviseScope(csp, k, i).csp.vars|)
    ensures SameValidTuples(csp, ReviseScope(csp, k, i).csp, csp.cons[k])
    decreases |csp.cons[k].scope| - i
  {
    var c := csp.cons[k];
    if i < |c.scope| {
      var x := c.scope[i];
      var vals := CurDomain(csp.vars[x]);
      assert ValidVariable(csp.vars[x]);
      ReviseValuesTuples(csp, k, x, vals);
      var a := ReviseValues(csp, k, x, vals);
      if a.ok {
        PrunedStaysWellFormed(csp, a.prunes);
        ReviseScopeTuples(a.csp, k, i + 1);
        var b := ReviseScope(a.csp, k, i + 1);
        SameValidTuplesChain(csp, a.csp, b.csp, c);
        assert ReviseScope(csp, k, i).csp == b.csp;
      }
    }
  }

  /** Pruning that keeps a constraint's valid tuples keeps every supported scope position supported. */
  lemma PositionStaysSupported(csp: Csp, ps: seq<Prune>, k: ConId, j: nat)
    requires WellFormed(csp) && k < |csp.cons| && j < |csp.cons[k].scope|
    requires PositionSupported(csp, k, j)
    requires SameValidTuples(csp, ApplyPrunes(csp, ps), csp.cons[k])
    ensures PositionSupported(ApplyPrunes(csp, ps), k, j)
  {
    var s := ApplyPrunes(csp, ps);
    var y := csp.cons[k].scope[j];
    forall w | w in s.vars[y].cur ensures HasSupport(s, s.cons[k], y, w) {
      SameTuplesSameSupport(csp, s, csp.cons[k], y, w);
    }
  }

  /** After the inner loop at scope position `i` completes, that position is supported. */
  lemma RevisedPositionSupported(csp: Csp, k: ConId, i: nat)
    requires WellFormed(csp) && k < |csp.cons| && i < |csp.cons[k].scope|
    ensures ValidVariable(csp.vars[csp.cons[k].scope[i]])
    ensures var a := ReviseValues(csp, k, csp.cons[k].scope[i], CurDomain(csp.vars[csp.cons[k].scope[i]]));
      InRange(csp.cons[k].scope, |a.csp.vars|) && (a.ok ==> PositionSupported(a.csp, k, i))
  {
    var c := csp.cons[k];
    var x := c.scope[i];
    var vals := CurDomain(csp.vars[x]);
    assert ValidVariable(csp.vars[x]);
    var a := ReviseValues(csp, k, x, vals);
    ReviseValuesTuples(csp, k, x, vals);
    ReviseValuesExact(csp, k, x, vals);
    if a.ok {
      forall w | w in a.csp.vars[x].cur ensures HasSupport(a.csp, c, x, w) {
        SameTuplesSameSupport(csp, a.csp, c, x, w);
      }
    }
  }

  /** After a successful revision of `k` from position `i` on, those positions are all supported. */
  lemma {:induction false} ReviseScopeSupports(csp: Csp, k: ConId, i: nat)
    requires WellFormed(csp) && k < |csp.cons|
    ensures InRange(csp.cons[k].scope, |ReviseScope(csp, k, i).csp.vars|)
    ensures ReviseScope(csp, k, i).ok ==>
      forall j :: i <= j < |csp.cons[k].scope| ==> PositionSupported(ReviseScope(csp, k, i).csp, k, j)
    decreases |csp.cons[k].scope| - i
  {
    var c := csp.cons[k];
    if i < |c.scope| {
      var x := c.scope[i];
      var vals := CurDomain(csp.vars[x]);
      assert ValidVariable(csp.vars[x]);
      var a := ReviseValues(csp, k, x, vals);
      if a.ok {
        RevisedPositionSupported(csp, k, i);
        PrunedStaysWellFormed(csp, a.prunes);
        ReviseScopeTuples(a.csp, k, i + 1);
        ReviseScopeSupports(a.csp, k, i + 1);
        var b := ReviseScope(a.csp, k, i + 1);
        PositionStaysSupported(a.csp, b.prunes, k, i);
        assert ReviseScope(csp, k, i).ok == b.ok && ReviseScope(csp, k, i).csp == b.csp;
        if b.ok {
          forall j | i <= j < |c.scope| ensures PositionSupported(b.csp, k, j) {
            if j == i {
              assert PositionSupported(b.csp, k, i);
            }
          }
        }
      }
    }
  }

  /** A revision answers False exactly when it wipes out a domain. */
  lemma {:induction false} ReviseScopeWipes(csp: Csp, k: ConId, i: nat)
    requires WellFormed(csp) && k < |csp.cons|
    ensures ReviseScope(csp, k, i).ok <==> NoWipe(csp, ReviseScope(csp, k, i).csp)
    decreases |csp.cons[k].scope| - i
  {
    var c := csp.cons[k];
    if i < |c.scope| {
      var x := c.scope[i];
      var vals := CurDomain(csp.vars[x]);
      assert ValidVariable(csp.vars[x]);
      ReviseValuesWipes(csp, k, x, vals);
      var a := ReviseValues(csp, k, x, vals);
      if a.ok {
        PrunedStaysWellFormed(csp, a.prunes);
        ReviseScopeWipes(a.csp, k, i + 1);
        var b := ReviseScope(a.csp, k, i + 1);
        WipeChain(csp, a.prunes, b.prunes);
        assert ReviseScope(csp, k, i).ok == b.ok && ReviseScope(csp, k, i).csp == b.csp;
      }
    }
  }

  /** A revision answers False at the prune that wipes out a domain, and prunes nothing after it. */
  lemma {:induction false} ReviseScopeStops(csp: Csp, k: ConId, i: nat)
    requires WellFormed(csp) && k < |csp.cons|
    ensures !ReviseScope(csp, k, i).ok ==> StopsAtWipe(csp, ReviseScope(csp, k, i).prunes)
    decreases |csp.cons[k].scope| - i
  {
    var c := csp.cons[k];
    if i < |c.scope| {
      var x := c.scope[i];
      var vals := CurDomain(csp.vars[x]);
      assert ValidVariable(csp.vars[x]);
      ReviseValuesStops(csp, k, x, vals);
      var a := ReviseValues(csp, k, x, vals);
      if a.ok {
        ReviseValuesWipes(csp, k, x, vals);
        PrunedStaysWellFormed(csp, a.prunes);
        ReviseScopeStops(a.csp, k, i + 1);
        var b := ReviseScope(a.csp, k, i + 1);
        if !b.ok {
          StopsAtWipeAfter(csp, a.prunes, b.prunes);
        }
      }
    }
  }

  /* ---------------- the queue ---------------- */

  /** A prune of a variable of constraint `q` (other than the one revised) puts `q` on the queue. */
  lemma {:induction false} RequeueAllCovers(cons: seq<Constraint>, k: ConId, ps: seq<Prune>, p: Prune, q: ConId)
    requires p in ps && q < |cons| && q != k && p.x in cons[q].scope
    ensures q in RequeueAll(cons, k, ps)
    decreases |ps|
  {
    if ps[0] != p {
      RequeueAllCovers(cons, k, ps[1..], p, q);
    }
  }

  /** A constraint none of whose variables lost a value stays arc consistent. */
  lemma UntouchedStaysConsistent(csp: Csp, ps: seq<Prune>, q: ConId)
    requires WellFormed(csp) && q < |csp.cons| && ArcConsistent(csp, q)
    requires forall p :: p in ps ==> p.x !in csp.cons[q].scope
    ensures ArcConsistent(ApplyPrunes(csp, ps), q)
  {
    var c := csp.cons[q];
    var s := ApplyPrunes(csp, ps);
    forall j | 0 <= j < |c.scope| ensures s.vars[c.scope[j]].cur == csp.vars[c.scope[j]].cur {
      UntouchedUnchanged(csp, ps, c.scope[j]);
    }
    assert SameValidTuples(csp, s, c);
    forall j | 0 <= j < |c.scope| ensures PositionSupported(s, q, j) {
      PositionStaysSupported(csp, ps, q, j);
    }
  }

  /**
   * One round of `GAC_Enforce` keeps the invariant "on the queue, or arc
   * consistent" for every constraint: the revised constraint becomes arc
   * consistent, and every constraint that might have lost a support is
   * enqueued.
   */
  lemma RoundKeepsInvariant(csp: Csp, queue: seq<ConId>, q: ConId)
    requires WellFormed(csp) && |queue| > 0 && forall i :: 0 <= i < |queue| ==> queue[i] < |csp.cons|
    requires q < |csp.cons| && (q in queue || ArcConsistent(csp, q))
    requires Round(csp, queue[0]).ok
    ensures InRange(csp.cons[q].scope, |Round(csp, queue[0]).csp.vars|)
    ensures q in queue[1..] + Round(csp, queue[0]).added || ArcConsistent(Round(csp, queue[0]).csp, q)
  {
    var k := queue[0];
    var rv := Round(csp, k);
    if q == k {
      ReviseScopeSupports(csp, k, 0);
    } else if q in queue {
      assert q in queue[1..];
    } else if p :| p in rv.prunes && p.x in csp.cons[q].scope {
      RequeueAllCovers(csp.cons, k, rv.prunes, p, q);
    } else {
      UntouchedStaysConsistent(csp, rv.prunes, q);
    }
  }

  /* ---------------- GAC_Enforce ---------------- */

  /** One successful round of `GAC_Enforce`, unfolded: revise the head, then continue on the new queue. */
  lemma GACEnforceStep(csp: Csp, queue: seq<ConId>)
    requires WellFormed(csp) && forall i :: 0 <= i < |queue| ==> queue[i] < |csp.cons|
    requires queue != [] && Round(csp, queue[0]).ok
    ensures var rv := Round(csp, queue[0]);
      var next := Append(queue[1..], rv.added, |csp.cons|);
      WellFormed(rv.csp) && |rv.csp.cons| == |csp.cons|
      && (forall i :: 0 <= i < |next| ==> next[i] < |rv.csp.cons|)
      && (|Present(rv.csp)| < |Present(csp)| || (|Present(rv.csp)| == |Present(csp)| && |next| < |queue|))
      && var rest := GACEnforce(rv.csp, next);
         GACEnforce(csp, queue) == Outcome(rest.ok, rv.prunes + rest.prunes, rest.csp)
  {
  }

  /** Every prune of `GAC_Enforce` removed a value that had no support at that moment. */
  lemma {:induction false} GACEnforceUnsupported(csp: Csp, queue: seq<ConId>)
    requires WellFormed(csp) && forall i :: 0 <= i < |queue| ==> queue[i] < |csp.cons|
    ensures PrunedUnsupported(csp, GACEnforce(csp, queue).prunes)
    decreases |Present(csp)|, |queue|, 1
  {
    if queue != [] {
      if Round(csp, queue[0]).ok {
        GACRoundUnsupported(csp, queue);
      } else {
        ReviseScopeUnsupported(csp, queue[0], 0);
      }
    }
  }

  /** The successful-round case of `GACEnforceUnsupported`. */
  lemma {:induction false} GACRoundUnsupported(csp: Csp, queue: seq<ConId>)
    requires WellFormed(csp) && forall i :: 0 <= i < |queue| ==> queue[i] < |csp.cons|
    requires queue != [] && Round(csp, queue[0]).ok
    ensures PrunedUnsupported(csp, GACEnforce(csp, queue).prunes)
    decreases |Present(csp)|, |queue|, 0
  {
    var rv := Round(csp, queue[0]);
    var next := Append(queue[1..], rv.added, |csp.cons|);
    ReviseScopeUnsupported(csp, queue[0], 0);
    GACEnforceStep(csp, queue);
    GACEnforceUnsupported(rv.csp, next);
    ComposeUnsupported(csp, rv.prunes, GACEnforce(rv.csp, next).prunes, GACEnforce(csp, queue).prunes);
  }

  /** `GAC_Enforce` answers False at the prune that wipes out a domain, and prunes nothing after it. */
  lemma {:induction false} GACEnforceStops(csp: Csp, queue: seq<ConId>)
    requires WellFormed(csp) && forall i :: 0 <= i < |queue| ==> queue[i] < |csp.cons|
    ensures !GACEnforce(csp, queue).ok ==> StopsAtWipe(csp, GACEnforce(csp, queue).prunes)
    decreases |Present(csp)|, |queue|, 1
  {
    if queue != [] {
      if Round(csp, queue[0]).ok {
        GACRoundStops(csp, queue);
      } else {
        ReviseScopeStops(csp, queue[0], 0);
      }
    }
  }

  /** The successful-round case of `GACEnforceStops`. */
  lemma {:induction false} GACRoundStops(csp: Csp, queue: seq<ConId>)
    requires WellFormed(csp) && forall i :: 0 <= i < |queue| ==> queue[i] < |csp.cons|
    requires queue != [] && Round(csp, queue[0]).ok
    ensures !GACEnforce(csp, queue).ok ==> StopsAtWipe(csp, GACEnforce(csp, queue).prunes)
    decreases |Present(csp)|, |queue|, 0
  {
    var rv := Round(csp, queue[0]);
    var next := Append(queue[1..], rv.added, |csp.cons|);
    ReviseScopeWipes(csp, queue[0], 0);
    GACEnforceStep(csp, queue);
    GACEnforceStops(rv.csp, next);
    if !GACEnforce(rv.csp, next).ok {
      StopsAtWipeAfter(csp, rv.prunes, GACEnforce(rv.csp, next).prunes);
    }
  }

  /** `GAC_Enforce` answers False exactly when it wipes out a domain. */
  lemma {:induction false} GACEnforceWipes(csp: Csp, queue: seq<ConId>)
    requires WellFormed(csp) && forall i :: 0 <= i < |queue| ==> queue[i] < |csp.cons|
    ensures GACEnforce(csp, queue).ok <==> NoWipe(csp, GACEnforce(csp, queue).csp)
    decreases |Present(csp)|, |queue|, 1
  {
    if queue != [] {
      if Round(csp, queue[0]).ok {
        GACRoundWipes(csp, queue);
      } else {
        ReviseScopeWipes(csp, queue[0], 0);
      }
    }
  }

  /** The successful-round case of `GACEnforceWipes`. */
  lemma {:induction false} GACRoundWipes(csp: Csp, queue: seq<ConId>)
    requires WellFormed(csp) && forall i :: 0 <= i < |queue| ==> queue[i] < |csp.cons|
    requires queue != [] && Round(csp, queue[0]).ok
    ensures GACEnforce(csp, queue).ok <==> NoWipe(csp, GACEnforce(csp, queue).csp)
    decreases |Present(csp)|, |queue|, 0
  {
    var rv := Round(csp, queue[0]);
    var next := Append(queue[1..], rv.added, |csp.cons|);
    ReviseScopeWipes(csp, queue[0], 0);
    GACEnforceStep(csp, queue);
    GACEnforceWipes(rv.csp, next);
    WipeChain(csp, rv.prunes, GACEnforce(rv.csp, next).prunes);
  }

  /**
   * On success, every constraint that was on the queue or already arc
   * consistent is arc consistent afterwards.
   */
  lemma {:induction false} GACEnforceConsistent(csp: Csp, queue: seq<ConId>)
    requires WellFormed(csp) && forall i :: 0 <= i < |queue| ==> queue[i] < |csp.cons|
    ensures GACEnforce(csp, queue).ok ==> forall q: ConId :: q < |csp.cons| && (q in queue || ArcConsistent(csp, q)) ==>
      InRange(csp.cons[q].scope, |GACEnforce(csp, queue).csp.vars|) && ArcConsistent(GACEnforce(csp, queue).csp, q)
    decreases |Present(csp)|, |queue|
  {
    var r := GACEnforce(csp, queue);
    if queue != [] {
      var rv := Round(csp, queue[0]);
      if rv.ok {
        var next := Append(queue[1..], rv.added, |csp.cons|);
        GACEnforceStep(csp, queue);
        GACEnforceConsistent(rv.csp, next);
        if r.ok {
          forall q: ConId | q < |csp.cons| && (q in queue || ArcConsistent(csp, q))
            ensures InRange(csp.cons[q].scope, |r.csp.vars|) && ArcConsistent(r.csp, q)
          {
            RoundKeepsInvariant(csp, queue, q);
            assert q in next || ArcConsistent(rv.csp, q);
          }
        }
      }
    }
  }

  /** A snapshot of supported values: the inner loop prunes nothing. */
  lemma {:induction false} ReviseValuesNoop(csp: Csp, k: ConId, x: VarId, vals: seq<int>)
    requires WellFormed(csp) && k < |csp.cons| && x < |csp.vars|
    requires Distinct(vals) && forall w :: w in vals ==> w in csp.vars[x].cur && HasSupport(csp, csp.cons[k], x, w)
    ensures ReviseValues(csp, k, x, vals) == Revision(true, [], csp, [])
    decreases |vals|
  {
    if vals != [] {
      assert Distinct(vals[1..]);
      ReviseValuesNoop(csp, k, x, vals[1..]);
    }
  }

  /** An arc-consistent constraint: its revision prunes nothing. */
  lemma {:induction false} ReviseScopeNoop(csp: Csp, k: ConId, i: nat)
    requires WellFormed(csp) && k < |csp.cons| && ArcConsistent(csp, k)
    ensures ReviseScope(csp, k, i) == Revision(true, [], csp, [])
    decreases |csp.cons[k].scope| - i
  {
    var c := csp.cons[k];
    if i < |c.scope| {
      var x := c.scope[i];
      assert ValidVariable(csp.vars[x]);
      assert PositionSupported(csp, k, i);
      ReviseValuesNoop(csp, k, x, CurDomain(csp.vars[x]));
      ReviseScopeNoop(csp, k, i + 1);
    }
  }

  /** With every queued constraint already arc consistent, `GAC_Enforce` prunes nothing and answers True. */
  lemma {:induction false} GACEnforceQueueNoop(csp: Csp, queue: seq<ConId>)
    requires WellFormed(csp) && forall i :: 0 <= i < |queue| ==> queue[i] < |csp.cons|
    requires forall i :: 0 <= i < |queue| ==> ArcConsistent(csp, queue[i])
    ensures GACEnforce(csp, queue) == Outcome(true, [], csp)
    decreases |queue|
  {
    if queue != [] {
      ReviseScopeNoop(csp, queue[0], 0);
      var next := Append(queue[1..], [], |csp.cons|);
      assert next == queue[1..];
      GACEnforceQueueNoop(csp, next);
    }
  }

  /** On an arc-consistent network, `GAC_Enforce` prunes nothing and answers True, whatever the queue. */
  lemma GACEnforceNoop(csp: Csp, queue: seq<ConId>)
    requires WellFormed(csp) && forall i :: 0 <= i < |queue| ==> queue[i] < |csp.cons|
    requires forall q :: 0 <= q < |csp.cons| ==> ArcConsistent(csp, q)
    ensures GACEnforce(csp, queue) == Outcome(true, [], csp)
  {
    GACEnforceQueueNoop(csp, queue);
  }

  /* ---------------- solutions ---------------- */

  /** An unsupported value is used by no solution, so pruning it keeps every solution. */
  lemma {:induction false} UnsupportedPrunesKeepSolutions(csp: Csp, ps: seq<Prune>, a: seq<int>)
    requires PrunedUnsupported(csp, ps) && Solution(csp, a)
    ensures Solution(ApplyPrunes(csp, ps), a)
    decreases |ps|
  {
    if ps != [] {
      var p := ps[0];
      var k :| 0 <= k < |csp.cons| && InRange(csp.cons[k].scope, |csp.vars|) && p.x in csp.cons[k].scope
        && !HasSupport(csp, csp.cons[k], p.x, p.v);
      var i :| 0 <= i < |csp.cons[k].scope| && csp.cons[k].scope[i] == p.x;
      SolutionSupports(csp, a, k, i);
      assert a[p.x] != p.v;
      var next := PruneValue(csp, p);
      assert Within(next, a);
      assert SatisfiesAll(a, next.cons);
      UnsupportedPrunesKeepSolutions(next, ps[1..], a);
    }
  }

  /** `GAC_Enforce` never removes a value of a solution, and never fails while one exists. */
  lemma GACEnforceKeepsSolutions(csp: Csp, queue: seq<ConId>)
    requires WellFormed(csp) && forall i :: 0 <= i < |queue| ==> queue[i] < |csp.cons|
    ensures forall a :: Solution(csp, a) ==> GACEnforce(csp, queue).ok && Solution(GACEnforce(csp, queue).csp, a)
  {
    var r := GACEnforce(csp, queue);
    GACEnforceUnsupported(csp, queue);
    GACEnforceWipes(csp, queue);
    forall a | Solution(csp, a) ensures r.ok && Solution(r.csp, a) {
      UnsupportedPrunesKeepSolutions(csp, r.prunes, a);
      SolutionMeansNoWipe(csp, r.csp, a);
    }
  }

  /* ---------------- prop_GAC ---------------- */

  /** `prop_GAC` prunes each (variable, value) pair at most once, and only values without a support. */
  lemma PropGACPrunesUnsupported(csp: Csp, newVar: Option<VarId>)
    requires WellFormed(csp)
    ensures Distinct(PropGAC(csp, newVar).prunes)
    ensures PrunedUnsupported(csp, PropGAC(csp, newVar).prunes)
  {
    PrunesAreDistinct(csp, PropGAC(csp, newVar).prunes);
    GACEnforceUnsupported(csp, ScanList(csp, newVar));
  }

  /** `prop_GAC` answers False exactly when some current domain was wiped out, and then stops at that wipe-out. */
  lemma PropGACWipes(csp: Csp, newVar: Option<VarId>)
    requires WellFormed(csp)
    ensures PropGAC(csp, newVar).ok <==> NoWipe(csp, PropGAC(csp, newVar).csp)
    ensures !PropGAC(csp, newVar).ok ==> StopsAtWipe(csp, PropGAC(csp, newVar).prunes)
  {
    GACEnforceWipes(csp, ScanList(csp, newVar));
    GACEnforceStops(csp, ScanList(csp, newVar));
  }

  /**
   * On success, every scanned constraint (all of them, or those on the new
   * variable) is arc consistent, and so is every constraint that already was.
   */
  lemma PropGACConsistent(csp: Csp, newVar: Option<VarId>)
    requires WellFormed(csp)
    ensures PropGAC(csp, newVar).ok ==> forall k: ConId :: k < |csp.cons| && (Scanned(csp, newVar, k) || ArcConsistent(csp, k)) ==>
      InRange(csp.cons[k].scope, |PropGAC(csp, newVar).csp.vars|) && ArcConsistent(PropGAC(csp, newVar).csp, k)
  {
    GACEnforceConsistent(csp, ScanList(csp, newVar));
  }

  /** With no new variable, a successful `prop_GAC` leaves the whole network arc consistent. */
  lemma PropGACAllConsistent(csp: Csp)
    requires WellFormed(csp)
    ensures var r := PropGAC(csp, None);
      r.ok ==> forall k: ConId :: k < |r.csp.cons| ==> InRange(r.csp.cons[k].scope, |r.csp.vars|) && ArcConsistent(r.csp, k)
  {
    PropGACConsistent(csp, None);
    forall k: ConId | k < |csp.cons| ensures Scanned(csp, None, k) { }
  }

  /** `prop_GAC` keeps every solution of the network, and cannot fail while one exists. */
  lemma PropGACKeepsSolutions(csp: Csp, newVar: Option<VarId>)
    requires WellFormed(csp)
    ensures forall a :: Solution(csp, a) ==> PropGAC(csp, newVar).ok && Solution(PropGAC(csp, newVar).csp, a)
  {
    GACEnforceKeepsSolutions(csp, ScanList(csp, newVar));
  }

  /**
   * On an arc-consistent network `prop_GAC` changes nothing. It is
   * idempotent: a successful call followed by a call with the same new
   * variable prunes nothing the second time, and after a successful initial
   * call any call prunes nothing.
   */
  lemma PropGACIdempotent(csp: Csp, newVar: Option<VarId>)
    requires WellFormed(csp)
    ensures (forall k :: 0 <= k < |csp.cons| ==> ArcConsistent(csp, k)) ==> PropGAC(csp, newVar) == Outcome(true, [], csp)
    ensures var r := PropGAC(csp, newVar);
      r.ok ==> PropGAC(r.csp, newVar) == Outcome(true, [], r.csp)
    ensures var r := PropGAC(csp, None);
      r.ok ==> PropGAC(r.csp, newVar) == Outcome(true, [], r.csp)
  {
    PropGACRepeat(csp, newVar);
    if forall k :: 0 <= k < |csp.cons| ==> ArcConsistent(csp, k) {
      GACEnforceNoop(csp, ScanList(csp, newVar));
    }
    var r := PropGAC(csp, None);
    if r.ok {
      PropGACAllConsistent(csp);
      GACEnforceNoop(r.csp, ScanList(r.csp, newVar));
    }
  }

  /** After a successful call, the constraints it scanned are arc consistent, so the same call again prunes nothing. */
  lemma PropGACRepeat(csp: Csp, newVar: Option<VarId>)
    requires WellFormed(csp)
    ensures var r := PropGAC(csp, newVar);
      r.ok ==> PropGAC(r.csp, newVar) == Outcome(true, [], r.csp)
  {
    var r := PropGAC(csp, newVar);
    if r.ok {
      PropGACConsistent(csp, newVar);
      var ks := ScanList(r.csp, newVar);
      forall i | 0 <= i < |ks| ensures ArcConsistent(r.csp, ks[i]) {
        assert Scanned(csp, newVar, ks[i]);
      }
      GACEnforceQueueNoop(r.csp, ks);
    }
  }

  /** Replaying the prune list of `prop_GAC` in reverse gives back the network it started from. */
  lemma PropGACRestorable(csp: Csp, newVar: Option<VarId>)
    requires WellFormed(csp)
    ensures Restore(PropGAC(csp, newVar).csp, PropGAC(csp, newVar).prunes) == csp
  {
    RestoreUndoesPrunes(csp, PropGAC(csp, newVar).prunes);
  }
}
