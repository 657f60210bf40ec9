/**
 * The satisfying-tuple lists the Futoshiki builders take from
 * `itertools.permutations(range(1, n + 1), k)`: every ordered arrangement
 * of `k` distinct values out of 1..n, in itertools order.
 */
module Tuples {
  import opened Seqs

  /** `range(lo, lo + len)` as a sequence. */
  function Range(lo: int, len: nat): (r: seq<int>)
    ensures |r| == len && forall i :: 0 <= i < len ==> r[i] == lo + i
  {
    seq(len, i requires 0 <= i < len => lo + i)
  }

  lemma RangeMembership(lo: int, len: nat, w: int)
    ensures w in Range(lo, len) <==> lo <= w < lo + len
  {
    if lo <= w < lo + len {
      assert Range(lo, len)[w - lo] == w;
    }
  }

  lemma RangeDistinct(lo: int, len: nat)
    ensures Distinct(Range(lo, len))
  {
  }

  /** `vals` without its entry at index `i`. */
  function Remove(vals: seq<int>, i: nat): (r: seq<int>)
    requires i < |vals|
    ensures |r| == |vals| - 1
  {
    vals[..i] + vals[i + 1..]
  }

  lemma RemoveMembership(vals: seq<int>, i: nat, w: int)
    requires i < |vals| && Distinct(vals)
    ensures w in Remove(vals, i) <==> w in vals && w != vals[i]
    ensures Distinct(Remove(vals, i))
  {
    var r := Remove(vals, i);
    assert forall j :: 0 <= j < |r| ==> r[j] == (if j < i then vals[j] else vals[j + 1]);
    if w in vals && w != vals[i] {
      var j :| 0 <= j < |vals| && vals[j] == w;
      if j < i {
        assert r[j] == w;
      } else {
        assert r[j - 1] == w;
      }
    }
  }

  /** Prepend `v` to each tuple of `ts`. */
  function Prefix(v: int, ts: seq<seq<int>>): (r: seq<seq<int>>)
    ensures |r| == |ts| && forall j :: 0 <= j < |ts| ==> r[j] == [v] + ts[j]
  {
    seq(|ts|, j requires 0 <= j < |ts| => [v] + ts[j])
  }

  lemma PrefixMembership(v: int, ts: seq<seq<int>>, t: seq<int>)
    ensures t in Prefix(v, ts) <==> |t| > 0 && t[0] == v && t[1..] in ts
  {
    if |t| > 0 && t[0] == v && t[1..] in ts {
      var j :| 0 <= j < |ts| && ts[j] == t[1..];
      assert Prefix(v, ts)[j] == t;
    }
  }

  /** `itertools.permutations(vals, k)`: first entry in `vals` order, then the arrangements of the rest. */
  function Arrangements(vals: seq<int>, k: nat): seq<seq<int>>
    decreases k, |vals| + 1
  {
    if k == 0 then [[]] else ArrangementsFrom(vals, 0, k)
  }

  /** The arrangements whose first entry is `vals[i]` or a later entry of `vals`. */
  function ArrangementsFrom(vals: seq<int>, i: nat, k: nat): seq<seq<int>>
    requires k > 0
    decreases k, |vals| - i
  {
    if i >= |vals| then []
    else Prefix(vals[i], Arrangements(Remove(vals, i), k - 1)) + ArrangementsFrom(vals, i + 1, k)
  }

  /** Every entry of `t` is one of `vals`. */
  predicate Drawn(t: seq<int>, vals: seq<int>) {
    forall j :: 0 <= j < |t| ==> t[j] in vals
  }

  /** An arrangement is exactly a duplicate-free `k`-tuple of values drawn from `vals`. */
  lemma {:induction false} ArrangementsMembership(vals: seq<int>, k: nat, t: seq<int>)
    requires Distinct(vals)
    ensures t in Arrangements(vals, k) <==> |t| == k && Distinct(t) && Drawn(t, vals)
    decreases k, |vals| + 1
  {
    if k > 0 {
      ArrangementsFromMembership(vals, 0, k, t);
    }
  }

  lemma {:induction false} ArrangementsFromMembership(vals: seq<int>, i: nat, k: nat, t: seq<int>)
    requires Distinct(vals) && k > 0
    ensures t in ArrangementsFrom(vals, i, k) <==>
      |t| == k && Distinct(t) && Drawn(t, vals) && exists m :: i <= m < |vals| && vals[m] == t[0]
    decreases k, |vals| - i
  {
    if i < |vals| {
      ArrangementsFromMembership(vals, i + 1, k, t);
      HeadArrangements(vals, i, k, t);
      if |t| > 0 {
        StartsAtOrAfter(vals, i, t[0]);
      }
    }
  }

  /** The arrangements starting with `vals[i]`. */
  lemma HeadArrangements(vals: seq<int>, i: nat, k: nat, t: seq<int>)
    requires Distinct(vals) && i < |vals| && k > 0
    ensures t in Prefix(vals[i], Arrangements(Remove(vals, i), k - 1)) <==>
      |t| == k && Distinct(t) && Drawn(t, vals) && t[0] == vals[i]
    decreases k, 0
  {
    var rest := Remove(vals, i);
    RemoveMembership(vals, i, 0);
    PrefixMembership(vals[i], Arrangements(rest, k - 1), t);
    if |t| > 0 {
      ArrangementsMembership(rest, k - 1, t[1..]);
      if t[0] == vals[i] {
        FirstDrawn(vals, i, t);
      }
    }
  }

  lemma StartsAtOrAfter(vals: seq<int>, i: nat, w: int)
    requires i < |vals|
    ensures (exists m :: i <= m < |vals| && vals[m] == w) <==> vals[i] == w || exists m :: i + 1 <= m < |vals| && vals[m] == w
  {
    if exists m :: i <= m < |vals| && vals[m] == w {
      var m :| i <= m < |vals| && vals[m] == w;
      assert m == i || (i + 1 <= m < |vals| && vals[m] == w);
    }
  }

  /** A tuple starting with `vals[i]` is a duplicate-free draw from `vals` iff its tail is one from the rest. */
  lemma FirstDrawn(vals: seq<int>, i: nat, t: seq<int>)
    requires Distinct(vals) && i < |vals| && |t| > 0 && t[0] == vals[i]
    ensures (Distinct(t[1..]) && Drawn(t[1..], Remove(vals, i))) <==> (Distinct(t) && Drawn(t, vals))
  {
    var rest := Remove(vals, i);
    forall w ensures w in rest <==> w in vals && w != vals[i] {
      RemoveMembership(vals, i, w);
    }
    assert forall j :: 1 <= j < |t| ==> t[j] == t[1..][j - 1];
    if Distinct(t) {
      assert t[0] !in t[1..];
    }
    if Distinct(t[1..]) && t[0] !in t[1..] {
      forall a, b | 0 <= a < b < |t| ensures t[a] != t[b] {
        if a > 0 {
          assert t[a] == t[1..][a - 1];
        }
      }
    }
  }

  /** Every entry of `t` lies in 1..n. */
  predicate InValues(t: seq<int>, n: nat) {
    forall j :: 0 <= j < |t| ==> 1 <= t[j] <= n
  }

  lemma DrawnFromValues(t: seq<int>, n: nat)
    ensures Drawn(t, Range(1, n)) <==> InValues(t, n)
  {
    forall j | 0 <= j < |t| ensures t[j] in Range(1, n) <==> 1 <= t[j] <= n {
      RangeMembership(1, n, t[j]);
    }
  }

  /** `permutations(range(1, n + 1), 2)`: the ordered pairs of distinct values of 1..n. */
  function Pairs(n: nat): (r: set<seq<int>>)
    ensures forall t :: t in r <==> |t| == 2 && t[0] != t[1] && InValues(t, n)
  {
    var r := set t | t in Arrangements(Range(1, n), 2);
    assert forall t :: t in r <==> |t| == 2 && t[0] != t[1] && InValues(t, n) by {
      forall t ensures t in r <==> |t| == 2 && t[0] != t[1] && InValues(t, n) {
        ArrangementsMembership(Range(1, n), 2, t);
        DrawnFromValues(t, n);
      }
    }
    r
  }

  /** `permutations(range(1, n + 1), n)`: the orderings of 1..n. */
  function Perms(n: nat): (r: set<seq<int>>)
    ensures forall t :: t in r <==> |t| == n && Distinct(t) && InValues(t, n)
  {
    var r := set t | t in Arrangements(Range(1, n), n);
    assert forall t :: t in r <==> |t| == n && Distinct(t) && InValues(t, n) by {
      forall t ensures t in r <==> |t| == n && Distinct(t) && InValues(t, n) {
        ArrangementsMembership(Range(1, n), n, t);
        DrawnFromValues(t, n);
      }
    }
    r
  }
}
