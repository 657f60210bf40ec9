/**
 * What the two Futoshiki encodings mean: their solutions are the fillings
 * of the grid that keep the given values, use 1..n, repeat no value in a
 * row or a column, and respect every marker. Model 2 has exactly these
 * solutions on every grid; model 1 too, except on a one-cell grid whose
 * given value lies outside 1..1, where it has no line constraint to reject it.
 */
module FutoshikiSolutions {
  import opened Seqs
  import opened Csp
  import opened Tuples
  import opened Futoshiki

  /* ---------------- the puzzle ---------------- */

  /** The value a full assignment gives cell (i, j). */
  function At(a: seq<int>, n: nat, i: nat, j: nat): int
    requires |a| == Cells(n) && i < n && j < n
  {
    CellBounds(n, i, j);
    a[Cell(n, i, j)]
  }

  /** Each cell holds its given value, or a value of 1..n if it was empty. */
  ghost predicate KeepsGivens(grid: seq<seq<Entry>>, a: seq<int>)
    requires Grid(grid) && |a| == Cells(|grid|)
  {
    forall i, j :: 0 <= i < |grid| && 0 <= j < |grid| ==>
      if Given(grid, i, j) == 0 then 1 <= At(a, |grid|, i, j) <= |grid| else At(a, |grid|, i, j) == Given(grid, i, j)
  }

  ghost predicate Filled(a: seq<int>, n: nat)
    requires |a| == Cells(n)
  {
    forall i, j :: 0 <= i < n && 0 <= j < n ==> 1 <= At(a, n, i, j) <= n
  }

  ghost predicate RowsDiffer(a: seq<int>, n: nat)
    requires |a| == Cells(n)
  {
    forall i, j1, j2 :: 0 <= i < n && 0 <= j1 < j2 < n ==> At(a, n, i, j1) != At(a, n, i, j2)
  }

  ghost predicate ColumnsDiffer(a: seq<int>, n: nat)
    requires |a| == Cells(n)
  {
    forall j, i1, i2 :: 0 <= j < n && 0 <= i1 < i2 < n ==> At(a, n, i1, j) != At(a, n, i2, j)
  }

  ghost predicate MarkersRespected(grid: seq<seq<Entry>>, a: seq<int>)
    requires Grid(grid) && |a| == Cells(|grid|)
  {
    forall i, m :: 0 <= i < |grid| && 0 <= m && m + 1 < |grid| && Marker(grid, i, m).Some? ==>
      Holds(Marker(grid, i, m).value, At(a, |grid|, i, m), At(a, |grid|, i, m + 1))
  }

  /** A Futoshiki solution of the grid, stated on the grid itself. */
  ghost predicate Solves(grid: seq<seq<Entry>>, a: seq<int>) {
    && Grid(grid) && |a| == Cells(|grid|)
    && KeepsGivens(grid, a) && Filled(a, |grid|)
    && RowsDiffer(a, |grid|) && ColumnsDiffer(a, |grid|)
    && MarkersRespected(grid, a)
  }

  /* ---------------- constraint lists ---------------- */

  /** Every constraint of the list is satisfied by `a`. */
  ghost predicate AllSatisfied(a: seq<int>, cons: seq<Constraint>) {
    forall c :: c in cons ==> Satisfies(a, c)
  }

  lemma AllSatisfiedIndexed(a: seq<int>, cons: seq<Constraint>)
    ensures SatisfiesAll(a, cons) <==> AllSatisfied(a, cons)
  {
    if SatisfiesAll(a, cons) {
      forall c | c in cons ensures Satisfies(a, c) {
        var k :| 0 <= k < |cons| && cons[k] == c;
      }
    }
  }

  lemma AllSatisfiedAppend(a: seq<int>, x: seq<Constraint>, y: seq<Constraint>)
    ensures AllSatisfied(a, x + y) <==> AllSatisfied(a, x) && AllSatisfied(a, y)
  {
    if AllSatisfied(a, x) && AllSatisfied(a, y) {
      forall c | c in x + y ensures Satisfies(a, c) {
        assert c in x || c in y;
      }
    }
  }

  /* ---------------- lines ---------------- */

  /** No value repeats along the line. */
  ghost predicate LineDistinct(a: seq<int>, line: seq<VarId>)
    requires InRange(line, |a|)
  {
    forall j1, j2 :: 0 <= j1 < j2 < |line| ==> a[line[j1]] != a[line[j2]]
  }

  /** Every value along the line lies in 1..n. */
  ghost predicate LineInValues(a: seq<int>, line: seq<VarId>, n: nat)
    requires InRange(line, |a|)
  {
    forall j :: 0 <= j < |line| ==> 1 <= a[line[j]] <= n
  }

  /** A whole-line constraint of model 2 holds exactly when the line is a permutation of 1..n. */
  lemma WholeLineSatisfied(a: seq<int>, line: seq<VarId>, n: nat)
    requires InRange(line, |a|)
    ensures Satisfies(a, Constraint(line, Perms(n))) <==> |line| == n && LineDistinct(a, line) && LineInValues(a, line, n)
  {
    var p := Project(a, line);
    assert forall j :: 0 <= j < |line| ==> p[j] == a[line[j]];
  }

  lemma WholeLinesSatisfied(a: seq<int>, lines: seq<seq<VarId>>, n: nat)
    requires forall l :: 0 <= l < |lines| ==> InRange(lines[l], |a|)
    ensures AllSatisfied(a, WholeLines(lines, Perms(n))) <==>
      forall l :: 0 <= l < |lines| ==> |lines[l]| == n && LineDistinct(a, lines[l]) && LineInValues(a, lines[l], n)
  {
    var cons := WholeLines(lines, Perms(n));
    forall l | 0 <= l < |lines|
      ensures Satisfies(a, cons[l]) <==> |lines[l]| == n && LineDistinct(a, lines[l]) && LineInValues(a, lines[l], n)
    {
      WholeLineSatisfied(a, lines[l], n);
    }
    if forall l :: 0 <= l < |lines| ==> Satisfies(a, cons[l]) {
      forall c | c in cons ensures Satisfies(a, c) {
        var l :| 0 <= l < |cons| && cons[l] == c;
      }
    }
    if AllSatisfied(a, cons) {
      forall l | 0 <= l < |lines| ensures Satisfies(a, cons[l]) {
        assert cons[l] in cons;
      }
    }
  }

  /** A not-equal constraint of model 1 holds exactly when both values lie in 1..n and differ. */
  lemma PairSatisfied(a: seq<int>, x: VarId, y: VarId, n: nat)
    requires x < |a| && y < |a|
    ensures Satisfies(a, Constraint([x, y], Pairs(n))) <==> a[x] != a[y] && 1 <= a[x] <= n && 1 <= a[y] <= n
  {
    assert Project(a, [x, y]) == [a[x], a[y]];
  }

  /** The constraint of model 1 on entries `j1 < j2` of a line. */
  function PairOf(line: seq<VarId>, j1: nat, j2: nat, n: nat): (c: Constraint)
    requires j1 < j2 < |line|
    ensures c in LinePairs(line, Pairs(n))
  {
    LinePairsMembership(line, Pairs(n), Constraint([line[j1], line[j2]], Pairs(n)));
    Constraint([line[j1], line[j2]], Pairs(n))
  }

  /** Model 1's constraints on a line hold exactly when its values differ, and lie in 1..n when it has two cells or more. */
  lemma LinePairsSatisfied(a: seq<int>, line: seq<VarId>, n: nat)
    requires InRange(line, |a|)
    ensures AllSatisfied(a, LinePairs(line, Pairs(n))) <==> LineDistinct(a, line) && (|line| >= 2 ==> LineInValues(a, line, n))
  {
    if AllSatisfied(a, LinePairs(line, Pairs(n))) {
      LinePairsNecessary(a, line, n);
    }
    if LineDistinct(a, line) && (|line| >= 2 ==> LineInValues(a, line, n)) {
      LinePairsSufficient(a, line, n);
    }
  }

  lemma LinePairsNecessary(a: seq<int>, line: seq<VarId>, n: nat)
    requires InRange(line, |a|) && AllSatisfied(a, LinePairs(line, Pairs(n)))
    ensures LineDistinct(a, line) && (|line| >= 2 ==> LineInValues(a, line, n))
  {
    forall j1, j2 | 0 <= j1 < j2 < |line| ensures a[line[j1]] != a[line[j2]] && 1 <= a[line[j1]] <= n && 1 <= a[line[j2]] <= n {
      assert Satisfies(a, PairOf(line, j1, j2, n));
      PairSatisfied(a, line[j1], line[j2], n);
    }
    if |line| >= 2 {
      forall j | 0 <= j < |line| ensures 1 <= a[line[j]] <= n {
        if j == 0 {
          assert 0 < 1 < |line|;
        } else {
          assert 0 < j < |line|;
        }
      }
    }
  }

  lemma LinePairsSufficient(a: seq<int>, line: seq<VarId>, n: nat)
    requires InRange(line, |a|) && LineDistinct(a, line) && (|line| >= 2 ==> LineInValues(a, line, n))
    ensures AllSatisfied(a, LinePairs(line, Pairs(n)))
  {
    forall c | c in LinePairs(line, Pairs(n)) ensures Satisfies(a, c) {
      LinePairsMembership(line, Pairs(n), c);
      var j1, j2 :| 0 <= j1 < j2 < |line| && c == Constraint([line[j1], line[j2]], Pairs(n));
      PairSatisfied(a, line[j1], line[j2], n);
    }
  }

  lemma PairsOfLinesSatisfied(a: seq<int>, lines: seq<seq<VarId>>, n: nat)
    requires forall l :: 0 <= l < |lines| ==> InRange(lines[l], |a|)
    ensures AllSatisfied(a, PairsOfLines(lines, Pairs(n))) <==>
      forall l :: 0 <= l < |lines| ==> AllSatisfied(a, LinePairs(lines[l], Pairs(n)))
  {
    var cons := PairsOfLines(lines, Pairs(n));
    forall l, c | 0 <= l < |lines| && c in LinePairs(lines[l], Pairs(n)) ensures c in cons {
      LinePairsMembership(lines[l], Pairs(n), c);
      PairsOfLinesMembership(lines, Pairs(n), c);
    }
    if forall l :: 0 <= l < |lines| ==> AllSatisfied(a, LinePairs(lines[l], Pairs(n))) {
      forall c | c in cons ensures Satisfies(a, c) {
        PairsOfLinesMembership(lines, Pairs(n), c);
        var l, j1, j2 :| 0 <= l < |lines| && 0 <= j1 < j2 < |lines[l]| && c == Constraint([lines[l][j1], lines[l][j2]], Pairs(n));
        LinePairsMembership(lines[l], Pairs(n), c);
      }
    }
  }

  /* ---------------- back to the grid ---------------- */

  lemma RowsOnBoard(a: seq<int>, n: nat)
    requires |a| == Cells(n)
    ensures forall i :: 0 <= i < n ==> InRange(Row(n, i), |a|)
  {
    LinesOnBoard(n);
    forall i | 0 <= i < n ensures InRange(Row(n, i), |a|) {
      assert Rows(n)[i] == Row(n, i);
    }
  }

  lemma ColumnsOnBoard(a: seq<int>, n: nat)
    requires |a| == Cells(n)
    ensures forall j :: 0 <= j < n ==> InRange(Column(n, j), |a|)
  {
    LinesOnBoard(n);
    forall j | 0 <= j < n ensures InRange(Column(n, j), |a|) {
      assert Columns(n)[j] == Column(n, j);
    }
  }

  lemma RowsMeaning(a: seq<int>, n: nat)
    requires |a| == Cells(n)
    ensures forall i :: 0 <= i < n ==> InRange(Row(n, i), |a|)
    ensures (forall i :: 0 <= i < n ==> LineDistinct(a, Row(n, i))) <==> RowsDiffer(a, n)
    ensures (forall i :: 0 <= i < n ==> LineInValues(a, Row(n, i), n)) <==> Filled(a, n)
  {
    RowsOnBoard(a, n);
    if forall i :: 0 <= i < n ==> LineDistinct(a, Row(n, i)) {
      forall i, j1, j2 | 0 <= i < n && 0 <= j1 < j2 < n ensures At(a, n, i, j1) != At(a, n, i, j2) {
        assert LineDistinct(a, Row(n, i));
      }
    }
    if RowsDiffer(a, n) {
      forall i | 0 <= i < n ensures LineDistinct(a, Row(n, i)) {
        forall j1, j2 | 0 <= j1 < j2 < n ensures a[Row(n, i)[j1]] != a[Row(n, i)[j2]] {
          assert At(a, n, i, j1) != At(a, n, i, j2);
        }
      }
    }
    if forall i :: 0 <= i < n ==> LineInValues(a, Row(n, i), n) {
      forall i, j | 0 <= i < n && 0 <= j < n ensures 1 <= At(a, n, i, j) <= n {
        assert LineInValues(a, Row(n, i), n);
      }
    }
    if Filled(a, n) {
      forall i | 0 <= i < n ensures LineInValues(a, Row(n, i), n) {
        forall j | 0 <= j < n ensures 1 <= a[Row(n, i)[j]] <= n {
          assert 1 <= At(a, n, i, j) <= n;
        }
      }
    }
  }

  lemma ColumnsMeaning(a: seq<int>, n: nat)
    requires |a| == Cells(n)
    ensures forall j :: 0 <= j < n ==> InRange(Column(n, j), |a|)
    ensures (forall j :: 0 <= j < n ==> LineDistinct(a, Column(n, j))) <==> ColumnsDiffer(a, n)
    ensures (forall j :: 0 <= j < n ==> LineInValues(a, Column(n, j), n)) <==> Filled(a, n)
  {
    ColumnsOnBoard(a, n);
    if forall j :: 0 <= j < n ==> LineDistinct(a, Column(n, j)) {
      forall j, i1, i2 | 0 <= j < n && 0 <= i1 < i2 < n ensures At(a, n, i1, j) != At(a, n, i2, j) {
        assert LineDistinct(a, Column(n, j));
      }
    }
    if ColumnsDiffer(a, n) {
      forall j | 0 <= j < n ensures LineDistinct(a, Column(n, j)) {
        forall i1, i2 | 0 <= i1 < i2 < n ensures a[Column(n, j)[i1]] != a[Column(n, j)[i2]] {
          assert At(a, n, i1, j) != At(a, n, i2, j);
        }
      }
    }
    if forall j :: 0 <= j < n ==> LineInValues(a, Column(n, j), n) {
      forall i, j | 0 <= i < n && 0 <= j < n ensures 1 <= At(a, n, i, j) <= n {
        assert LineInValues(a, Column(n, j), n);
      }
    }
    if Filled(a, n) {
      forall j | 0 <= j < n ensures LineInValues(a, Column(n, j), n) {
        forall i | 0 <= i < n ensures 1 <= a[Column(n, j)[i]] <= n {
          assert 1 <= At(a, n, i, j) <= n;
        }
      }
    }
  }

  /** A marker constraint holds exactly when both cells lie in 1..n and stand in the marker's relation. */
  lemma MarkerSatisfied(a: seq<int>, n: nat, i: nat, m: nat, rel: Relation)
    requires |a| == Cells(n) && i < n && m + 1 < n
    ensures Satisfies(a, MarkerConstraint(n, i, m, rel)) <==>
      1 <= At(a, n, i, m) <= n && 1 <= At(a, n, i, m + 1) <= n && Holds(rel, At(a, n, i, m), At(a, n, i, m + 1))
  {
    CellBounds(n, i, m);
    CellBounds(n, i, m + 1);
    assert Project(a, [Cell(n, i, m), Cell(n, i, m + 1)]) == [At(a, n, i, m), At(a, n, i, m + 1)];
  }

  lemma MarkersSatisfied(grid: seq<seq<Entry>>, a: seq<int>)
    requires Grid(grid) && |a| == Cells(|grid|)
    ensures AllSatisfied(a, Markers(grid)) ==> MarkersRespected(grid, a)
    ensures Filled(a, |grid|) && MarkersRespected(grid, a) ==> AllSatisfied(a, Markers(grid))
  {
    var n := |grid|;
    if AllSatisfied(a, Markers(grid)) {
      forall i, m | 0 <= i < n && 0 <= m && m + 1 < n && Marker(grid, i, m).Some?
        ensures Holds(Marker(grid, i, m).value, At(a, n, i, m), At(a, n, i, m + 1))
      {
        assert IsMarkerConstraint(grid, i, m, MarkerConstraint(n, i, m, Marker(grid, i, m).value));
        MarkersMembership(grid, MarkerConstraint(n, i, m, Marker(grid, i, m).value));
        MarkerSatisfied(a, n, i, m, Marker(grid, i, m).value);
      }
    }
    if Filled(a, n) && MarkersRespected(grid, a) {
      forall c | c in Markers(grid) ensures Satisfies(a, c) {
        MarkersMembership(grid, c);
        var i: nat, m: nat :| IsMarkerConstraint(grid, i, m, c);
        MarkerSatisfied(a, n, i, m, Marker(grid, i, m).value);
      }
    }
  }

  /** Staying within the cell domains is keeping the givens and filling empty cells from 1..n. */
  lemma WithinMeansGivens(grid: seq<seq<Entry>>, cons: seq<Constraint>, a: seq<int>)
    requires Grid(grid)
    ensures Within(Csp(Variables(grid), cons), a) <==> |a| == Cells(|grid|) && KeepsGivens(grid, a)
  {
    var n := |grid|;
    var vars := Variables(grid);
    if |a| == Cells(n) {
      forall i, j | 0 <= i < n && 0 <= j < n
        ensures (a[Cell(n, i, j)] in vars[Cell(n, i, j)].cur) <==>
          if Given(grid, i, j) == 0 then 1 <= At(a, n, i, j) <= n else At(a, n, i, j) == Given(grid, i, j)
      {
      }
      if KeepsGivens(grid, a) {
        forall x | 0 <= x < |a| ensures a[x] in vars[x].cur {
          CellOf(n, x);
        }
      }
    }
  }

  /** Model 2's row constraints: every row a permutation of 1..n. */
  lemma WholeRowsMeaning(a: seq<int>, n: nat)
    requires |a| == Cells(n)
    ensures AllSatisfied(a, WholeLines(Rows(n), Perms(n))) <==> RowsDiffer(a, n) && Filled(a, n)
  {
    RowsMeaning(a, n);
    WholeLinesSatisfied(a, Rows(n), n);
  }

  lemma WholeColumnsMeaning(a: seq<int>, n: nat)
    requires |a| == Cells(n)
    ensures AllSatisfied(a, WholeLines(Columns(n), Perms(n))) <==> ColumnsDiffer(a, n) && Filled(a, n)
  {
    ColumnsMeaning(a, n);
    WholeLinesSatisfied(a, Columns(n), n);
  }

  /** Model 1's row constraints: no repeat in a row, and values in 1..n once rows have two cells. */
  lemma RowPairsMeaning(a: seq<int>, n: nat)
    requires |a| == Cells(n)
    ensures AllSatisfied(a, PairsOfLines(Rows(n), Pairs(n))) <==> RowsDiffer(a, n) && (n >= 2 ==> Filled(a, n))
  {
    RowsMeaning(a, n);
    PairsOfLinesSatisfied(a, Rows(n), n);
    forall i | 0 <= i < n
      ensures AllSatisfied(a, LinePairs(Rows(n)[i], Pairs(n))) <==> LineDistinct(a, Row(n, i)) && (n >= 2 ==> LineInValues(a, Row(n, i), n))
    {
      assert Rows(n)[i] == Row(n, i);
      LinePairsSatisfied(a, Row(n, i), n);
    }
  }

  lemma ColumnPairsMeaning(a: seq<int>, n: nat)
    requires |a| == Cells(n)
    ensures AllSatisfied(a, PairsOfLines(Columns(n), Pairs(n))) <==> ColumnsDiffer(a, n) && (n >= 2 ==> Filled(a, n))
  {
    ColumnsMeaning(a, n);
    PairsOfLinesSatisfied(a, Columns(n), n);
    forall j | 0 <= j < n
      ensures AllSatisfied(a, LinePairs(Columns(n)[j], Pairs(n))) <==> LineDistinct(a, Column(n, j)) && (n >= 2 ==> LineInValues(a, Column(n, j), n))
    {
      assert Columns(n)[j] == Column(n, j);
      LinePairsSatisfied(a, Column(n, j), n);
    }
  }

  /* ---------------- the encodings ---------------- */

  /** Model 2's solutions are exactly the Futoshiki solutions of the grid. */
  lemma Model2Solutions(grid: seq<seq<Entry>>, a: seq<int>)
    requires Grid(grid)
    ensures Solution(Model2(grid).csp, a) <==> Solves(grid, a)
  {
    var n := |grid|;
    var csp := Model2(grid).csp;
    var rows := WholeLines(Rows(n), Perms(n));
    var cols := WholeLines(Columns(n), Perms(n));
    assert csp.cons == Markers(grid) + rows + cols;
    WithinMeansGivens(grid, csp.cons, a);
    if |a| == Cells(n) {
      AllSatisfiedIndexed(a, csp.cons);
      AllSatisfiedAppend(a, Markers(grid) + rows, cols);
      AllSatisfiedAppend(a, Markers(grid), rows);
      MarkersSatisfied(grid, a);
      WholeRowsMeaning(a, n);
      WholeColumnsMeaning(a, n);
    }
  }

  /** Every given value is 0 (empty) or lies in 1..n. */
  ghost predicate GivensInRange(grid: seq<seq<Entry>>)
    requires Grid(grid)
  {
    forall i, j :: 0 <= i < |grid| && 0 <= j < |grid| ==> 0 <= Given(grid, i, j) <= |grid|
  }

  lemma GivensFill(grid: seq<seq<Entry>>, a: seq<int>)
    requires Grid(grid) && GivensInRange(grid) && |a| == Cells(|grid|) && KeepsGivens(grid, a)
    ensures Filled(a, |grid|)
  {
  }

  /**
   * Model 1's solutions are the Futoshiki solutions of the grid, provided
   * the grid has two rows or more, or its given values lie in 1..n.
   */
  lemma Model1Solutions(grid: seq<seq<Entry>>, a: seq<int>)
    requires Grid(grid) && (|grid| >= 2 || GivensInRange(grid))
    ensures Solution(Model1(grid).csp, a) <==> Solves(grid, a)
  {
    var n := |grid|;
    var csp := Model1(grid).csp;
    var rows := PairsOfLines(Rows(n), Pairs(n));
    var cols := PairsOfLines(Columns(n), Pairs(n));
    assert csp.cons == Markers(grid) + rows + cols;
    WithinMeansGivens(grid, csp.cons, a);
    if |a| == Cells(n) {
      AllSatisfiedIndexed(a, csp.cons);
      AllSatisfiedAppend(a, Markers(grid) + rows, cols);
      AllSatisfiedAppend(a, Markers(grid), rows);
      MarkersSatisfied(grid, a);
      RowPairsMeaning(a, n);
      ColumnPairsMeaning(a, n);
      if n < 2 && KeepsGivens(grid, a) {
        GivensFill(grid, a);
      }
    }
  }

  /** The two encodings have the same solutions (the condition of `Model1Solutions` assumed). */
  lemma ModelsAgree(grid: seq<seq<Entry>>, a: seq<int>)
    requires Grid(grid) && (|grid| >= 2 || GivensInRange(grid))
    ensures Solution(Model1(grid).csp, a) <==> Solution(Model2(grid).csp, a)
  {
    Model1Solutions(grid, a);
    Model2Solutions(grid, a);
  }

  /**
   * Without that condition they differ: on a one-cell grid whose given
   * value `g` lies outside 0..1, filling in `g` solves model 1 only.
   */
  lemma OneCellGridsDiffer(grid: seq<seq<Entry>>)
    requires Grid(grid) && |grid| == 1 && Given(grid, 0, 0) !in {0, 1}
    ensures Solution(Model1(grid).csp, [Given(grid, 0, 0)]) && !Solution(Model2(grid).csp, [Given(grid, 0, 0)])
  {
    var a := [Given(grid, 0, 0)];
    Model2Solutions(grid, a);
    assert !Filled(a, 1) by {
      assert At(a, 1, 0, 0) == a[0];
    }
    OneCellModel1(grid);
  }

  /** Model 1 of a one-cell grid has no constraint, so the given value alone solves it. */
  lemma OneCellModel1(grid: seq<seq<Entry>>)
    requires Grid(grid) && |grid| == 1 && Given(grid, 0, 0) != 0
    ensures Model1(grid).csp.cons == []
    ensures Solution(Model1(grid).csp, [Given(grid, 0, 0)])
  {
    var a := [Given(grid, 0, 0)];
    var m1 := Model1(grid).csp;
    OneRowNoMarkers(grid);
    PairsOfLinesCount(Rows(1), Pairs(1), 1);
    PairsOfLinesCount(Columns(1), Pairs(1), 1);
    assert m1.cons == Markers(grid) + PairsOfLines(Rows(1), Pairs(1)) + PairsOfLines(Columns(1), Pairs(1));
    WithinMeansGivens(grid, m1.cons, a);
    assert KeepsGivens(grid, a) by {
      assert At(a, 1, 0, 0) == a[0];
    }
  }

  lemma OneRowNoMarkers(grid: seq<seq<Entry>>)
    requires Grid(grid) && |grid| == 1
    ensures Markers(grid) == []
  {
    var rows := MarkerRows(grid);
    assert rows == [[]];
    assert Flatten(rows) == [] + Flatten(rows[1..]);
  }
}
