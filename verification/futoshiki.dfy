/**
 * The two Futoshiki encodings (futoshiki_csp.py).
 *
 * Row `i` of an n-row grid interleaves cells and markers: position `2m` is
 * cell (i, m), 0 for an empty cell and the given value otherwise; position
 * `2m + 1` relates cells (i, m) and (i, m + 1): '.' is no relation, '>'
 * means the left cell is greater, and any other entry means it is smaller.
 * Cell (i, j) becomes variable `i * n + j`. Both models start with the
 * marker constraints in row order; model 1 adds a binary not-equal
 * constraint for every pair of cells in a row, then in a column; model 2
 * adds one n-ary all-different constraint per row, then per column.
 */
module Futoshiki {
  import opened Seqs
  import opened Csp
  import opened Tuples

  /** A grid entry: a number (cells) or a character (markers). */
  datatype Entry = Num(v: int) | Mark(c: char)

  /** What a marker asks of its left and right cell. */
  datatype Relation = Greater | Less

  /** The shape the builders index into: n rows of at least 2n - 1 entries, numbers at the cell positions. */
  predicate Grid(grid: seq<seq<Entry>>) {
    forall i :: 0 <= i < |grid| ==> |grid[i]| >= 2 * |grid| - 1 && forall m :: 0 <= m < |grid| ==> grid[i][2 * m].Num?
  }

  /** The number of cells, and of variables, of an n-by-n board. */
  function Cells(n: nat): nat {
    n * n
  }

  /** The variable of cell (i, j): row-major order. */
  function Cell(n: nat, i: nat, j: nat): VarId {
    i * n + j
  }

  lemma CellBounds(n: nat, i: nat, j: nat)
    requires i < n && j < n
    ensures Cell(n, i, j) < Cells(n)
  {
    assert i * n + j < (i + 1) * n;
    assert (i + 1) * n <= n * n;
  }

  /** Distinct cells have distinct variables, and every variable is some cell's. */
  lemma CellOf(n: nat, x: nat)
    requires x < Cells(n)
    ensures x / n < n && x % n < n && Cell(n, x / n, x % n) == x
  {
    var q := x / n;
    assert q * n <= x < n * n;
    MulStrict(q, n, n);
  }

  lemma MulStrict(a: nat, b: nat, n: nat)
    requires a * n < b * n
    ensures a < b
  {
    if b <= a {
      MulMono(b, a, n);
    }
  }

  lemma MulMono(a: nat, b: nat, n: nat)
    requires a <= b
    ensures a * n <= b * n
  {
    assert b * n == a * n + (b - a) * n;
  }

  lemma CellInjective(n: nat, i: nat, j: nat, i2: nat, j2: nat)
    requires j < n && j2 < n
    ensures Cell(n, i, j) == Cell(n, i2, j2) <==> i == i2 && j == j2
  {
    if i < i2 {
      CellOrder(n, i, j, i2, j2);
    } else if i2 < i {
      CellOrder(n, i2, j2, i, j);
    }
  }

  /** Every cell of an earlier row has a smaller variable. */
  lemma CellOrder(n: nat, i: nat, j: nat, i2: nat, j2: nat)
    requires j < n && i < i2
    ensures Cell(n, i, j) < Cell(n, i2, j2)
  {
    assert i2 * n == (i + 1) * n + (i2 - i - 1) * n;
    assert (i2 - i - 1) * n >= 0;
  }

  /** The cells of row `i`, left to right. */
  function Row(n: nat, i: nat): (r: seq<VarId>)
    ensures |r| == n && forall j :: 0 <= j < n ==> r[j] == Cell(n, i, j)
  {
    seq(n, j requires 0 <= j < n => Cell(n, i, j))
  }

  /** The cells of column `j`, top to bottom. */
  function Column(n: nat, j: nat): (r: seq<VarId>)
    ensures |r| == n && forall i :: 0 <= i < n ==> r[i] == Cell(n, i, j)
  {
    seq(n, i requires 0 <= i < n => Cell(n, i, j))
  }

  /** Domain 1..n and unassigned for an empty cell (0); domain [k] and assigned k for a given value k. */
  function CellVariable(e: int, n: nat): (v: Variable)
    ensures ValidVariable(v)
    ensures forall w :: w in v.cur <==> if e == 0 then 1 <= w <= n else w == e
    ensures v.dom == if e == 0 then Range(1, n) else [e]
    ensures v.assignment == if e == 0 then None else Some(e)
  {
    if e == 0 then
      RangeDistinct(1, n);
      assert forall w :: w in Range(1, n) <==> 1 <= w <= n by {
        forall w ensures w in Range(1, n) <==> 1 <= w <= n {
          RangeMembership(1, n, w);
        }
      }
      Variable(Range(1, n), (set w | w in Range(1, n)), None)
    else
      Variable([e], {e}, Some(e))
  }

  /** The value of cell (i, j) as written in the grid. */
  function Given(grid: seq<seq<Entry>>, i: nat, j: nat): int
    requires Grid(grid) && i < |grid| && j < |grid|
  {
    grid[i][2 * j].v
  }

  /** All variables, cell (i, j) at index `Cell(n, i, j)`. */
  function Variables(grid: seq<seq<Entry>>): (r: seq<Variable>)
    requires Grid(grid)
    ensures |r| == Cells(|grid|)
    ensures forall i, j :: 0 <= i < |grid| && 0 <= j < |grid| ==>
      Cell(|grid|, i, j) < |r| && r[Cell(|grid|, i, j)] == CellVariable(Given(grid, i, j), |grid|)
  {
    var n := |grid|;
    var rows := seq(n, i requires 0 <= i < n => seq(n, j requires 0 <= j < n => CellVariable(Given(grid, i, j), n)));
    FlattenLength(rows, n);
    forall i, j | 0 <= i < n && 0 <= j < n
      ensures Cell(n, i, j) < |Flatten(rows)| && Flatten(rows)[Cell(n, i, j)] == CellVariable(Given(grid, i, j), n)
    {
      FlattenIndex(rows, n, i, j);
    }
    Flatten(rows)
  }

  /** The relation a marker entry asks for, or None for '.'. */
  function MarkerRelation(e: Entry): Option<Relation> {
    match e
    case Mark('.') => None
    case Mark('>') => Some(Greater)
    case _ => Some(Less)
  }

  predicate Holds(rel: Relation, left: int, right: int) {
    match rel
    case Greater => left > right
    case Less => left < right
  }

  /** The pairs of distinct values of 1..n that stand in relation `rel`. */
  function RelationTuples(rel: Relation, n: nat): (r: set<seq<int>>)
    ensures forall t :: t in r <==> |t| == 2 && InValues(t, n) && Holds(rel, t[0], t[1])
  {
    set t | t in Pairs(n) && Holds(rel, t[0], t[1])
  }

  /** The marker between cells (i, m) and (i, m + 1), as read at grid position 2m + 1. */
  function Marker(grid: seq<seq<Entry>>, i: nat, m: nat): Option<Relation>
    requires Grid(grid) && i < |grid| && m + 1 < |grid|
  {
    MarkerRelation(grid[i][2 * m + 1])
  }

  function MarkerConstraint(n: nat, i: nat, m: nat, rel: Relation): Constraint {
    Constraint([Cell(n, i, m), Cell(n, i, m + 1)], RelationTuples(rel, n))
  }

  /** The marker constraints of row `i` from marker `m` on, skipping '.'. */
  function RowMarkers(grid: seq<seq<Entry>>, i: nat, m: nat): (r: seq<Constraint>)
    requires Grid(grid) && i < |grid|
    ensures forall c :: c in r <==> exists m2: nat :: (m <= m2 && m2 + 1 < |grid| && Marker(grid, i, m2).Some?
      && c == MarkerConstraint(|grid|, i, m2, Marker(grid, i, m2).value))
    decreases |grid| - m
  {
    if m + 1 >= |grid| then []
    else
      var rest := RowMarkers(grid, i, m + 1);
      match Marker(grid, i, m)
      case None => rest
      case Some(rel) => [MarkerConstraint(|grid|, i, m, rel)] + rest
  }

  /** `c` is the constraint of a marker other than '.', between cells (i, m) and (i, m + 1). */
  predicate IsMarkerConstraint(grid: seq<seq<Entry>>, i: nat, m: nat, c: Constraint)
    requires Grid(grid)
  {
    i < |grid| && m + 1 < |grid| && Marker(grid, i, m).Some? && c == MarkerConstraint(|grid|, i, m, Marker(grid, i, m).value)
  }

  /** The marker constraints of each row. */
  function MarkerRows(grid: seq<seq<Entry>>): (r: seq<seq<Constraint>>)
    requires Grid(grid)
    ensures |r| == |grid| && forall i :: 0 <= i < |grid| ==> r[i] == RowMarkers(grid, i, 0)
  {
    seq(|grid|, i requires 0 <= i < |grid| => RowMarkers(grid, i, 0))
  }

  /** All marker constraints, row by row. */
  function Markers(grid: seq<seq<Entry>>): seq<Constraint>
    requires Grid(grid)
  {
    Flatten(MarkerRows(grid))
  }

  /** A constraint is among the markers exactly when some marker other than '.' produces it. */
  lemma MarkersMembership(grid: seq<seq<Entry>>, c: Constraint)
    requires Grid(grid)
    ensures c in Markers(grid) <==> exists i: nat, m: nat :: IsMarkerConstraint(grid, i, m, c)
  {
    var rows := MarkerRows(grid);
    FlattenMembership(rows, c);
    if c in Flatten(rows) {
      var i :| 0 <= i < |rows| && c in rows[i];
      MarkerOfRow(grid, i, c);
    }
    if exists i: nat, m: nat :: IsMarkerConstraint(grid, i, m, c) {
      var i: nat, m: nat :| IsMarkerConstraint(grid, i, m, c);
      assert c in rows[i];
    }
  }

  lemma MarkerOfRow(grid: seq<seq<Entry>>, i: nat, c: Constraint)
    requires Grid(grid) && i < |grid| && c in RowMarkers(grid, i, 0)
    ensures exists i: nat, m: nat :: IsMarkerConstraint(grid, i, m, c)
  {
    var m: nat :| m + 1 < |grid| && Marker(grid, i, m).Some? && c == MarkerConstraint(|grid|, i, m, Marker(grid, i, m).value);
    assert IsMarkerConstraint(grid, i, m, c);
  }

  /** One binary constraint per pair of entries of `line`, first entry major: the not-equal constraints of model 1. */
  function LinePairs(line: seq<VarId>, tuples: set<seq<int>>): (r: seq<Constraint>)
    ensures 2 * |r| == |line| * (|line| - 1)
    decreases |line|
  {
    if line == [] then []
    else seq(|line| - 1, j requires 0 <= j < |line| - 1 => Constraint([line[0], line[j + 1]], tuples)) + LinePairs(line[1..], tuples)
  }

  lemma {:induction false} LinePairsMembership(line: seq<VarId>, tuples: set<seq<int>>, c: Constraint)
    ensures c in LinePairs(line, tuples) <==>
      exists j1, j2 :: 0 <= j1 < j2 < |line| && c == Constraint([line[j1], line[j2]], tuples)
    decreases |line|
  {
    if line != [] {
      var head := seq(|line| - 1, j requires 0 <= j < |line| - 1 => Constraint([line[0], line[j + 1]], tuples));
      LinePairsMembership(line[1..], tuples, c);
      if c in head {
        var j :| 0 <= j < |head| && head[j] == c;
        assert c == Constraint([line[0], line[j + 1]], tuples);
      }
      if c in LinePairs(line[1..], tuples) {
        var j1, j2 :| 0 <= j1 < j2 < |line| - 1 && c == Constraint([line[1..][j1], line[1..][j2]], tuples);
        assert c == Constraint([line[j1 + 1], line[j2 + 1]], tuples);
      }
      if exists j1, j2 :: 0 <= j1 < j2 < |line| && c == Constraint([line[j1], line[j2]], tuples) {
        var j1, j2 :| 0 <= j1 < j2 < |line| && c == Constraint([line[j1], line[j2]], tuples);
        if j1 == 0 {
          assert head[j2 - 1] == c;
        } else {
          assert c == Constraint([line[1..][j1 - 1], line[1..][j2 - 1]], tuples);
        }
      }
    }
  }

  /** The rows, then the columns, of an n-by-n board, as lines of variables. */
  function Rows(n: nat): (r: seq<seq<VarId>>)
    ensures |r| == n && forall i :: 0 <= i < n ==> r[i] == Row(n, i)
  {
    seq(n, i requires 0 <= i < n => Row(n, i))
  }

  function Columns(n: nat): (r: seq<seq<VarId>>)
    ensures |r| == n && forall j :: 0 <= j < n ==> r[j] == Column(n, j)
  {
    seq(n, j requires 0 <= j < n => Column(n, j))
  }

  /** Model 1's line constraints: a binary constraint for every pair of cells of every line. */
  function PairsOfLines(lines: seq<seq<VarId>>, tuples: set<seq<int>>): seq<Constraint> {
    Flatten(seq(|lines|, l requires 0 <= l < |lines| => LinePairs(lines[l], tuples)))
  }

  /** Model 2's line constraints: one constraint over each whole line. */
  function WholeLines(lines: seq<seq<VarId>>, tuples: set<seq<int>>): (r: seq<Constraint>)
    ensures |r| == |lines| && forall l :: 0 <= l < |lines| ==> r[l] == Constraint(lines[l], tuples)
  {
    seq(|lines|, l requires 0 <= l < |lines| => Constraint(lines[l], tuples))
  }

  lemma PairsOfLinesMembership(lines: seq<seq<VarId>>, tuples: set<seq<int>>, c: Constraint)
    ensures c in PairsOfLines(lines, tuples) <==>
      exists l, j1, j2 :: 0 <= l < |lines| && 0 <= j1 < j2 < |lines[l]| && c == Constraint([lines[l][j1], lines[l][j2]], tuples)
  {
    var parts := seq(|lines|, l requires 0 <= l < |lines| => LinePairs(lines[l], tuples));
    FlattenMembership(parts, c);
    if c in PairsOfLines(lines, tuples) {
      var l :| 0 <= l < |parts| && c in parts[l];
      LinePairsMembership(lines[l], tuples, c);
    }
    if exists l, j1, j2 :: 0 <= l < |lines| && 0 <= j1 < j2 < |lines[l]| && c == Constraint([lines[l][j1], lines[l][j2]], tuples) {
      var l, j1, j2 :| 0 <= l < |lines| && 0 <= j1 < j2 < |lines[l]| && c == Constraint([lines[l][j1], lines[l][j2]], tuples);
      LinePairsMembership(lines[l], tuples, c);
      assert c in parts[l];
    }
  }

  /** n lines of n cells give n(n - 1)/2 pair constraints per line. */
  lemma PairsOfLinesCount(lines: seq<seq<VarId>>, tuples: set<seq<int>>, n: nat)
    requires forall l :: 0 <= l < |lines| ==> |lines[l]| == n
    ensures |PairsOfLines(lines, tuples)| == |lines| * (n * (n - 1) / 2)
  {
    var parts := seq(|lines|, l requires 0 <= l < |lines| => LinePairs(lines[l], tuples));
    forall l | 0 <= l < |lines| ensures |parts[l]| == n * (n - 1) / 2 {
      assert 2 * |parts[l]| == n * (n - 1);
    }
    FlattenLength(parts, n * (n - 1) / 2);
  }

  /** Every variable lies in 0..n*n and every cell has one. */
  predicate OnBoard(lines: seq<seq<VarId>>, n: nat) {
    forall l :: 0 <= l < |lines| ==> InRange(lines[l], Cells(n))
  }

  lemma LinesOnBoard(n: nat)
    ensures OnBoard(Rows(n), n) && OnBoard(Columns(n), n)
  {
    forall i, j | 0 <= i < n && 0 <= j < n ensures Cell(n, i, j) < Cells(n) {
      CellBounds(n, i, j);
    }
  }

  /** What both builders return: the network and the board of variables (`var_lst`). */
  datatype Model = Model(csp: Csp, board: seq<seq<VarId>>)

  /**
   * The constraints of `futoshiki_csp_model_1`: the markers, then n(n - 1)/2
   * binary not-equal constraints for each row, then as many for each column.
   */
  function BinaryConstraints(grid: seq<seq<Entry>>): (r: seq<Constraint>)
    requires Grid(grid)
    ensures |Markers(grid)| <= |r| && r[..|Markers(grid)|] == Markers(grid)
  {
    var n := |grid|;
    Markers(grid) + PairsOfLines(Rows(n), Pairs(n)) + PairsOfLines(Columns(n), Pairs(n))
  }

  /** Model 1 has n(n - 1)/2 pair constraints per row and as many per column, after the markers. */
  lemma BinaryCount(grid: seq<seq<Entry>>)
    requires Grid(grid)
    ensures |BinaryConstraints(grid)| == |Markers(grid)| + 2 * (|grid| * (|grid| * (|grid| - 1) / 2))
  {
    var n := |grid|;
    var rows, cols := PairsOfLines(Rows(n), Pairs(n)), PairsOfLines(Columns(n), Pairs(n));
    PairsOfLinesCount(Rows(n), Pairs(n), n);
    PairsOfLinesCount(Columns(n), Pairs(n), n);
    assert |BinaryConstraints(grid)| == |Markers(grid)| + |rows| + |cols|;
  }

  /**
   * The constraints of `futoshiki_csp_model_2`: the markers, then one
   * all-different constraint over each row, then one over each column.
   */
  function NaryConstraints(grid: seq<seq<Entry>>): (r: seq<Constraint>)
    requires Grid(grid)
    ensures |r| == |Markers(grid)| + 2 * |grid| && r[..|Markers(grid)|] == Markers(grid)
  {
    var n := |grid|;
    Markers(grid) + WholeLines(Rows(n), Perms(n)) + WholeLines(Columns(n), Perms(n))
  }

  /** After the markers, model 2 has row i's constraint at offset i and column i's at offset n + i. */
  lemma NaryLayout(grid: seq<seq<Entry>>, i: nat)
    requires Grid(grid) && i < |grid|
    ensures NaryConstraints(grid)[|Markers(grid)| + i] == Constraint(Row(|grid|, i), Perms(|grid|))
    ensures NaryConstraints(grid)[|Markers(grid)| + |grid| + i] == Constraint(Column(|grid|, i), Perms(|grid|))
  {
    var n := |grid|;
    var m, rows, cols := Markers(grid), WholeLines(Rows(n), Perms(n)), WholeLines(Columns(n), Perms(n));
    assert NaryConstraints(grid) == m + rows + cols;
    assert (m + rows + cols)[|m| + i] == rows[i];
    assert (m + rows + cols)[|m| + n + i] == cols[i];
  }

  /** `futoshiki_csp_model_1`: the cell variables and the binary constraints. */
  function Model1(grid: seq<seq<Entry>>): (r: Model)
    requires Grid(grid)
    ensures WellFormed(r.csp)
    ensures r.board == Rows(|grid|)
  {
    var n := |grid|;
    var cons := BinaryConstraints(grid);
    ConstraintsWellFormed(grid, cons, true);
    Model(Csp(Variables(grid), cons), Rows(n))
  }

  /** `futoshiki_csp_model_2`: the cell variables and the all-different constraints. */
  function Model2(grid: seq<seq<Entry>>): (r: Model)
    requires Grid(grid)
    ensures WellFormed(r.csp)
    ensures r.board == Rows(|grid|)
  {
    var n := |grid|;
    var cons := NaryConstraints(grid);
    ConstraintsWellFormed(grid, cons, false);
    Model(Csp(Variables(grid), cons), Rows(n))
  }

  /** The constraints either builder makes. */
  predicate Built(grid: seq<seq<Entry>>, cons: seq<Constraint>, binary: bool)
    requires Grid(grid)
  {
    var n := |grid|;
    if binary then cons == Markers(grid) + PairsOfLines(Rows(n), Pairs(n)) + PairsOfLines(Columns(n), Pairs(n))
    else cons == Markers(grid) + WholeLines(Rows(n), Perms(n)) + WholeLines(Columns(n), Perms(n))
  }

  /** Every constraint of `cons` has its scope among the first `nv` variables and tuples of its arity. */
  predicate ScopesOk(cons: seq<Constraint>, nv: nat) {
    forall c :: c in cons ==> InRange(c.scope, nv) && ArityOk(c)
  }

  lemma MarkersOk(grid: seq<seq<Entry>>)
    requires Grid(grid)
    ensures ScopesOk(Markers(grid), Cells(|grid|))
  {
    var n := |grid|;
    forall c | c in Markers(grid) ensures InRange(c.scope, Cells(n)) && ArityOk(c) {
      MarkersMembership(grid, c);
      var i: nat, m: nat :| IsMarkerConstraint(grid, i, m, c);
      CellBounds(n, i, m);
      CellBounds(n, i, m + 1);
    }
  }

  lemma PairsOk(lines: seq<seq<VarId>>, n: nat)
    requires OnBoard(lines, n)
    ensures ScopesOk(PairsOfLines(lines, Pairs(n)), Cells(n))
  {
    forall c | c in PairsOfLines(lines, Pairs(n)) ensures InRange(c.scope, Cells(n)) && ArityOk(c) {
      PairsOfLinesMembership(lines, Pairs(n), c);
    }
  }

  lemma WholeLinesOk(lines: seq<seq<VarId>>, n: nat)
    requires OnBoard(lines, n) && forall l :: 0 <= l < |lines| ==> |lines[l]| == n
    ensures ScopesOk(WholeLines(lines, Perms(n)), Cells(n))
  {
  }

  lemma ScopesOkAppend(a: seq<Constraint>, b: seq<Constraint>, nv: nat)
    requires ScopesOk(a, nv) && ScopesOk(b, nv)
    ensures ScopesOk(a + b, nv)
  {
    forall c | c in a + b ensures InRange(c.scope, nv) && ArityOk(c) {
      assert c in a || c in b;
    }
  }

  /** Every variable of the board is a cell variable, hence valid. */
  lemma VariablesValid(grid: seq<seq<Entry>>)
    requires Grid(grid)
    ensures forall x :: 0 <= x < |Variables(grid)| ==> ValidVariable(Variables(grid)[x])
  {
    forall x | 0 <= x < |Variables(grid)| ensures ValidVariable(Variables(grid)[x]) {
      VariableValid(grid, x);
    }
  }

  lemma VariableValid(grid: seq<seq<Entry>>, x: nat)
    requires Grid(grid) && x < Cells(|grid|)
    ensures ValidVariable(Variables(grid)[x])
  {
    var n := |grid|;
    CellOf(n, x);
    var i, j := x / n, x % n;
    var vars := Variables(grid);
    assert vars[Cell(n, i, j)] == CellVariable(Given(grid, i, j), n);
  }

  lemma ConstraintsWellFormed(grid: seq<seq<Entry>>, cons: seq<Constraint>, binary: bool)
    requires Grid(grid) && Built(grid, cons, binary)
    ensures WellFormed(Csp(Variables(grid), cons))
  {
    var n := |grid|;
    LinesOnBoard(n);
    MarkersOk(grid);
    if binary {
      PairsOk(Rows(n), n);
      PairsOk(Columns(n), n);
      ScopesOkAppend(Markers(grid), PairsOfLines(Rows(n), Pairs(n)), Cells(n));
      ScopesOkAppend(Markers(grid) + PairsOfLines(Rows(n), Pairs(n)), PairsOfLines(Columns(n), Pairs(n)), Cells(n));
    } else {
      WholeLinesOk(Rows(n), n);
      WholeLinesOk(Columns(n), n);
      ScopesOkAppend(Markers(grid), WholeLines(Rows(n), Perms(n)), Cells(n));
      ScopesOkAppend(Markers(grid) + WholeLines(Rows(n), Perms(n)), WholeLines(Columns(n), Perms(n)), Cells(n));
    }
    VariablesValid(grid);
    forall k | 0 <= k < |cons| ensures InRange(cons[k].scope, Cells(n)) && ArityOk(cons[k]) {
      assert cons[k] in cons;
    }
  }

  /**
   * Both models have the same variables, cell (i, j) at index i * n + j
   * with its cell variable, and the board lists them row by row.
   */
  lemma BoardLayout(grid: seq<seq<Entry>>)
    requires Grid(grid)
    ensures Model1(grid).csp.vars == Model2(grid).csp.vars && |Model1(grid).csp.vars| == Cells(|grid|)
    ensures |Model1(grid).board| == |grid| && Model1(grid).board == Model2(grid).board
    ensures forall i, j :: 0 <= i < |grid| && 0 <= j < |grid| ==>
      && |Model1(grid).board[i]| == |grid| && Model1(grid).board[i][j] == Cell(|grid|, i, j)
      && Cell(|grid|, i, j) < Cells(|grid|)
      && Model1(grid).csp.vars[Cell(|grid|, i, j)] == CellVariable(Given(grid, i, j), |grid|)
  {
    var n := |grid|;
    forall i, j | 0 <= i < n && 0 <= j < n ensures Cell(n, i, j) < Cells(n) {
      CellBounds(n, i, j);
    }
  }
}
