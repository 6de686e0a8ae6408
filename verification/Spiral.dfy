/** The spiral fill of arrays/task4.c, for every matrix size. */
module Spiral {

  function Min(a: int, b: int): int {
    if a < b then a else b
  }

  predicate InGrid(n: nat, i: int, j: int) {
    0 <= i < n && 0 <= j < n
  }

  /** How many rings lie outside the one a cell belongs to. */
  function Ring(n: nat, i: int, j: int): int {
    Min(Min(i, j), Min(n - 1 - i, n - 1 - j))
  }

  /** Side of ring k, zero past the centre. */
  function Side(n: nat, k: nat): nat {
    if n >= 2 * k then n - 2 * k else 0
  }

  /** A ring of side m >= 2 has 4m - 4 cells, the single centre cell one. */
  function RingSize(n: nat, k: nat): nat {
    var m := Side(n, k);
    if m <= 1 then m else 4 * m - 4
  }

  /** The first value of ring k. */
  function Start(n: nat, k: nat): int {
    if k == 0 then 1 else Start(n, k - 1) + RingSize(n, k - 1)
  }

  /** Clockwise offset of a cell along its ring. */
  function Offset(n: nat, i: int, j: int): int
    requires InGrid(n, i, j)
  {
    var k := Ring(n, i, j);
    var last, edge := n - 1 - k, Side(n, k) - 1;
    if i == k then j - k
    else if j == last then edge + (i - k)
    else if i == last then 2 * edge + (last - j)
    else 3 * edge + (last - i)
  }

  /** What the matrix is to hold: the start of the cell's ring plus the offset there. */
  function Cell(n: nat, i: int, j: int): int
    requires InGrid(n, i, j)
  {
    Start(n, Ring(n, i, j)) + Offset(n, i, j)
  }

  /** The same in closed form. */
  lemma CellClosedForm(n: nat, i: int, j: int)
    requires InGrid(n, i, j)
    ensures var k := Min(Min(i, j), Min(n - 1 - i, n - 1 - j));
            var m := n - 2 * k;
            m >= 1 && Cell(n, i, j) == 1 + n * n - m * m + Offset(n, i, j)
  {
    StartClosed(n, Ring(n, i, j));
  }

  /** The outer rings of a square hold what is left of it when the inner square is taken out. */
  lemma {:induction false} StartClosed(n: nat, k: nat)
    ensures Start(n, k) == 1 + n * n - Side(n, k) * Side(n, k)
  {
    if k > 0 {
      StartClosed(n, k - 1);
      SquareStep(Side(n, k - 1), Side(n, k));
    }
  }

  lemma SquareStep(m: int, next: int)
    requires m >= 0 && next == if m >= 2 then m - 2 else 0
    ensures m * m - next * next == if m <= 1 then m else 4 * m - 4
  {
    if m >= 2 {
      assert (m - 2) * (m - 2) == m * m - 4 * m + 4;
    }
  }

  lemma SquarePositive(m: nat)
    ensures m * m >= 0 && (m > 0 <==> m * m > 0)
  {
    if m > 0 {
      assert m * m >= m;
    }
  }

  lemma StartBelow(n: nat, k: nat)
    ensures Start(n, k) <= n * n <==> Side(n, k) > 0
    ensures Start(n, k) <= n * n + 1
  {
    StartClosed(n, k);
    SquarePositive(Side(n, k));
  }

  /** The values 1 .. value - 1 have been written, each to the cell the closed form gives it. */
  ghost predicate Written(matrix: array2<int>, n: nat, value: int, writes: seq<(int, int)>)
    requires matrix.Length0 == matrix.Length1 == n
    reads matrix
  {
    && value == |writes| + 1
    && forall v :: 0 <= v < |writes| ==>
         && InGrid(n, writes[v].0, writes[v].1)
         && Cell(n, writes[v].0, writes[v].1) == v + 1
         && matrix[writes[v].0, writes[v].1] == v + 1
  }

  // The closed form along the four sides of ring k, as the loops walk them.

  lemma TopCell(n: nat, k: nat, j: int)
    requires k <= j <= n - 1 - k
    ensures Cell(n, k, j) == Start(n, k) + (j - k)
  {
  }

  lemma RightCell(n: nat, k: nat, i: int)
    requires k + 1 <= i <= n - 1 - k
    ensures Cell(n, i, n - 1 - k) == Start(n, k) + Side(n, k) + (i - (k + 1))
  {
  }

  lemma BottomCell(n: nat, k: nat, j: int)
    requires k <= j <= n - 2 - k
    ensures Cell(n, n - 1 - k, j) == Start(n, k) + 2 * Side(n, k) - 1 + (n - 2 - k - j)
  {
  }

  lemma LeftCell(n: nat, k: nat, i: int)
    requires k + 1 <= i <= n - 2 - k
    ensures Cell(n, i, k) == Start(n, k) + 3 * Side(n, k) - 2 + (n - 2 - k - i)
  {
  }

  /** The statement in the body of every inner loop: store the value and count on. */
  method Put(matrix: array2<int>, n: nat, i: int, j: int, value: int, ghost writes: seq<(int, int)>)
    returns (next: int, ghost written: seq<(int, int)>)
    requires matrix.Length0 == matrix.Length1 == n
    requires Written(matrix, n, value, writes)
    requires InGrid(n, i, j) && Cell(n, i, j) == value
    modifies matrix
    ensures next == value + 1 && written == writes + [(i, j)]
    ensures Written(matrix, n, next, written)
  {
    matrix[i, j] := value;
    next, written := value + 1, writes + [(i, j)];
  }

  /** One round of the outer loop, for ring k. */
  method Lap(matrix: array2<int>, n: nat, ghost k: nat, first: int, ghost before: seq<(int, int)>,
             top0: int, bottom0: int, left0: int, right0: int)
    returns (value: int, top: int, bottom: int, left: int, right: int, ghost writes: seq<(int, int)>)
    requires matrix.Length0 == matrix.Length1 == n
    requires top0 == left0 == k && bottom0 == right0 == n - 1 - k && Side(n, k) > 0
    requires first == Start(n, k) && Written(matrix, n, first, before)
    modifies matrix
    ensures top == left == k + 1 && bottom == right == n - 2 - k
    ensures value == Start(n, k + 1) && Written(matrix, n, value, writes)
  {
    value, top, bottom, left, right, writes := first, top0, bottom0, left0, right0, before;
    for i := left to right + 1
      invariant value == first + (i - left)
      invariant Written(matrix, n, value, writes)
    {
      TopCell(n, k, i);
      value, writes := Put(matrix, n, top, i, value, writes);
    }
    top := top + 1;
    for i := top to bottom + 1
      invariant value == first + Side(n, k) + (i - top)
      invariant Written(matrix, n, value, writes)
    {
      RightCell(n, k, i);
      value, writes := Put(matrix, n, i, right, value, writes);
    }
    right := right - 1;
    var i := right;
    while i >= left
      invariant left - 1 <= i <= right
      invariant value == first + 2 * Side(n, k) - 1 + (right - i)
      invariant Written(matrix, n, value, writes)
    {
      BottomCell(n, k, i);
      value, writes := Put(matrix, n, bottom, i, value, writes);
      i := i - 1;
    }
    bottom := bottom - 1;
    i := bottom;
    while i >= top
      invariant i <= bottom && (i >= top - 1 || i == bottom)
      invariant value == first + (if Side(n, k) == 1 then 1 else 3 * Side(n, k) - 2 + (bottom - i))
      invariant Written(matrix, n, value, writes)
    {
      LeftCell(n, k, i);
      value, writes := Put(matrix, n, i, left, value, writes);
      i := i - 1;
    }
    left := left + 1;
  }

  /** The fill loop. `writes` lists the cells in the order they are written and `laps` counts the
      rounds of the outer loop. */
  method Fill(n: nat) returns (matrix: array2<int>, ghost writes: seq<(int, int)>, ghost laps: nat)
    ensures fresh(matrix) && matrix.Length0 == matrix.Length1 == n
    ensures forall i, j :: InGrid(n, i, j) ==> matrix[i, j] == Cell(n, i, j)
    ensures |writes| == n * n
    ensures forall v :: 0 <= v < |writes| ==>
              InGrid(n, writes[v].0, writes[v].1) && Cell(n, writes[v].0, writes[v].1) == v + 1
    ensures forall u, v :: 0 <= u < v < |writes| ==> writes[u] != writes[v]
    ensures laps == (n + 1) / 2
  {
    matrix := new int[n, n];
    writes, laps := [], 0;
    var value := 1;
    var top, bottom, left, right := 0, n - 1, 0, n - 1;
    StartBelow(n, 0);
    while value <= n * n
      invariant top == left == laps && bottom == right == n - 1 - laps
      invariant 2 * laps <= n + 1
      invariant value == Start(n, laps)
      invariant Written(matrix, n, value, writes)
      decreases n - laps
    {
      StartBelow(n, laps);
      value, top, bottom, left, right, writes :=
        Lap(matrix, n, laps, value, writes, top, bottom, left, right);
      laps := laps + 1;
    }
    StartBelow(n, laps);
    AllFilled(matrix, n, value, writes);
  }

  /** The cell of the value lying `offset` places after the start of ring k. */
  function RingCell(n: nat, k: nat, offset: nat): (int, int)
    requires offset < RingSize(n, k)
  {
    var last, edge := n - 1 - k, Side(n, k) - 1;
    if offset <= edge then (k, k + offset)
    else if offset <= 2 * edge then (k + offset - edge, last)
    else if offset <= 3 * edge then (last, last - (offset - 2 * edge))
    else (last - (offset - 3 * edge), k)
  }

  /** The cell holding value v, looked for from ring k inwards. */
  function CellOf(n: nat, k: nat, v: int): (int, int)
    requires Start(n, k) <= v <= n * n
    decreases n - k
  {
    StartBelow(n, k);
    if v < Start(n, k + 1) then RingCell(n, k, v - Start(n, k)) else CellOf(n, k + 1, v)
  }

  lemma RingCellHolds(n: nat, k: nat, offset: nat)
    requires offset < RingSize(n, k)
    ensures var (i, j) := RingCell(n, k, offset);
            InGrid(n, i, j) && Ring(n, i, j) == k && Cell(n, i, j) == Start(n, k) + offset
  {
  }

  /** Every value from 1 to n * n has a cell (k = 0). */
  lemma {:induction false} CellOfHolds(n: nat, k: nat, v: int)
    requires Start(n, k) <= v <= n * n
    ensures var (i, j) := CellOf(n, k, v); InGrid(n, i, j) && Cell(n, i, j) == v
    decreases n - k
  {
    StartBelow(n, k);
    if v < Start(n, k + 1) {
      RingCellHolds(n, k, v - Start(n, k));
    } else {
      CellOfHolds(n, k + 1, v);
    }
  }

  lemma CellInRing(n: nat, i: int, j: int)
    requires InGrid(n, i, j)
    ensures var k := Ring(n, i, j);
            && k >= 0 && Side(n, k) > 0
            && Start(n, k) <= Cell(n, i, j) < Start(n, k + 1)
            && RingCell(n, k, Cell(n, i, j) - Start(n, k)) == (i, j)
  {
  }

  lemma StartMonotone(n: nat, j: nat, k: nat)
    requires j <= k
    ensures Start(n, j) <= Start(n, k)
    decreases k - j
  {
    if j < k {
      StartMonotone(n, j + 1, k);
    }
  }

  lemma CellOfDeeper(n: nat, k: nat, v: int)
    requires Start(n, k + 1) <= v <= n * n
    ensures Start(n, k) <= v
    ensures CellOf(n, k, v) == CellOf(n, k + 1, v)
  {
    StartMonotone(n, k, k + 1);
  }

  lemma CellOfInRing(n: nat, i: int, j: int)
    requires InGrid(n, i, j)
    ensures var k, v := Ring(n, i, j), Cell(n, i, j);
            k >= 0 && Start(n, k) <= v <= n * n && CellOf(n, k, v) == (i, j)
  {
    CellInRing(n, i, j);
    StartBelow(n, Ring(n, i, j) + 1);
  }

  /** The search for a value passes the outer rings by. */
  lemma {:induction false} CellOfDescends(n: nat, k: nat, ring: nat, v: int)
    requires k <= ring && Start(n, ring) <= v <= n * n
    ensures Start(n, k) <= v && CellOf(n, k, v) == CellOf(n, ring, v)
    decreases ring - k
  {
    if k < ring {
      CellOfDescends(n, k + 1, ring, v);
      CellOfDeeper(n, k, v);
    }
  }

  /** The closed form is a bijection between the cells and 1 .. n * n. */
  lemma Bijection(n: nat, i: int, j: int)
    requires InGrid(n, i, j)
    ensures 1 <= Cell(n, i, j) <= n * n
    ensures CellOf(n, 0, Cell(n, i, j)) == (i, j)
  {
    CellOfInRing(n, i, j);
    CellOfDescends(n, 0, Ring(n, i, j), Cell(n, i, j));
  }

  lemma Filled(matrix: array2<int>, n: nat, value: int, writes: seq<(int, int)>, i: int, j: int)
    requires matrix.Length0 == matrix.Length1 == n
    requires Written(matrix, n, value, writes) && value == n * n + 1 && InGrid(n, i, j)
    ensures matrix[i, j] == Cell(n, i, j)
  {
    Bijection(n, i, j);
    var v := Cell(n, i, j) - 1;
    Bijection(n, writes[v].0, writes[v].1);
  }

  lemma AllFilled(matrix: array2<int>, n: nat, value: int, writes: seq<(int, int)>)
    requires matrix.Length0 == matrix.Length1 == n
    requires Written(matrix, n, value, writes) && value == n * n + 1
    ensures forall i, j :: InGrid(n, i, j) ==> matrix[i, j] == Cell(n, i, j)
  {
    forall i, j | InGrid(n, i, j) ensures matrix[i, j] == Cell(n, i, j) {
      Filled(matrix, n, value, writes, i, j);
    }
  }

  /** The outermost ring, side by side: along the top row, down the last column, back along the
      bottom row, up the first column. */
  lemma OuterRing(n: nat, x: nat)
    requires x < n
    ensures Cell(n, 0, x) == 1 + x
    ensures Cell(n, x, n - 1) == n + x
    ensures Cell(n, n - 1, n - 1 - x) == if n == 1 then 1 else 2 * n - 1 + x
    ensures x > 0 ==> Cell(n, n - 1 - x, 0) == if x == n - 1 then 1 else 3 * n - 2 + x
  {
  }

  lemma {:induction false} InnerStart(n: nat, k: nat)
    requires n >= 2
    ensures Start(n, k + 1) == Start(n - 2, k) + 4 * n - 4
  {
    if k > 0 {
      InnerStart(n, k - 1);
    }
  }

  /** Inside it lies the spiral of the next smaller size, with its values moved up by the length of
      the outermost ring. */
  lemma InnerSpiral(n: nat, i: int, j: int)
    requires n >= 2 && InGrid(n - 2, i, j)
    ensures Cell(n, i + 1, j + 1) == Cell(n - 2, i, j) + 4 * n - 4
  {
    InnerStart(n, Ring(n - 2, i, j));
  }

  function Abs(x: int): nat {
    if x < 0 then -x else x
  }

  predicate Adjacent(c: (int, int), d: (int, int)) {
    Abs(c.0 - d.0) + Abs(c.1 - d.1) == 1
  }

  lemma AdjacentHere(n: nat, k: nat, v: int, offset: nat)
    requires v == Start(n, k) + offset && v + 1 < Start(n, k + 1) && v < n * n
    ensures Adjacent(CellOf(n, k, v), CellOf(n, k, v + 1))
  {
  }

  /** The last cell of a ring touches the first cell of the next one. */
  lemma StepInwards(n: nat, k: nat)
    requires Side(n, k + 1) > 0
    ensures Start(n, k) < Start(n, k + 1) <= n * n
    ensures CellOf(n, k, Start(n, k + 1) - 1) == (k + 1, k)
    ensures CellOf(n, k, Start(n, k + 1)) == (k + 1, k + 1)
  {
    StartBelow(n, k + 1);
  }

  lemma AdjacentAcross(n: nat, k: nat, v: int)
    requires v + 1 == Start(n, k + 1) && Start(n, k) <= v < n * n
    ensures Adjacent(CellOf(n, k, v), CellOf(n, k, v + 1))
  {
    StartBelow(n, k + 1);
    StepInwards(n, k);
  }

  lemma AdjacentDeeper(n: nat, k: nat, v: int)
    requires Start(n, k + 1) <= v < n * n
    requires Adjacent(CellOf(n, k + 1, v), CellOf(n, k + 1, v + 1))
    ensures Start(n, k) <= v && Adjacent(CellOf(n, k, v), CellOf(n, k, v + 1))
  {
    CellOfDeeper(n, k, v);
    CellOfDeeper(n, k, v + 1);
  }

  lemma MoreRings(n: nat, k: nat, v: int)
    requires Start(n, k) <= v < n * n
    ensures k < n
  {
    StartBelow(n, k);
  }

  /** Consecutive values lie in cells that share an edge. */
  lemma {:induction false} ConsecutiveAreAdjacent(n: nat, k: nat, v: int)
    requires Start(n, k) <= v < n * n
    ensures Adjacent(CellOf(n, k, v), CellOf(n, k, v + 1))
    decreases n - k
  {
    if v + 1 < Start(n, k + 1) {
      AdjacentHere(n, k, v, v - Start(n, k));
    } else if v + 1 == Start(n, k + 1) {
      AdjacentAcross(n, k, v);
    } else {
      MoreRings(n, k + 1, v);
      ConsecutiveAreAdjacent(n, k + 1, v);
      AdjacentDeeper(n, k, v);
    }
  }
}
