/**
  Edge linking of the Canny filter: the border zeroing that precedes it, the recursive
  marking of weak pixels, and the loop over all pixels, run by one thread. Module
  CannyInterleaving has the parallel loop.

  Thresholds are real numbers: a pixel is a byte, which a float holds exactly.
*/
module Canny {
  import opened Bytes

  /** Whether linking keeps a pixel. */
  predicate Keeps(v: byte, low: real, high: real) {
    v as real >= low || v as real >= high
  }

  /** A zero pixel is not both weak and not strong, so no recursion starts at the border. */
  predicate SafeThresholds(low: real, high: real) {
    low > 0.0 || high <= 0.0
  }

  /** The guard of the recursive calls. */
  predicate Side(sideRow: int, sideCol: int, row: int, col: int, prevRow: int, prevCol: int) {
    sideCol != prevCol && sideRow != prevRow && sideCol != col && sideRow != row
  }

  // ---- What one call marks ----

  type Pixels = set<(int, int)>

  predicate Diagonal(dr: int, dc: int) {
    (dr == 1 || dr == -1) && (dc == 1 || dc == -1)
  }

  /** The pixels of `todo` from p on in one direction, up to the first that is not in it. */
  function Run(todo: Pixels, p: (int, int), dr: int, dc: int): (run: Pixels)
    ensures run <= todo
    decreases todo
  {
    if p !in todo then {} else {p} + Run(todo - {p}, (p.0 + dr, p.1 + dc), dr, dc)
  }

  /** Neighbour number k of a pixel in the order of the nested loops, with the pixel itself. */
  function Neighbour(row: int, col: int, k: nat): (int, int) {
    (row - 1 + k / 3, col - 1 + k % 3)
  }

  /** The run that starts at a neighbour, if the guard lets it through. */
  function RunAt(todo: Pixels, row: int, col: int, prevRow: int, prevCol: int, q: (int, int)): (run: Pixels)
    ensures run <= todo
  {
    if Side(q.0, q.1, row, col, prevRow, prevCol) then Run(todo, q, q.0 - row, q.1 - col) else {}
  }

  /** The runs that start at the first n neighbours. */
  function Runs(todo: Pixels, row: int, col: int, prevRow: int, prevCol: int, n: nat): (runs: Pixels)
    ensures runs <= todo
  {
    if n == 0 then {}
    else
      Runs(todo, row, col, prevRow, prevCol, n - 1)
      + RunAt(todo, row, col, prevRow, prevCol, Neighbour(row, col, n - 1))
  }

  /** What a call marks of the unmarked weak pixels. */
  function Marks(todo: Pixels, row: int, col: int, prevRow: int, prevCol: int): Pixels {
    if (row, col) !in todo then {}
    else {(row, col)} + Runs(todo - {(row, col)}, row, col, prevRow, prevCol, 9)
  }

  function Steps(from: int, to: int, d: int): int {
    if d == 1 then to - from else from - to
  }

  predicate OnRay(x: (int, int), p: (int, int), dr: int, dc: int) {
    0 <= Steps(p.0, x.0, dr) == Steps(p.1, x.1, dc)
  }

  lemma {:induction false} RunOnRay(todo: Pixels, p: (int, int), dr: int, dc: int)
    requires Diagonal(dr, dc)
    ensures forall x <- Run(todo, p, dr, dc) :: OnRay(x, p, dr, dc)
    decreases todo
  {
    if p in todo {
      RunOnRay(todo - {p}, (p.0 + dr, p.1 + dc), dr, dc);
    }
  }

  /** Pixels off its ray do not matter to a run. */
  lemma {:induction false} RunApart(todo: Pixels, others: Pixels, p: (int, int), dr: int, dc: int)
    requires Diagonal(dr, dc) && forall x <- others :: !OnRay(x, p, dr, dc)
    ensures Run(todo - others, p, dr, dc) == Run(todo, p, dr, dc)
    decreases todo
  {
    if p in todo {
      RunApart(todo - {p}, others, (p.0 + dr, p.1 + dc), dr, dc);
      assert todo - others - {p} == todo - {p} - others;
    }
  }

  /** A recursive call goes on in the direction it came in. */
  lemma RecursiveMarks(todo: Pixels, row: int, col: int, dr: int, dc: int)
    requires Diagonal(dr, dc)
    ensures Marks(todo, row, col, row - dr, col - dc) == Run(todo, (row, col), dr, dc)
  {
    if (row, col) in todo {
      var rest := todo - {(row, col)};
      OneSide(rest, row, col, dr, dc, 9);
    }
  }

  /** A call from the loop over all pixels starts a run in each diagonal direction. */
  lemma FirstMarks(todo: Pixels, row: int, col: int)
    requires (row, col) in todo
    ensures var rest := todo - {(row, col)};
      Marks(todo, row, col, row, col)
      == {(row, col)} + Run(rest, (row - 1, col - 1), -1, -1) + Run(rest, (row - 1, col + 1), -1, 1)
         + Run(rest, (row + 1, col - 1), 1, -1) + Run(rest, (row + 1, col + 1), 1, 1)
  {
    hide Run;
    var rest := todo - {(row, col)};
    RunsOf(rest, row, col, 0);
    RunsOf(rest, row, col, 2);
    RunsOf(rest, row, col, 4);
    RunsOf(rest, row, col, 6);
    RunsOf(rest, row, col, 7);
  }

  /** What neighbours n and n + 1 add to the runs of a call from the loop over all pixels. */
  lemma RunsOf(todo: Pixels, row: int, col: int, n: nat)
    ensures Runs(todo, row, col, row, col, n + 2)
         == Runs(todo, row, col, row, col, n)
            + RunAt(todo, row, col, row, col, Neighbour(row, col, n))
            + RunAt(todo, row, col, row, col, Neighbour(row, col, n + 1))
    ensures n == 0 ==> Runs(todo, row, col, row, col, n) == {}
  {
    hide Run, RunAt;
  }

  lemma {:induction false} OneSide(todo: Pixels, row: int, col: int, dr: int, dc: int, n: nat)
    requires Diagonal(dr, dc) && n <= 9
    ensures Runs(todo, row, col, row - dr, col - dc, n)
         == if 3 * (dr + 1) + dc + 1 < n then Run(todo, (row + dr, col + dc), dr, dc) else {}
  {
    hide Run;
    if n > 0 {
      OneSide(todo, row, col, dr, dc, n - 1);
    }
  }

  /** The run at one neighbour is not touched by those at the ones before. */
  lemma NextRun(todo: Pixels, row: int, col: int, prevRow: int, prevCol: int, n: nat)
    requires n < 9
    ensures var q := Neighbour(row, col, n);
      Side(q.0, q.1, row, col, prevRow, prevCol) ==>
        Diagonal(q.0 - row, q.1 - col)
        && Marks(todo - Runs(todo, row, col, prevRow, prevCol, n), q.0, q.1, row, col)
           == RunAt(todo, row, col, prevRow, prevCol, q)
  {
    var q := Neighbour(row, col, n);
    if Side(q.0, q.1, row, col, prevRow, prevCol) {
      var dr, dc := q.0 - row, q.1 - col;
      var before := Runs(todo, row, col, prevRow, prevCol, n);
      RunsApart(todo, row, col, prevRow, prevCol, n, dr, dc);
      RunApart(todo, before, q, dr, dc);
      RecursiveMarks(todo - before, q.0, q.1, dr, dc);
    }
  }

  lemma {:induction false} RunsApart(
      todo: Pixels, row: int, col: int, prevRow: int, prevCol: int, n: nat, dr: int, dc: int)
    requires Diagonal(dr, dc) && n <= 9 && n <= 3 * (dr + 1) + dc + 1
    ensures forall x <- Runs(todo, row, col, prevRow, prevCol, n) :: !OnRay(x, (row + dr, col + dc), dr, dc)
  {
    if n > 0 {
      RunsApart(todo, row, col, prevRow, prevCol, n - 1, dr, dc);
      var q := Neighbour(row, col, n - 1);
      if Side(q.0, q.1, row, col, prevRow, prevCol) {
        RunOnRay(todo, q, q.0 - row, q.1 - col);
      }
    }
  }

  lemma NoRuns(todo: Pixels, row: int, col: int, prevRow: int, prevCol: int)
    ensures Runs(todo, row, col, prevRow, prevCol, 0) == {}
  {
  }

  /** A turn of the inner loop: the next neighbour adds its run, as a recursive call marks it. */
  lemma RunsNext(todo: Pixels, row: int, col: int, prevRow: int, prevCol: int, sideRow: int, sideCol: int)
    requires row - 1 <= sideRow <= row + 1 && col - 1 <= sideCol <= col + 1
    ensures var n := 3 * (sideRow - row + 1) + (sideCol - col + 1);
      && Runs(todo, row, col, prevRow, prevCol, n + 1)
         == Runs(todo, row, col, prevRow, prevCol, n)
            + if Side(sideRow, sideCol, row, col, prevRow, prevCol)
              then Marks(todo - Runs(todo, row, col, prevRow, prevCol, n), sideRow, sideCol, row, col)
              else {}
  {
    var n := 3 * (sideRow - row + 1) + (sideCol - col + 1);
    assert Neighbour(row, col, n) == (sideRow, sideCol);
    NextRun(todo, row, col, prevRow, prevCol, n);
  }

  class EdgeDetection {
    const low: real
    const high: real
    const cannyEdges: array2<byte>

    constructor (low: real, high: real, edges: array2<byte>)
      ensures this.low == low && this.high == high && cannyEdges == edges
    {
      this.low, this.high, cannyEdges := low, high, edges;
    }

    predicate Inside(row: int, col: int) {
      0 <= row < cannyEdges.Length0 && 0 <= col < cannyEdges.Length1
    }

    predicate Border(row: int, col: int) {
      row == 0 || col == 0 || row == cannyEdges.Length0 - 1 || col == cannyEdges.Length1 - 1
    }

    /** The last statements of nonMaximumSuppression. */
    method ZeroBorder()
      requires cannyEdges.Length0 > 0 && cannyEdges.Length1 > 0
      modifies cannyEdges
      ensures forall i, j | Inside(i, j) :: cannyEdges[i, j] == if Border(i, j) then 0 else old(cannyEdges[i, j])
    {
      ZeroRow(0);
      ZeroRow(cannyEdges.Length0 - 1);
      ZeroCol(0);
      ZeroCol(cannyEdges.Length1 - 1);
    }

    method ZeroRow(row: int)
      requires 0 <= row < cannyEdges.Length0
      modifies cannyEdges
      ensures forall i, j | Inside(i, j) :: cannyEdges[i, j] == if i == row then 0 else old(cannyEdges[i, j])
    {
      for col := 0 to cannyEdges.Length1
        invariant forall i, j | Inside(i, j) ::
          cannyEdges[i, j] == if i == row && j < col then 0 else old(cannyEdges[i, j])
      {
        cannyEdges[row, col] := 0;
      }
    }

    method ZeroCol(col: int)
      requires 0 <= col < cannyEdges.Length1
      modifies cannyEdges
      ensures forall i, j | Inside(i, j) :: cannyEdges[i, j] == if j == col then 0 else old(cannyEdges[i, j])
    {
      for row := 0 to cannyEdges.Length0
        invariant forall i, j | Inside(i, j) ::
          cannyEdges[i, j] == if j == col && i < row then 0 else old(cannyEdges[i, j])
      {
        cannyEdges[row, col] := 0;
      }
    }

    /** The weak pixels not yet marked strong: each is marked at most once. */
    ghost function Unmarked(strong: array2<bool>, weak: array2<bool>): set<(int, int)>
      requires SameSize(strong, weak)
      reads strong, weak
    {
      set i, j | 0 <= i < cannyEdges.Length0 && 0 <= j < cannyEdges.Length1 && weak[i, j] && !strong[i, j] :: (i, j)
    }

    predicate SameSize(strong: array2<bool>, weak: array2<bool>) {
      && strong.Length0 == weak.Length0 == cannyEdges.Length0
      && strong.Length1 == weak.Length1 == cannyEdges.Length1
    }

    /**
      No weak pixel at the border is left to mark, so all neighbours of the others exist.
    */
    ghost predicate Guarded(strong: array2<bool>, weak: array2<bool>)
      requires SameSize(strong, weak)
      reads strong, weak
    {
      forall i, j | Inside(i, j) && Border(i, j) :: weak[i, j] ==> strong[i, j]
    }

    /** Marks only grow, by weak pixels; cleared pixels are neither weak nor strong. */
    twostate predicate Progress(strong: array2<bool>, weak: array2<bool>)
      requires SameSize(strong, weak)
      reads cannyEdges, strong, weak
    {
      && (forall i, j | Inside(i, j) :: strong[i, j] == old(strong[i, j]) || (strong[i, j] && weak[i, j]))
      && (forall i, j | Inside(i, j) ::
           cannyEdges[i, j] == old(cannyEdges[i, j]) || (cannyEdges[i, j] == 0 && !old(strong[i, j]) && !weak[i, j]))
    }

    predicate Settled(strong: array2<bool>, row: int, col: int)
      requires Inside(row, col) && strong.Length0 == cannyEdges.Length0 && strong.Length1 == cannyEdges.Length1
      reads cannyEdges, strong
    {
      strong[row, col] || cannyEdges[row, col] == 0
    }

    method CheckContours(strong: array2<bool>, weak: array2<bool>, row: int, col: int, prevRow: int, prevCol: int)
      requires SameSize(strong, weak) && strong != weak
      requires Inside(row, col) && Guarded(strong, weak)
      modifies cannyEdges, strong
      ensures Progress(strong, weak) && Settled(strong, row, col)
      ensures Unmarked(strong, weak)
           == old(Unmarked(strong, weak)) - Marks(old(Unmarked(strong, weak)), row, col, prevRow, prevCol)
      decreases Unmarked(strong, weak), 0
    {
      ghost var all := Unmarked(strong, weak);
      hide Runs;
      // the bridge is completed
      if strong[row, col] {
        return;
      }
      // no weak contour
      strong[row, col] := weak[row, col];
      if !strong[row, col] {
        cannyEdges[row, col] := 0;
        return;
      }
      assert !Border(row, col);
      ghost var todo := all - {(row, col)};
      assert (row, col) in all && Unmarked(strong, weak) == todo;
      CheckSides(strong, weak, row, col, prevRow, prevCol, todo);
    }

    /** The nested loops: all connected pixels but the previous one are checked for weak contours. */
    method CheckSides(strong: array2<bool>, weak: array2<bool>, row: int, col: int, prevRow: int, prevCol: int,
                      ghost todo: Pixels)
      requires SameSize(strong, weak) && strong != weak
      requires Inside(row, col) && !Border(row, col) && strong[row, col] && Guarded(strong, weak)
      requires Unmarked(strong, weak) == todo
      modifies cannyEdges, strong
      ensures Progress(strong, weak)
      ensures Unmarked(strong, weak) == todo - Runs(todo, row, col, prevRow, prevCol, 9)
      decreases todo, 2
    {
      NoRuns(todo, row, col, prevRow, prevCol);
      hide Runs, Unmarked;
      var sideRow := row - 1;
      while sideRow <= row + 1
        invariant row - 1 <= sideRow <= row + 2
        invariant Progress(strong, weak)
        invariant Unmarked(strong, weak) == todo - Runs(todo, row, col, prevRow, prevCol, 3 * (sideRow - row + 1))
        decreases row + 2 - sideRow
      {
        var sideCol := col - 1;
        while sideCol <= col + 1
          invariant col - 1 <= sideCol <= col + 2
          invariant Progress(strong, weak)
          invariant Unmarked(strong, weak)
            == todo - Runs(todo, row, col, prevRow, prevCol, 3 * (sideRow - row + 1) + (sideCol - col + 1))
          decreases col + 2 - sideCol
        {
          CheckSide(strong, weak, row, col, prevRow, prevCol, sideRow, sideCol, todo);
          sideCol := sideCol + 1;
        }
        sideRow := sideRow + 1;
      }
    }

    /** The body of the inner loop. */
    method CheckSide(strong: array2<bool>, weak: array2<bool>, row: int, col: int, prevRow: int, prevCol: int,
                     sideRow: int, sideCol: int, ghost todo: Pixels)
      requires SameSize(strong, weak) && strong != weak
      requires Inside(row, col) && !Border(row, col) && strong[row, col] && Guarded(strong, weak)
      requires row - 1 <= sideRow <= row + 1 && col - 1 <= sideCol <= col + 1
      requires Unmarked(strong, weak)
        == todo - Runs(todo, row, col, prevRow, prevCol, 3 * (sideRow - row + 1) + (sideCol - col + 1))
      modifies cannyEdges, strong
      ensures Progress(strong, weak)
      ensures Unmarked(strong, weak)
        == todo - Runs(todo, row, col, prevRow, prevCol, 3 * (sideRow - row + 1) + (sideCol - col + 1) + 1)
      decreases todo, 1
    {
      RunsNext(todo, row, col, prevRow, prevCol, sideRow, sideCol);
      hide Runs, Marks;
      if Side(sideRow, sideCol, row, col, prevRow, prevCol) {
        CheckContours(strong, weak, sideRow, sideCol, row, col);
      }
    }

    /** Each pixel is still as it was, or cleared for good reason; marks are of kept pixels. */
    twostate predicate Linking(new strong: array2<bool>, new weak: array2<bool>)
      requires SameSize(strong, weak)
      reads cannyEdges, strong, weak
    {
      && (forall i, j | Inside(i, j) :: weak[i, j] <==> old(cannyEdges[i, j]) as real >= low)
      && (forall i, j | Inside(i, j) :: strong[i, j] ==> Keeps(old(cannyEdges[i, j]), low, high))
      && (forall i, j | Inside(i, j) :: old(cannyEdges[i, j]) as real >= high ==> strong[i, j])
      && (forall i, j | Inside(i, j) ::
           cannyEdges[i, j] == old(cannyEdges[i, j])
           || (cannyEdges[i, j] == 0 && !Keeps(old(cannyEdges[i, j]), low, high)))
    }

    /** The first loop of applyLinkingAndHysteresis. */
    method Classify() returns (strong: array2<bool>, weak: array2<bool>)
      ensures fresh(strong) && fresh(weak) && SameSize(strong, weak) && strong != weak
      ensures forall i, j | Inside(i, j) :: strong[i, j] <==> cannyEdges[i, j] as real >= high
      ensures forall i, j | Inside(i, j) :: weak[i, j] <==> cannyEdges[i, j] as real >= low
    {
      strong := new bool[cannyEdges.Length0, cannyEdges.Length1];
      weak := new bool[cannyEdges.Length0, cannyEdges.Length1];
      for row := 0 to cannyEdges.Length0
        invariant forall i, j | Inside(i, j) && i < row :: strong[i, j] <==> cannyEdges[i, j] as real >= high
        invariant forall i, j | Inside(i, j) && i < row :: weak[i, j] <==> cannyEdges[i, j] as real >= low
      {
        for col := 0 to cannyEdges.Length1
          invariant forall i, j | Inside(i, j) && (i < row || (i == row && j < col)) ::
            strong[i, j] <==> cannyEdges[i, j] as real >= high
          invariant forall i, j | Inside(i, j) && (i < row || (i == row && j < col)) ::
            weak[i, j] <==> cannyEdges[i, j] as real >= low
        {
          var pixelValue := cannyEdges[row, col] as real;
          strong[row, col] := pixelValue >= high;
          weak[row, col] := pixelValue >= low;
        }
      }
    }

    /**
      applyLinkingAndHysteresis on an image with a zero border keeps exactly the pixels that
      reach a threshold.
    */
    method ApplyLinkingAndHysteresis()
      requires SafeThresholds(low, high)
      requires forall i, j | Inside(i, j) && Border(i, j) :: cannyEdges[i, j] == 0
      modifies cannyEdges
      ensures forall i, j | Inside(i, j) :: var v := old(cannyEdges[i, j]);
        cannyEdges[i, j] == if v as real >= low || v as real >= high then v else 0
    {
      var strong, weak := Classify();
      hide Marks, Unmarked;
      for row := 0 to cannyEdges.Length0
        invariant Linking(strong, weak)
        invariant forall i, j | Inside(i, j) && i < row :: Settled(strong, i, j)
      {
        for col := 0 to cannyEdges.Length1
          invariant Linking(strong, weak)
          invariant forall i, j | Inside(i, j) && (i < row || (i == row && j < col)) :: Settled(strong, i, j)
        {
          if !strong[row, col] {
            CheckContours(strong, weak, row, col, row, col);
          }
        }
      }
    }
  }
}
