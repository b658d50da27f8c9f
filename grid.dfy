/** Row-major coordinates on an n x n grid, as used by both two-dimensional
    queues: a cell (row, col) stands for the linear position row * n + col, and
    a cursor advances one column at a time, moving to the next row when the
    column wraps back to 0. */
module Grid {

  /** A (row, column) cursor. */
  datatype Pos = Pos(row: int, col: int)

  predicate InGrid(p: Pos, n: int)
  {
    0 <= p.row < n && 0 <= p.col < n
  }

  /** The linear position of a cell in row-major order. */
  function Linear(p: Pos, n: int): int
  {
    p.row * n + p.col
  }

  /** The cell of linear position k: (k // n, k % n). */
  function Coord(k: int, n: int): Pos
    requires n > 0
  {
    Pos(k / n, k % n)
  }

  /** One row-major step: the column wraps modulo n, and the row moves (also
      modulo n) exactly when the column returns to 0. */
  function Next(p: Pos, n: int): Pos
    requires n > 0
  {
    var col := (p.col + 1) % n;
    Pos(if col == 0 then (p.row + 1) % n else p.row, col)
  }

  /** The front-cursor step as `dequeue` writes it: the row is incremented
      without reducing it modulo n. */
  function NextAsWritten(p: Pos, n: int): Pos
    requires n > 0
  {
    var col := (p.col + 1) % n;
    Pos(if col == 0 then p.row + 1 else p.row, col)
  }

  /** Reduces a position in [0, 2*cap) onto the ring [0, cap): the effect of
      `% cap` on such a position, written without division. */
  function Wrap(x: int, cap: int): int
  {
    if x >= cap then x - cap else x
  }

  /** The distance, walking forward around a ring of `cap` positions, from
      position f to position k (both in [0, cap)). */
  function Offset(k: int, f: int, cap: int): int
  {
    if k >= f then k - f else k - f + cap
  }

  lemma MulMonotone(a: int, b: int, n: int)
    requires a <= b && 0 <= n
    ensures a * n <= b * n
  {
    assert b * n - a * n == (b - a) * n;
  }

  lemma MulSucc(a: int, n: int)
    ensures (a + 1) * n == a * n + n
  {
  }

  lemma CapacityPositive(n: int)
    requires n >= 1
    ensures n * n >= 1
  {
    MulMonotone(1, n, n);
  }

  /** The last cell (n-1, n-1) has linear position n*n - 1. */
  lemma LastCell(n: int)
    ensures Linear(Pos(n - 1, n - 1), n) == n * n - 1
  {
    MulSucc(n - 1, n);
  }

  /** Row and column are the quotient and remainder of the linear position. */
  lemma LinearDivMod(p: Pos, n: int)
    requires n >= 1 && InGrid(p, n)
    ensures Linear(p, n) / n == p.row && Linear(p, n) % n == p.col
  {
    DivModUnique(Linear(p, n), n, p.row, p.col);
  }

  /** A cell on the grid has a linear position in [0, n*n). */
  lemma {:induction false} LinearInRange(p: Pos, n: int)
    requires n >= 1 && InGrid(p, n)
    ensures 0 <= Linear(p, n) < n * n
  {
    MulMonotone(0, p.row, n);
    MulMonotone(p.row, n - 1, n);
    LastCell(n);
  }

  /** Distinct cells have distinct linear positions. */
  lemma {:induction false} LinearInjective(p: Pos, q: Pos, n: int)
    requires n >= 1 && InGrid(p, n) && InGrid(q, n)
    ensures Linear(p, n) == Linear(q, n) <==> p == q
  {
    LinearDivMod(p, n);
    LinearDivMod(q, n);
  }

  /** Coord inverts Linear on [0, n*n): it yields a cell of the grid whose
      linear position is k. */
  lemma {:induction false} CoordInGrid(k: int, n: int)
    requires n >= 1 && 0 <= k < n * n
    ensures InGrid(Coord(k, n), n) && Linear(Coord(k, n), n) == k
  {
    var r := k / n;
    assert k == r * n + k % n;
    if r >= n {
      MulMonotone(n, r, n);
    }
    if r < 0 {
      MulMonotone(r, -1, n);
    }
  }

  /** Advancing a cursor by one step advances its linear position by one
      around the ring of n*n cells, and keeps it on the grid. */
  lemma {:induction false} NextLinear(p: Pos, n: int)
    requires n >= 1 && InGrid(p, n)
    ensures InGrid(Next(p, n), n)
    ensures Linear(Next(p, n), n) == Wrap(Linear(p, n) + 1, n * n)
  {
    LinearInRange(p, n);
    if p.col + 1 < n {
      DivModUnique(p.col + 1, n, 0, p.col + 1);
      LinearInRange(Pos(p.row, p.col + 1), n);
    } else {
      DivModUnique(p.col + 1, n, 1, 0);
      MulSucc(p.row, n);
      if p.row + 1 < n {
        DivModUnique(p.row + 1, n, 0, p.row + 1);
        LinearInRange(Pos(p.row + 1, 0), n);
      } else {
        DivModUnique(p.row + 1, n, 1, 0);
        LastCell(n);
      }
    }
  }

  /** The as-written step agrees with the wrapped one everywhere except at the
      last cell (n-1, n-1), from which it leaves the grid at (n, 0). */
  lemma {:induction false} NextAsWrittenDiffers(p: Pos, n: int)
    requires n >= 1 && InGrid(p, n)
    ensures NextAsWritten(p, n) == Next(p, n) <==> p != Pos(n - 1, n - 1)
    ensures p == Pos(n - 1, n - 1) ==> NextAsWritten(p, n) == Pos(n, 0) && !InGrid(NextAsWritten(p, n), n)
  {
    if p.col == n - 1 {
      DivModUnique(p.col + 1, n, 1, 0);
      if p.row == n - 1 {
        DivModUnique(p.row + 1, n, 1, 0);
      } else {
        DivModUnique(p.row + 1, n, 0, p.row + 1);
      }
    } else {
      DivModUnique(p.col + 1, n, 0, p.col + 1);
    }
  }

  /** The cursor after k wrapped steps from p. */
  function Steps(p: Pos, n: int, k: nat): Pos
    requires n > 0
  {
    if k == 0 then p else Next(Steps(p, n, k - 1), n)
  }

  /** The front cursor after k steps as `dequeue` writes them. */
  function StepsAsWritten(p: Pos, n: int, k: nat): Pos
    requires n > 0
  {
    if k == 0 then p else NextAsWritten(StepsAsWritten(p, n, k - 1), n)
  }

  /** Walking from (0, 0) visits the linear positions 0, 1, 2, ... in turn,
      and after a full lap of n*n steps the cursor is back at (0, 0). */
  lemma {:induction false} WrappedLap(n: int, k: nat)
    requires n >= 1 && k <= n * n
    ensures k < n * n ==> InGrid(Steps(Pos(0, 0), n, k), n) && Linear(Steps(Pos(0, 0), n, k), n) == k
    ensures k == n * n ==> Steps(Pos(0, 0), n, k) == Pos(0, 0)
  {
    CapacityPositive(n);
    if k > 0 {
      WrappedLap(n, k - 1);
      var p := Steps(Pos(0, 0), n, k - 1);
      NextLinear(p, n);
      if k == n * n {
        LinearInjective(Next(p, n), Pos(0, 0), n);
      }
    }
  }

  /** As written, the front cursor agrees with the wrapped one for the first
      n*n - 1 steps, and the n*n-th step takes it off the grid to (n, 0). */
  lemma {:induction false} AsWrittenLap(n: int, k: nat)
    requires n >= 1 && k <= n * n
    ensures k < n * n ==> StepsAsWritten(Pos(0, 0), n, k) == Steps(Pos(0, 0), n, k)
    ensures k == n * n ==> StepsAsWritten(Pos(0, 0), n, k) == Pos(n, 0)
    ensures k == n * n ==> !InGrid(StepsAsWritten(Pos(0, 0), n, k), n)
  {
    CapacityPositive(n);
    if k > 0 {
      AsWrittenLap(n, k - 1);
      WrappedLap(n, k - 1);
      var p := Steps(Pos(0, 0), n, k - 1);
      assert StepsAsWritten(Pos(0, 0), n, k) == NextAsWritten(p, n);
      LastCell(n);
      LinearInjective(p, Pos(n - 1, n - 1), n);
      NextAsWrittenDiffers(p, n);
      if k < n * n {
        assert p != Pos(n - 1, n - 1);
      } else {
        assert p == Pos(n - 1, n - 1);
      }
    }
  }

  /** Euclidean division is unique: a quotient and a remainder in [0, m)
      that recompose x are x / m and x % m. */
  lemma DivModUnique(x: int, m: int, q: int, r: int)
    requires m > 0 && 0 <= r < m && x == q * m + r
    ensures x / m == q && x % m == r
  {
    var q0, r0 := x / m, x % m;
    assert x == q0 * m + r0;
    if q0 < q {
      assert (q0 + 1) * m == q0 * m + m;
      MulMonotone(q0 + 1, q, m);
    } else if q < q0 {
      assert (q + 1) * m == q * m + m;
      MulMonotone(q + 1, q0, m);
    }
  }

  /** One more step around a ring of `cap` cells from a wrapped position. */
  lemma WrapStep(f: int, u: int, cap: int)
    requires 0 <= f < cap && 0 <= u < cap
    ensures Wrap(Wrap(f + u, cap) + 1, cap) == Wrap(f + u + 1, cap)
  {
  }
}
