/** The cursor variant of the two-dimensional circular queue: a FIFO of
    capacity n*n stored in an n x n grid, with a front cursor (next cell to
    dequeue), a back cursor (next cell to fill) and a usage count. Both
    cursors advance in row-major order, wrapping column and row modulo n. */
module TwoDimensionalQueue {
  import opened Wrappers
  import opened Grid
  import Fifo
  import opened Text

  /** What an occupied-or-empty cell at linear position k holds when the
      queue holds q starting at linear position f of a ring of cap cells. */
  function Occupant(q: seq<string>, f: int, cap: int, k: int): Option<string>
    requires cap > 0
  {
    var d := Offset(k, f, cap);
    if 0 <= d < |q| then Some(q[d]) else None
  }

  /** A cursor as Python prints a tuple of two ints: "(row, col)". The row
      is the run of digits after "(", the column the run between ", " and
      the closing ")", and both read back to the cursor's coordinates. */
  function PosText(p: Pos): (s: string)
    requires p.row >= 0 && p.col >= 0
    ensures StartsWith(s, "(") && s[|s| - 1] == ')'
    ensures exists i :: 1 < i && i + 2 < |s| - 1
              && IsDigits(s[1..i]) && DigitsValue(s[1..i]) == p.row
              && s[i..i + 2] == ", "
              && IsDigits(s[i + 2..|s| - 1]) && DigitsValue(s[i + 2..|s| - 1]) == p.col
  {
    NatToStringRoundTrip(p.row);
    NatToStringRoundTrip(p.col);
    PairPieces(NatToString(p.row), NatToString(p.col));
    "(" + NatToString(p.row) + ", " + NatToString(p.col) + ")"
  }

  /** Where the two numerals sit in "(r, c)". */
  lemma PairPieces(r: string, c: string)
    requires |r| >= 1 && |c| >= 1
    ensures var s := "(" + r + ", " + c + ")";
            var i := 1 + |r|;
            && StartsWith(s, "(") && s[|s| - 1] == ')' && i + 2 < |s| - 1
            && s[1..i] == r && s[i..i + 2] == ", " && s[i + 2..|s| - 1] == c
  {
    var s := "(" + r + ", " + c + ")";
    assert s == "(" + (r + (", " + (c + ")")));
  }

  /** Enqueueing v changes only the occupant of the back cell. */
  lemma OccupantAfterEnqueue(q: seq<string>, v: string, p: Pos, front: Pos, back: Pos, n: int)
    requires n >= 1 && InGrid(p, n) && InGrid(front, n) && InGrid(back, n) && |q| < n * n
    requires Linear(back, n) == Wrap(Linear(front, n) + |q|, n * n)
    ensures Occupant(q + [v], Linear(front, n), n * n, Linear(p, n))
            == if p == back then Some(v) else Occupant(q, Linear(front, n), n * n, Linear(p, n))
  {
    LinearInRange(p, n);
    LinearInRange(front, n);
    LinearInjective(p, back, n);
  }

  /** Dequeueing empties the front cell and moves the origin of every other
      occupant one step forward. */
  lemma OccupantAfterDequeue(q: seq<string>, p: Pos, front: Pos, n: int)
    requires n >= 1 && InGrid(p, n) && InGrid(front, n) && 0 < |q| <= n * n
    ensures InGrid(Next(front, n), n)
    ensures Occupant(q[1..], Linear(Next(front, n), n), n * n, Linear(p, n))
            == if p == front then None else Occupant(q, Linear(front, n), n * n, Linear(p, n))
  {
    LinearInRange(p, n);
    LinearInRange(front, n);
    LinearInjective(p, front, n);
    NextLinear(front, n);
  }

  /** The cell i steps from the front holds the i-th payload. */
  lemma OccupantAtStep(q: seq<string>, f: int, cap: int, i: int)
    requires 0 <= f < cap && 0 <= i < |q| <= cap
    ensures Occupant(q, f, cap, Wrap(f + i, cap)) == Some(q[i])
  {
  }

  class TwoDimensionalQ {
    /** The grid side. */
    const n: int
    const capacity: int
    /** The n x n grid of cells; a cell is None when unoccupied. */
    const grid: array2<Option<string>>
    var usage: int
    var front: Pos
    var back: Pos

    /** The payloads in FIFO order, oldest first. */
    ghost var Contents: seq<string>

    /** The object invariant: usage counts the contents, the back cursor is
        `usage` steps after the front cursor around the ring, and a cell is
        occupied exactly when it lies within `usage` steps of the front, in
        which case it holds the corresponding payload. */
    ghost predicate Valid()
      reads this, grid
    {
      && n >= 1
      && grid.Length0 == n && grid.Length1 == n
      && capacity == n * n
      && InGrid(front, n) && InGrid(back, n)
      && usage == |Contents| <= capacity
      && Linear(back, n) == Wrap(Linear(front, n) + usage, capacity)
      && forall r, c {:trigger grid[r, c]} :: 0 <= r < n && 0 <= c < n ==>
           grid[r, c] == Occupant(Contents, Linear(front, n), capacity, Linear(Pos(r, c), n))
    }

    /** A new queue: capacity n*n, usage 0, both cursors at (0, 0) and every
        cell empty. */
    constructor (n: int)
      requires n >= 1
      ensures Valid() && fresh(grid)
      ensures this.n == n && capacity == n * n && usage == 0
      ensures front == Pos(0, 0) && back == Pos(0, 0)
      ensures forall r, c {:trigger grid[r, c]} :: 0 <= r < n && 0 <= c < n ==> grid[r, c] == None
      ensures Contents == []
    {
      this.n := n;
      capacity := n * n;
      grid := new Option<string>[n, n]((r, c) => None);
      usage := 0;
      front := Pos(0, 0);
      back := Pos(0, 0);
      Contents := [];
      new;
      CapacityPositive(n);
    }

    function GetUsage(): (u: int)
      reads this, grid
      requires Valid()
      ensures u == |Contents| && 0 <= u <= capacity
    {
      usage
    }

    function GetCapacity(): (c: int)
      reads this, grid
      requires Valid()
      ensures c == n * n && c >= 1
    {
      CapacityPositive(n);
      capacity
    }

    function IsFull(): (b: bool)
      reads this, grid
      requires Valid()
      ensures b <==> |Contents| == n * n
    {
      usage == capacity
    }

    function IsEmpty(): (b: bool)
      reads this, grid
      requires Valid()
      ensures b <==> Contents == []
    {
      usage == 0
    }

    /** `__len__`: the usage. */
    function Length(): (k: int)
      reads this, grid
      requires Valid()
      ensures k == |Contents|
    {
      GetUsage()
    }

    /** `__bool__`: the queue is truthy exactly when it is not empty. */
    function IsTruthy(): (b: bool)
      reads this, grid
      requires Valid()
      ensures b <==> |Contents| > 0
    {
      !IsEmpty()
    }

    /** The oldest payload, without removing it; None when empty. */
    function Peek(): (v: Option<string>)
      reads this, grid
      requires Valid()
      ensures v == if |Contents| > 0 then Some(Contents[0]) else None
    {
      if usage > 0 then
        LinearInRange(front, n);
        grid[front.row, front.col]
      else None
    }

    /** `__repr__`, which `__str__` also returns: the grid size, capacity,
        usage and both cursors. */
    function Repr(): (s: string)
      reads this, grid
      requires Valid()
      ensures StartsWith(s, "Queue size " + NatToString(n) + "x" + NatToString(n) + "; capacity: ")
      ensures |s| > 5
    {
      "Queue size " + NatToString(n) + "x" + NatToString(n) + "; capacity: " + NatToString(capacity)
        + "; usage:" + NatToString(usage) + "; front is at " + PosText(front) + "; back is at " + PosText(back)
    }

    /** Adds a value at the back. On a full queue returns False and changes
        nothing; otherwise writes the back cell, advances the back cursor one
        row-major step and returns True. */
    method Enqueue(v: string) returns (ok: bool)
      requires Valid()
      modifies this, grid
      ensures Valid()
      ensures ok <==> old(usage) < capacity
      ensures (Contents, Fifo.Enqueued(ok)) == Fifo.Step(old(Contents), capacity, Fifo.Enqueue(v))
      ensures front == old(front)
      ensures back == if ok then Next(old(back), n) else old(back)
      ensures ok ==> grid[old(back).row, old(back).col] == Some(v)
      ensures forall r, c {:trigger grid[r, c]} :: 0 <= r < n && 0 <= c < n && (!ok || Pos(r, c) != old(back)) ==>
                grid[r, c] == old(grid[r, c])
    {
      ok := usage < capacity;
      if ok {
        ghost var f := Linear(front, n);
        grid[back.row, back.col] := Some(v);
        forall r, c | 0 <= r < n && 0 <= c < n
          ensures grid[r, c] == Occupant(Contents + [v], f, capacity, Linear(Pos(r, c), n))
        {
          OccupantAfterEnqueue(Contents, v, Pos(r, c), front, back, n);
        }
        LinearInRange(front, n);
        WrapStep(f, usage, capacity);
        usage := usage + 1;
        NextLinear(back, n);
        back := Next(back, n);
        Contents := Contents + [v];
      }
    }

    /** Removes and returns the front value. On an empty queue returns None
        and changes nothing; otherwise clears the front cell and advances the
        front cursor one row-major step, wrapping as the back cursor does. */
    method Dequeue() returns (v: Option<string>)
      requires Valid()
      modifies this, grid
      ensures Valid()
      ensures (Contents, Fifo.Dequeued(v)) == Fifo.Step(old(Contents), capacity, Fifo.Dequeue)
      ensures back == old(back)
      ensures front == if old(usage) > 0 then Next(old(front), n) else old(front)
      ensures old(usage) > 0 ==> grid[old(front).row, old(front).col] == None
      ensures forall r, c {:trigger grid[r, c]} :: 0 <= r < n && 0 <= c < n && (old(usage) == 0 || Pos(r, c) != old(front)) ==>
                grid[r, c] == old(grid[r, c])
    {
      v := None;
      if usage > 0 {
        LinearInRange(front, n);
        OccupantAtStep(Contents, Linear(front, n), capacity, 0);
        v := grid[front.row, front.col];
        grid[front.row, front.col] := None;
        NextLinear(front, n);
        forall r, c | 0 <= r < n && 0 <= c < n
          ensures grid[r, c] == Occupant(Contents[1..], Linear(Next(front, n), n), capacity, Linear(Pos(r, c), n))
        {
          OccupantAfterDequeue(Contents, Pos(r, c), front, n);
        }
        usage := usage - 1;
        front := Next(front, n);
        Contents := Contents[1..];
      }
    }

    /** The payloads from front to back, walking `usage` cells row-major from
        the front cursor and wrapping at the grid's edges. */
    method ListQueue() returns (q: seq<string>)
      requires Valid()
      ensures q == Contents
    {
      q := [];
      var row, col := front.row, front.col;
      ghost var f := Linear(front, n);
      LinearInRange(front, n);
      var i := 0;
      while i < usage
        invariant 0 <= i <= usage
        invariant InGrid(Pos(row, col), n)
        invariant Linear(Pos(row, col), n) == Wrap(f + i, capacity)
        invariant q == Contents[..i]
      {
        OccupantAtStep(Contents, f, capacity, i);
        q := q + [grid[row, col].value];
        ghost var here := Pos(row, col);
        NextLinear(here, n);
        WrapStep(f, i, capacity);
        col := (col + 1) % n;
        row := if col == 0 then (row + 1) % n else row;
        assert Pos(row, col) == Next(here, n);
        i := i + 1;
      }
    }

    /** `__iter__`: the same walk as ListQueue, skipping empty cells; by the
        invariant no cell within `usage` steps of the front is empty, so it
        yields exactly the contents. */
    method Items() returns (items: seq<string>)
      requires Valid()
      ensures items == Contents
    {
      items := [];
      var count := 0;
      var row, col := front.row, front.col;
      ghost var f := Linear(front, n);
      LinearInRange(front, n);
      while count < usage
        invariant 0 <= count <= usage
        invariant InGrid(Pos(row, col), n)
        invariant Linear(Pos(row, col), n) == Wrap(f + count, capacity)
        invariant items == Contents[..count]
      {
        OccupantAtStep(Contents, f, capacity, count);
        var value := grid[row, col];
        if value.Some? {
          items := items + [value.value];
        }
        ghost var here := Pos(row, col);
        NextLinear(here, n);
        WrapStep(f, count, capacity);
        col := (col + 1) % n;
        row := if col == 0 then (row + 1) % n else row;
        assert Pos(row, col) == Next(here, n);
        count := count + 1;
      }
    }

    /** The cursors coincide exactly when the queue is empty or full, so only
        the usage tells those two states apart. */
    lemma CursorsMeet()
      requires Valid()
      ensures front == back <==> (usage == 0 || usage == capacity)
    {
      LinearInRange(front, n);
      LinearInRange(back, n);
      LinearInjective(front, back, n);
    }

    /** An empty queue has every cell empty; a full one has every cell
        occupied. */
    lemma EmptyOrFullCells()
      requires Valid()
      ensures usage == 0 ==> forall r, c {:trigger grid[r, c]} :: 0 <= r < n && 0 <= c < n ==> grid[r, c] == None
      ensures usage == capacity ==> forall r, c {:trigger grid[r, c]} :: 0 <= r < n && 0 <= c < n ==> grid[r, c].Some?
    {
      forall r, c | 0 <= r < n && 0 <= c < n
        ensures 0 <= Offset(Linear(Pos(r, c), n), Linear(front, n), capacity) < capacity
      {
        LinearInRange(front, n);
        LinearInRange(Pos(r, c), n);
      }
    }
  }
}
