/** The naive variant of the two-dimensional queue: the n x n grid is used
    as a flat buffer in which linear position i is cell (i // n, i % n); the
    queue always starts at (0, 0), and dequeue shifts every remaining element
    one position toward the front. */
module NaiveTwoDimensionalQueue {
  import opened Wrappers
  import opened Grid
  import Fifo

  /** What the cell at linear position k holds when the queue holds q. */
  function Slot(q: seq<string>, k: int): Option<string>
  {
    if 0 <= k < |q| then Some(q[k]) else None
  }

  /** Appending v changes only the slot at linear position |q|. */
  lemma SlotAfterWrite(q: seq<string>, v: string, p: Pos, w: Pos, n: int)
    requires n >= 1 && InGrid(p, n) && InGrid(w, n) && Linear(w, n) == |q|
    ensures Slot(q + [v], Linear(p, n)) == if p == w then Some(v) else Slot(q, Linear(p, n))
  {
    LinearInjective(p, w, n);
  }

  /** One step of dequeue's shift: copying linear position i + 1 into i
      extends the shifted prefix by one cell. */
  lemma ShiftCell(q: seq<string>, p: Pos, w: Pos, i: int, n: int, before: Option<string>)
    requires n >= 1 && InGrid(p, n) && InGrid(w, n) && Linear(w, n) == i
    requires before == if Linear(p, n) < i then Slot(q, Linear(p, n) + 1) else Slot(q, Linear(p, n))
    ensures (if p == w then Slot(q, i + 1) else before)
            == if Linear(p, n) < i + 1 then Slot(q, Linear(p, n) + 1) else Slot(q, Linear(p, n))
  {
    LinearInjective(p, w, n);
  }

  /** After the shift, clearing the last occupied position leaves the slots
      of the queue without its head. */
  lemma ClearLast(q: seq<string>, p: Pos, w: Pos, n: int, before: Option<string>)
    requires n >= 1 && InGrid(p, n) && InGrid(w, n) && |q| >= 1 && Linear(w, n) == |q| - 1
    requires before == if Linear(p, n) < |q| - 1 then Slot(q, Linear(p, n) + 1) else Slot(q, Linear(p, n))
    ensures (if p == w then None else before) == Slot(q[1..], Linear(p, n))
  {
    LinearInjective(p, w, n);
  }

  class NaiveTwoDimensionalQ {
    const n: int
    const capacity: int
    const grid: array2<Option<string>>
    var usage: int

    /** The payloads in FIFO order, oldest first. */
    ghost var Contents: seq<string>

    /** The object invariant: the first `usage` linear positions hold the
        contents in order and every later cell is empty. */
    ghost predicate Valid()
      reads this, grid
    {
      && n >= 1
      && grid.Length0 == n && grid.Length1 == n
      && capacity == n * n
      && usage == |Contents| <= capacity
      && forall r, c {:trigger grid[r, c]} :: 0 <= r < n && 0 <= c < n ==>
           grid[r, c] == Slot(Contents, Linear(Pos(r, c), n))
    }

    /** A new queue: capacity n*n, usage 0 and every cell empty. */
    constructor (n: int)
      requires n >= 1
      ensures Valid() && fresh(grid)
      ensures this.n == n && capacity == n * n && usage == 0
      ensures forall r, c {:trigger grid[r, c]} :: 0 <= r < n && 0 <= c < n ==> grid[r, c] == None
      ensures Contents == []
    {
      this.n := n;
      capacity := n * n;
      grid := new Option<string>[n, n]((r, c) => None);
      usage := 0;
      Contents := [];
    }

    function GetUsage(): (u: int)
      reads this, grid
      requires Valid()
      ensures u == |Contents| && 0 <= u <= capacity
    {
      usage
    }

    function GetCapacity(): (c: int)
      reads this, grid
      requires Valid()
      ensures c == n * n && c >= 1
    {
      CapacityPositive(n);
      capacity
    }

    /** Stores the value at linear position `usage`, that is at cell
        (usage // n, usage % n), unless the queue is full. */
    method Enqueue(v: string) returns (ok: bool)
      requires Valid()
      modifies this, grid
      ensures Valid()
      ensures ok <==> old(usage) < capacity
      ensures (Contents, Fifo.Enqueued(ok)) == Fifo.Step(old(Contents), capacity, Fifo.Enqueue(v))
      ensures forall r, c {:trigger grid[r, c]} :: 0 <= r < n && 0 <= c < n && (!ok || Linear(Pos(r, c), n) != old(usage)) ==>
                grid[r, c] == old(grid[r, c])
    {
      ok := usage < capacity;
      if ok {
        CoordInGrid(usage, n);
        var row := usage / n;
        var col := usage % n;
        grid[row, col] := Some(v);
        forall r, c | 0 <= r < n && 0 <= c < n
          ensures grid[r, c] == Slot(Contents + [v], Linear(Pos(r, c), n))
        {
          SlotAfterWrite(Contents, v, Pos(r, c), Pos(row, col), n);
        }
        usage := usage + 1;
        Contents := Contents + [v];
      }
    }

    /** Returns cell (0, 0) and shifts linear position i + 1 into i for every
        i < usage - 1, then clears position usage - 1; on an empty queue
        returns None and changes nothing. */
    method Dequeue() returns (v: Option<string>)
      requires Valid()
      modifies this, grid
      ensures Valid()
      ensures (Contents, Fifo.Dequeued(v)) == Fifo.Step(old(Contents), capacity, Fifo.Dequeue)
    {
      v := None;
      if usage > 0 {
        assert grid[0, 0] == Slot(Contents, Linear(Pos(0, 0), n));
        v := grid[0, 0];
        ShiftForward();
        CoordInGrid(usage - 1, n);
        var lastRow, lastCol := (usage - 1) / n, (usage - 1) % n;
        label shifted:
        grid[lastRow, lastCol] := None;
        forall r, c | 0 <= r < n && 0 <= c < n
          ensures grid[r, c] == Slot(Contents[1..], Linear(Pos(r, c), n))
        {
          ClearLast(Contents, Pos(r, c), Pos(lastRow, lastCol), n, old@shifted(grid[r, c]));
        }
        usage := usage - 1;
        Contents := Contents[1..];
      }
    }

    /** The shifting loop of dequeue: every linear position i < usage - 1
        receives the value of position i + 1; later cells keep theirs. */
    method ShiftForward()
      requires Valid() && usage > 0
      modifies grid
      ensures forall r, c {:trigger grid[r, c]} :: 0 <= r < n && 0 <= c < n ==>
                grid[r, c] == if Linear(Pos(r, c), n) < usage - 1 then Slot(Contents, Linear(Pos(r, c), n) + 1)
                              else Slot(Contents, Linear(Pos(r, c), n))
    {
      var i := 0;
      while i < usage - 1
        invariant 0 <= i <= usage - 1
        invariant forall r, c {:trigger grid[r, c]} :: 0 <= r < n && 0 <= c < n ==>
                    grid[r, c] == if Linear(Pos(r, c), n) < i then Slot(Contents, Linear(Pos(r, c), n) + 1)
                                  else Slot(Contents, Linear(Pos(r, c), n))
      {
        CoordInGrid(i, n);
        CoordInGrid(i + 1, n);
        var row, col := i / n, i % n;
        var nextRow, nextCol := (i + 1) / n, (i + 1) % n;
        label step:
        grid[row, col] := grid[nextRow, nextCol];
        forall r, c | 0 <= r < n && 0 <= c < n
          ensures grid[r, c] == if Linear(Pos(r, c), n) < i + 1 then Slot(Contents, Linear(Pos(r, c), n) + 1)
                                else Slot(Contents, Linear(Pos(r, c), n))
        {
          ShiftCell(Contents, Pos(r, c), Pos(row, col), i, n, old@step(grid[r, c]));
        }
        i := i + 1;
      }
    }

    /** The first `usage` linear cells, in order. */
    method ListQueue() returns (q: seq<string>)
      requires Valid()
      ensures q == Contents
    {
      q := [];
      for i := 0 to usage
        invariant q == Contents[..i]
      {
        CoordInGrid(i, n);
        var row := i / n;
        var col := i % n;
        q := q + [grid[row, col].value];
      }
    }
  }
}
