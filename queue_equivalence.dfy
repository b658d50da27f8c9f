/** The naive queue as a reference for the cursor queue: driven by the same
    calls, both give the same replies and list the same contents at every
    point, namely those of the abstract bounded FIFO. */
module QueueEquivalence {
  import Fifo
  import opened TwoDimensionalQueue
  import opened NaiveTwoDimensionalQueue

  /** One call applied to both queues. */
  method StepBoth(cursor: TwoDimensionalQ, naive: NaiveTwoDimensionalQ, op: Fifo.Op)
    returns (a: Fifo.Reply, b: Fifo.Reply)
    requires cursor.Valid() && naive.Valid() && cursor.grid != naive.grid
    requires cursor.capacity == naive.capacity && cursor.Contents == naive.Contents
    modifies cursor, cursor.grid, naive, naive.grid
    ensures cursor.Valid() && naive.Valid()
    ensures (cursor.Contents, a) == (naive.Contents, b)
                                 == Fifo.Step(old(cursor.Contents), cursor.capacity, op)
  {
    match op
    case Enqueue(v) =>
      var x := cursor.Enqueue(v);
      var y := naive.Enqueue(v);
      a, b := Fifo.Enqueued(x), Fifo.Enqueued(y);
    case Dequeue =>
      var x := cursor.Dequeue();
      var y := naive.Dequeue();
      a, b := Fifo.Dequeued(x), Fifo.Dequeued(y);
  }

  /** Runs the same calls on a fresh cursor queue and a fresh naive queue of
      side n, collecting every reply and the final `list_queue` of each. */
  method RunBoth(n: int, ops: seq<Fifo.Op>)
    returns (cursorReplies: seq<Fifo.Reply>, naiveReplies: seq<Fifo.Reply>,
             cursorList: seq<string>, naiveList: seq<string>)
    requires n >= 1
    ensures cursorReplies == naiveReplies == Fifo.Run([], n * n, ops).1
    ensures cursorList == naiveList == Fifo.Run([], n * n, ops).0
  {
    var cursor := new TwoDimensionalQ(n);
    var naive := new NaiveTwoDimensionalQ(n);
    cursorReplies, naiveReplies := [], [];
    for i := 0 to |ops|
      invariant cursor.Valid() && naive.Valid()
      invariant fresh(cursor.grid) && fresh(naive.grid) && cursor.grid != naive.grid
      invariant cursor.capacity == naive.capacity == n * n
      invariant cursor.Contents == naive.Contents == Fifo.Run([], n * n, ops[..i]).0
      invariant cursorReplies == naiveReplies == Fifo.Run([], n * n, ops[..i]).1
    {
      assert ops[..i + 1][..i] == ops[..i];
      var a, b := StepBoth(cursor, naive, ops[i]);
      cursorReplies, naiveReplies := cursorReplies + [a], naiveReplies + [b];
    }
    assert ops[..|ops|] == ops;
    cursorList := cursor.ListQueue();
    naiveList := naive.ListQueue();
  }
}
