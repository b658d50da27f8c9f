/** The midterm's grading scenarios for the two-dimensional queue, replayed
    on both queue classes (through `RunBoth`) and, for the cursors, on the
    row-major step functions the classes are proved to follow. */
module QueueScenarios {
  import opened Wrappers
  import opened Grid
  import opened Fifo
  import QueueEquivalence

  /** The calls of the 2x2 wrap scenario, up to the first listing. */
  function BackWrapCalls(a: string, b: string, c: string, d: string): seq<Op>
  {
    Enqueues([a, b]) + Dequeues(1) + Enqueues([c, d])
  }

  /** After a, b, one dequeue, c and d a queue of capacity 4 holds b, c, d. */
  lemma BackWrapContents(a: string, b: string, c: string, d: string)
    ensures Run([], 4, BackWrapCalls(a, b, c, d)).0 == [b, c, d]
  {
    FillAppends([], 4, [a, b]);
    assert [] + [a, b] == [a, b];
    DrainReturnsInOrder([a, b], 4, 1);
    assert [a, b][1..] == [b];
    FillAppends([b], 4, [c, d]);
    assert [b] + [c, d] == [b, c, d];
    RunConcat([], 4, Enqueues([a, b]), Dequeues(1));
    RunConcat([], 4, Enqueues([a, b]) + Dequeues(1), Enqueues([c, d]));
  }

  /** Three more dequeues and e leave e alone at the front. */
  lemma FrontWrapContents(a: string, b: string, c: string, d: string, e: string)
    ensures Run([], 4, BackWrapCalls(a, b, c, d) + Dequeues(3) + Enqueues([e])).0 == [e]
  {
    BackWrapContents(a, b, c, d);
    DrainReturnsInOrder([b, c, d], 4, 3);
    assert [b, c, d][3..] == [];
    FillAppends([], 4, [e]);
    assert [] + [e] == [e];
    RunConcat([], 4, BackWrapCalls(a, b, c, d), Dequeues(3));
    RunConcat([], 4, BackWrapCalls(a, b, c, d) + Dequeues(3), Enqueues([e]));
  }

  /** Back wrap, then front wrap, on a 2x2 grid: after Abby, Beth, one
      dequeue, Charlie and David both queues list Beth, Charlie, David; after
      three more dequeues and Emma, Emma is at the front. */
  method WrapAroundTwoByTwo() returns (listed: seq<string>, afterWrap: seq<string>)
    ensures listed == ["Beth", "Charlie", "David"]
    ensures afterWrap == ["Emma"]
  {
    BackWrapContents("Abby", "Beth", "Charlie", "David");
    FrontWrapContents("Abby", "Beth", "Charlie", "David", "Emma");
    var calls := BackWrapCalls("Abby", "Beth", "Charlie", "David");
    var r1, r2, l1, l2 := QueueEquivalence.RunBoth(2, calls);
    listed := l1;
    r1, r2, l1, l2 := QueueEquivalence.RunBoth(2, calls + Dequeues(3) + Enqueues(["Emma"]));
    afterWrap := l1;
  }

  /** Four dequeues on a 2x2 grid bring the front cursor back to (0, 0),
      where the next enqueue (Emma) was written; the cursor as the source
      advances it instead ends at (2, 0), outside the grid. */
  lemma FrontAfterTwoByTwoWrap()
    ensures Steps(Pos(0, 0), 2, 4) == Pos(0, 0)
    ensures StepsAsWritten(Pos(0, 0), 2, 4) == Pos(2, 0) && !InGrid(Pos(2, 0), 2)
  {
    WrappedLap(2, 4);
    AsWrittenLap(2, 4);
  }

  /** Fill a 3x3 grid with nine names and drain eight: Ivan is at the front;
      the ninth dequeue empties the queue, and Judy then enqueues. */
  method WrapAroundThreeByThree() returns (beforeLast: seq<string>, emptied: seq<string>, afterWrap: seq<string>)
    ensures beforeLast == ["Ivan"]
    ensures emptied == []
    ensures afterWrap == ["Judy"]
  {
    var names := ["Abby", "Beth", "Charlie", "David", "Emma", "Frank", "Grace", "Heidi", "Ivan"];
    var fill := Enqueues(names);
    FillAppends([], 9, names);
    assert [] + names == names;
    DrainReturnsInOrder(names, 9, 8);
    DrainReturnsInOrder(names, 9, 9);
    RunConcat([], 9, fill, Dequeues(8));
    RunConcat([], 9, fill, Dequeues(9));
    RunConcat([], 9, fill + Dequeues(9), [Enqueue("Judy")]);
    var r1, r2, l1, l2 := QueueEquivalence.RunBoth(3, fill + Dequeues(8));
    beforeLast := l1;
    r1, r2, l1, l2 := QueueEquivalence.RunBoth(3, fill + Dequeues(9));
    emptied := l1;
    r1, r2, l1, l2 := QueueEquivalence.RunBoth(3, fill + Dequeues(9) + [Enqueue("Judy")]);
    afterWrap := l1;
  }

  /** Nine dequeues on a 3x3 grid bring the front cursor back to (0, 0);
      as the source advances it, it ends at (3, 0), outside the grid. */
  lemma FrontAfterThreeByThreeWrap()
    ensures Steps(Pos(0, 0), 3, 9) == Pos(0, 0)
    ensures StepsAsWritten(Pos(0, 0), 3, 9) == Pos(3, 0) && !InGrid(Pos(3, 0), 3)
  {
    WrappedLap(3, 9);
    AsWrittenLap(3, 9);
  }

  /** Fill a queue of capacity 4, dequeue twice, enqueue two more. */
  function RefillCalls(a: string, b: string, c: string, d: string, e: string, f: string): seq<Op>
  {
    Enqueues([a, b, c, d]) + Dequeues(2) + Enqueues([e, f])
  }

  lemma RefillContents(a: string, b: string, c: string, d: string, e: string, f: string)
    ensures Run([], 4, RefillCalls(a, b, c, d, e, f)).0 == [c, d, e, f]
  {
    var names := [a, b, c, d];
    FillAppends([], 4, names);
    assert [] + names == names;
    DrainReturnsInOrder(names, 4, 2);
    assert names[2..] == [c, d];
    FillAppends([c, d], 4, [e, f]);
    assert [c, d] + [e, f] == [c, d, e, f];
    RunConcat([], 4, Enqueues(names), Dequeues(2));
    RunConcat([], 4, Enqueues(names) + Dequeues(2), Enqueues([e, f]));
  }

  /** Dequeue twice from a full 2x2 grid and enqueue twice: the listing
      follows the wrap. */
  method ListQueueOnWrap() returns (listed: seq<string>)
    ensures listed == ["Charlie", "David", "Emma", "Frank"]
  {
    RefillContents("Abby", "Beth", "Charlie", "David", "Emma", "Frank");
    var r1, r2, l1, l2 := QueueEquivalence.RunBoth(2, RefillCalls("Abby", "Beth", "Charlie", "David", "Emma", "Frank"));
    listed := l1;
  }

  /** A full 2x2 grid refuses a fifth name and its first dequeue returns the
      oldest one; an empty one answers a dequeue with None. */
  method FullAndEmptyTwoByTwo() returns (replies: seq<Reply>, emptyReply: seq<Reply>)
    ensures |replies| == 6
    ensures replies[4] == Enqueued(false)
    ensures replies[5] == Dequeued(Some("Abby"))
    ensures emptyReply == [Dequeued(None)]
  {
    var names := ["Abby", "Beth", "Charlie", "David"];
    var more := [Enqueue("Emma"), Dequeue];
    FillAppends([], 4, names);
    assert [] + names == names;
    RunConcat([], 4, Enqueues(names), more);
    assert more[..1] == [Enqueue("Emma")];
    var r1, r2, l1, l2 := QueueEquivalence.RunBoth(2, Enqueues(names) + more);
    replies := r1;
    r1, r2, l1, l2 := QueueEquivalence.RunBoth(2, [Dequeue]);
    emptyReply := r1;
  }
}
