/** The abstract bounded FIFO that both two-dimensional queues implement:
    a sequence of payloads, oldest first, holding at most `cap` of them.
    `enqueue` reports False and changes nothing when full; `dequeue` reports
    None and changes nothing when empty. */
module Fifo {
  import opened Wrappers

  /** One call on a queue. */
  datatype Op = Enqueue(value: string) | Dequeue

  /** What a call returns: enqueue's bool or dequeue's value-or-None. */
  datatype Reply = Enqueued(ok: bool) | Dequeued(item: Option<string>)

  /** The queue's contents and the reply after one call. */
  function Step(q: seq<string>, cap: nat, op: Op): (r: (seq<string>, Reply))
  {
    match op
    case Enqueue(v) =>
      if |q| < cap then (q + [v], Enqueued(true)) else (q, Enqueued(false))
    case Dequeue =>
      if |q| > 0 then (q[1..], Dequeued(Some(q[0]))) else (q, Dequeued(None))
  }

  /** The contents and the replies after a sequence of calls, in call order. */
  function Run(q: seq<string>, cap: nat, ops: seq<Op>): (r: (seq<string>, seq<Reply>))
    ensures |r.1| == |ops|
    decreases |ops|
  {
    if ops == [] then (q, [])
    else
      var prior := Run(q, cap, ops[..|ops| - 1]);
      var last := Step(prior.0, cap, ops[|ops| - 1]);
      (last.0, prior.1 + [last.1])
  }

  /** One call never takes the contents over capacity. */
  lemma StepBounded(q: seq<string>, cap: nat, op: Op)
    requires |q| <= cap
    ensures |Step(q, cap, op).0| <= cap
    ensures |Step(q, cap, op).0| == |q| + 1 || |Step(q, cap, op).0| == |q| || |Step(q, cap, op).0| == |q| - 1
  {
  }

  /** Capacity bound: for every sequence of calls, 0 <= usage <= capacity. */
  lemma {:induction false} RunBounded(q: seq<string>, cap: nat, ops: seq<Op>)
    requires |q| <= cap
    ensures |Run(q, cap, ops).0| <= cap
    decreases |ops|
  {
    if ops != [] {
      RunBounded(q, cap, ops[..|ops| - 1]);
      StepBounded(Run(q, cap, ops[..|ops| - 1]).0, cap, ops[|ops| - 1]);
    }
  }

  /** Running two batches of calls one after the other is running them
      concatenated. */
  lemma {:induction false} RunConcat(q: seq<string>, cap: nat, a: seq<Op>, b: seq<Op>)
    ensures Run(q, cap, a + b).0 == Run(Run(q, cap, a).0, cap, b).0
    ensures Run(q, cap, a + b).1 == Run(q, cap, a).1 + Run(Run(q, cap, a).0, cap, b).1
    decreases |b|
  {
    if b == [] {
      assert a + b == a;
    } else {
      var b' := b[..|b| - 1];
      assert (a + b)[..|a + b| - 1] == a + b';
      assert (a + b)[|a + b| - 1] == b[|b| - 1];
      RunConcat(q, cap, a, b');
    }
  }

  /** One enqueue call per value, in order. */
  function Enqueues(xs: seq<string>): (ops: seq<Op>)
    ensures |ops| == |xs|
    ensures forall i :: 0 <= i < |xs| ==> ops[i] == Enqueue(xs[i])
  {
    if xs == [] then [] else Enqueues(xs[..|xs| - 1]) + [Enqueue(xs[|xs| - 1])]
  }

  /** k dequeue calls. */
  function Dequeues(k: nat): (ops: seq<Op>)
    ensures |ops| == k
    ensures forall i :: 0 <= i < k ==> ops[i] == Dequeue
  {
    if k == 0 then [] else Dequeues(k - 1) + [Dequeue]
  }

  /** Enqueueing values that fit appends them all and every call reports True. */
  lemma {:induction false} FillAppends(q: seq<string>, cap: nat, xs: seq<string>)
    requires |q| + |xs| <= cap
    ensures Run(q, cap, Enqueues(xs)).0 == q + xs
    ensures forall i :: 0 <= i < |xs| ==> Run(q, cap, Enqueues(xs)).1[i] == Enqueued(true)
    decreases |xs|
  {
    if xs != [] {
      var xs' := xs[..|xs| - 1];
      assert Enqueues(xs)[..|xs| - 1] == Enqueues(xs');
      FillAppends(q, cap, xs');
      assert q + xs' + [xs[|xs| - 1]] == q + xs;
    }
  }

  /** Dequeueing as many times as there are elements returns them oldest
      first and leaves the queue empty. */
  lemma {:induction false} DrainReturnsInOrder(q: seq<string>, cap: nat, k: nat)
    requires k <= |q|
    ensures Run(q, cap, Dequeues(k)).0 == q[k..]
    ensures forall i :: 0 <= i < k ==> Run(q, cap, Dequeues(k)).1[i] == Dequeued(Some(q[i]))
    decreases k
  {
    if k > 0 {
      assert Dequeues(k)[..k - 1] == Dequeues(k - 1);
      DrainReturnsInOrder(q, cap, k - 1);
      assert q[k - 1..][1..] == q[k..];
    }
  }

  /** FIFO order: enqueueing distinct-or-not values into an empty queue with
      room for them, then dequeueing the same number of times, returns them in
      exactly the enqueued order and leaves the queue empty. */
  lemma FillThenDrain(xs: seq<string>, cap: nat)
    requires |xs| <= cap
    ensures Run([], cap, Enqueues(xs) + Dequeues(|xs|)).0 == []
    ensures forall i :: 0 <= i < |xs| ==>
      Run([], cap, Enqueues(xs) + Dequeues(|xs|)).1[|xs| + i] == Dequeued(Some(xs[i]))
  {
    RunConcat([], cap, Enqueues(xs), Dequeues(|xs|));
    FillAppends([], cap, xs);
    assert [] + xs == xs;
    DrainReturnsInOrder(xs, cap, |xs|);
  }
}
