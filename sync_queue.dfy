/** `src/sync_queue.rs`: a first-in first-out work queue shared between
    threads, and the queue of sample amounts the workers take their packages
    from. The mutex is not modelled; the queue's contents are a field. */
module WorkQueue {
  import opened Common

  class SyncQueue<T> {
    var queue: seq<T>

    constructor (queue: seq<T>)
      ensures this.queue == queue
    {
      this.queue := queue;
    }

    /** `pop`: takes the front element, or nothing from an empty queue. */
    method Pop() returns (item: Option<T>)
      modifies this
      ensures old(queue) == [] ==> item == None && queue == []
      ensures old(queue) != [] ==> item == Some(old(queue)[0]) && queue == old(queue)[1..]
    {
      if queue == [] {
        item := None;
      } else {
        item := Some(queue[0]);
        queue := queue[1..];
      }
    }

    /** `push`: appends at the back. */
    method Push(item: T)
      modifies this
      ensures queue == old(queue) + [item]
    {
      queue := queue + [item];
    }

    /** `map`: a new queue with `fun` applied to every element, in order. */
    method Map<K>(fun: T -> K) returns (r: SyncQueue<K>)
      ensures fresh(r)
      ensures |r.queue| == |queue| && forall k :: 0 <= k < |queue| ==> r.queue[k] == fun(queue[k])
    {
      var out: seq<K> := [];
      for k := 0 to |queue|
        invariant |out| == k && forall j :: 0 <= j < k ==> out[j] == fun(queue[j])
      {
        out := out + [fun(queue[k])];
      }
      r := new SyncQueue(out);
    }
  }

  /** The package size of `create_work_queue`: `samples` divided by the
      desired number of packages, but at least one. */
  function Step(samples: nat, desired: nat): (r: nat)
    requires desired >= 1
    ensures r >= 1 && r <= (if samples == 0 then 1 else samples)
    ensures r == 1 || r * desired <= samples
  {
    if samples / desired > 1 then samples / desired else 1
  }

  /** The number of packages: `samples` cut into pieces of `step`, the last
      one possibly shorter, and a single empty package for no samples. */
  function PackageCount(samples: nat, step: nat): nat
    requires step >= 1
  {
    if samples == 0 then 1 else (samples + step - 1) / step
  }

  /** The loop of `create_work_queue`: packages of the full step as long as
      more than a step remains, then the rest. The amounts add up to
      `samples` (the closing `assert_eq!`), there is always at least one,
      none is larger than the step, all but the last are exactly the step and
      only the queue for no samples holds an empty package. */
  method WorkAmounts(samples: nat, desired: nat) returns (amounts: seq<nat>)
    requires desired >= 1
    ensures SeqSum(amounts) == samples
    ensures |amounts| >= 1 && |amounts| == PackageCount(samples, Step(samples, desired))
    ensures forall k :: 0 <= k < |amounts| ==> amounts[k] <= Step(samples, desired)
    ensures forall k :: 0 <= k < |amounts| - 1 ==> amounts[k] == Step(samples, desired)
    ensures samples == 0 <==> amounts == [0]
    ensures samples > 0 ==> forall k :: 0 <= k < |amounts| ==> amounts[k] >= 1
  {
    var remaining := samples;
    var step := Step(samples, desired);
    amounts := [];
    while true
      invariant remaining + SeqSum(amounts) == samples
      invariant forall k :: 0 <= k < |amounts| ==> amounts[k] == step
      invariant remaining == samples - |amounts| * step
      invariant samples > 0 ==> remaining > 0
      invariant samples == 0 ==> amounts == []
      decreases remaining
    {
      var amount;
      if remaining > step {
        remaining := remaining - step;
        amount := step;
      } else {
        amount := remaining;
        remaining := 0;
      }
      assert (amounts + [amount])[..|amounts|] == amounts;
      amounts := amounts + [amount];
      if remaining == 0 {
        CountOfPackages(samples, step, |amounts| - 1, amount);
        return;
      }
    }
  }

  /** `samples` is `n` full steps and a last package of 1 to `step`
      (or no samples at all), so there are `n + 1` packages. */
  lemma {:induction false} CountOfPackages(samples: nat, step: nat, n: nat, last: nat)
    requires step >= 1 && last <= step
    requires samples == n * step + last
    requires samples > 0 ==> last >= 1
    requires samples == 0 ==> n == 0
    ensures PackageCount(samples, step) == n + 1
  {
    if samples > 0 {
      assert samples + step - 1 == (n + 1) * step + (last - 1);
      DivOfSum(samples + step - 1, step, n + 1, last - 1);
    }
  }

  /** The quotient is determined by the division's equation. */
  lemma {:induction false} DivOfSum(a: nat, d: nat, q: nat, r: nat)
    requires d >= 1 && r < d && a == q * d + r
    ensures a / d == q
  {
    var q' := a / d;
    assert a == q' * d + a % d;
    if q' > q {
      MulMonotone(q + 1, q', d);
      assert false;
    } else if q' < q {
      MulMonotone(q' + 1, q, d);
      assert false;
    }
  }

  lemma {:induction false} MulMonotone(x: nat, y: nat, d: nat)
    requires x <= y
    ensures x * d <= y * d && x * d + d == (x + 1) * d
  {
  }

  /** `create_work_queue`: the shared queue holding the amounts above. */
  method CreateWorkQueue(samples: nat, desired: nat) returns (q: SyncQueue<nat>)
    requires desired >= 1
    ensures fresh(q)
    ensures SeqSum(q.queue) == samples && q.queue != []
    ensures forall k :: 0 <= k < |q.queue| ==> q.queue[k] <= Step(samples, desired)
    ensures forall k :: 0 <= k < |q.queue| - 1 ==> q.queue[k] == Step(samples, desired)
    ensures samples == 0 <==> q.queue == [0]
  {
    var amounts := WorkAmounts(samples, desired);
    q := new SyncQueue(amounts);
  }

  /** Taking everything out of the queue, one `pop` after the other, gives
      back the pushed elements in the order they were pushed. */
  method DrainInOrder<T>(items: seq<T>) returns (out: seq<T>)
    ensures out == items
  {
    var q := new SyncQueue<T>([]);
    for k := 0 to |items|
      invariant q.queue == items[..k]
    {
      q.Push(items[k]);
      assert items[..k + 1] == items[..k] + [items[k]];
    }
    out := [];
    while q.queue != []
      invariant out + q.queue == items
      decreases |q.queue|
    {
      var item := q.Pop();
      out := out + [item.value];
    }
  }
}
