/** The asynchronous log queue: a circular buffer over a vector with one spare place, and the
    multi-producer queue that guards it with a lock.  Each method of that queue is one critical section, or
    one step outside of it. */
module LogQueue {
  import opened Wrappers
  import opened Bytes

  /** Pushing onto a queue of bounded capacity loses the oldest item if there is no room. */
  function Push<T>(q: seq<T>, capacity: nat, x: T): (r: seq<T>)
    requires |q| <= capacity
    ensures |r| == if |q| < capacity then |q| + 1 else capacity
  {
    if |q| < capacity then q + [x] else (q + [x])[1..]
  }

  /** What lies from `head` round to `tail`. */
  function View<T>(v: seq<T>, head: nat, tail: nat): (q: seq<T>)
    requires head < |v| && tail < |v|
    ensures |q| == if tail >= head then tail - head else |v| - (head - tail)
    ensures forall i :: 0 <= i < |q| ==> q[i] == v[Around(head, i, |v|)]
  {
    if tail >= head then v[head..tail] else v[head..] + v[..tail]
  }

  /** The place `i` after `head`, going round. */
  function Around(head: nat, i: nat, n: nat): (k: nat)
    requires head < n && i <= n
    ensures k < n && k == (head + i) % n
  {
    ModWindow(head + i, n);
    if head + i < n then head + i else head + i - n
  }

  /** The next place. */
  function Following(i: nat, n: nat): (k: nat)
    requires i < n
    ensures k == Around(i, 1, n) < n
  {
    (i + 1) % n
  }

  /** Storing at the tail and moving it on, and the head too if it has been caught up. */
  lemma ViewPush<T>(v: seq<T>, head: nat, tail: nat, x: T)
    requires head < |v| && tail < |v|
    ensures var n, q := |v|, View(v, head, tail);
            var w, tail' := v[tail := x], Around(tail, 1, n);
            var caught := tail' == head;
            && (caught <==> |q| == n - 1)
            && View(w, if caught then Around(head, 1, n) else head, tail') == Push(q, n - 1, x)
  {
    var n, q := |v|, View(v, head, tail);
    var w, tail' := v[tail := x], Around(tail, 1, n);
    if tail' == head {
      var r := View(w, Around(head, 1, n), tail');
      assert |r| == n - 1;
      forall i | 0 <= i < n - 1 ensures r[i] == (q + [x])[1..][i] {
        assert (q + [x])[1..][i] == (q + [x])[i + 1];
        assert Around(Around(head, 1, n), i, n) == Around(head, i + 1, n);
      }
    } else {
      var r := View(w, head, tail');
      assert Around(head, |q|, n) == tail;
      forall i | 0 <= i < |r| ensures r[i] == (q + [x])[i] {
        assert i < |q| ==> Around(head, i, n) != tail;
      }
    }
  }

  lemma ViewPop<T>(v: seq<T>, head: nat, tail: nat)
    requires head < |v| && tail < |v| && head != tail
    ensures View(v, Around(head, 1, |v|), tail) == View(v, head, tail)[1..]
  {
    var q, r := View(v, head, tail), View(v, Around(head, 1, |v|), tail);
    forall i | 0 <= i < |r| ensures r[i] == q[1..][i] {
      assert Around(Around(head, 1, |v|), i, |v|) == Around(head, i + 1, |v|);
    }
  }

  class CircularQueue<T(0)> {
    var maxItems: nat
    var head: nat
    var tail: nat
    var overrun: nat
    var v: array<T>

    ghost predicate Valid()
      reads this
    {
      && v.Length == maxItems
      && if maxItems == 0 then head == tail == 0 else head < maxItems && tail < maxItems
    }

    /** A disabled queue has no place at all; otherwise one place is the spare. */
    predicate Enabled()
      reads this
    {
      maxItems > 0
    }

    ghost function Capacity(): nat
      reads this
    {
      if maxItems == 0 then 0 else maxItems - 1
    }

    ghost function Contents(): (q: seq<T>)
      requires Valid()
      reads this, v
      ensures |q| <= Capacity()
    {
      if maxItems == 0 then [] else View(v[..], head, tail)
    }

    function Size(): (n: nat)
      requires Valid()
      reads this, v
      ensures n == |Contents()|
    {
      if tail >= head then tail - head else maxItems - (head - tail)
    }

    constructor Disabled()
      ensures Valid() && !Enabled() && Contents() == [] && overrun == 0 && fresh(v)
    {
      maxItems, head, tail, overrun := 0, 0, 0, 0;
      v := new T[0];
    }

    constructor (max: nat)
      ensures Valid() && Enabled() && Capacity() == max && Contents() == [] && overrun == 0 && fresh(v)
    {
      maxItems, head, tail, overrun := max + 1, 0, 0, 0;
      v := new T[max + 1];
    }

    method PushBack(item: T)
      requires Valid()
      modifies this, v
      ensures Valid() && maxItems == old(maxItems) && v == old(v)
      ensures Contents() == if Enabled() then Push(old(Contents()), Capacity(), item) else old(Contents())
      ensures overrun == old(overrun) + if Enabled() && old(Size()) == Capacity() then 1 else 0
    {
      if maxItems > 0 {
        ViewPush(v[..], head, tail, item);
        hide View, Push, Following, Around;
        v[tail] := item;
        tail := Following(tail, maxItems);
        if tail == head {
          head := Following(head, maxItems);
          overrun := overrun + 1;
        }
      }
    }

    function Front(): (x: T)
      requires Valid() && Contents() != []
      reads this, v
      ensures x == Contents()[0]
    {
      v[head]
    }

    function Item(i: nat): (x: T)
      requires Valid() && i < Size()
      reads this, v
      ensures x == Contents()[i]
    {
      assert Around(head, i, maxItems) == (head + i) % maxItems;
      v[(head + i) % maxItems]
    }

    method PopFront()
      requires Valid() && Contents() != []
      modifies this
      ensures Valid() && maxItems == old(maxItems) && v == old(v) && overrun == old(overrun)
      ensures Contents() == old(Contents())[1..]
    {
      hide View, Around;
      ViewPop(v[..], head, tail);
      head := Following(head, maxItems);
    }

    predicate Empty()
      requires Valid()
      reads this, v
      ensures Empty() <==> Contents() == []
    {
      tail == head
    }

    predicate Full()
      requires Valid()
      reads this, v
      ensures Full() <==> Enabled() && Size() == Capacity()
    {
      if maxItems > 0 then
        assert Around(tail, 1, maxItems) == (tail + 1) % maxItems;
        (tail + 1) % maxItems == head
      else false
    }

    /** Move assignment: the other queue's items come here and it is left disabled. */
    method MoveFrom(other: CircularQueue<T>)
      requires other.Valid() && other != this
      modifies this, other
      ensures Valid() && Contents() == old(other.Contents()) && overrun == old(other.overrun)
      ensures Capacity() == old(other.Capacity()) && Enabled() == old(other.Enabled())
      ensures other.Valid() && !other.Enabled() && other.Contents() == [] && other.overrun == 0
    {
      maxItems, head, tail, overrun, v := other.maxItems, other.head, other.tail, other.overrun, other.v;
      other.maxItems, other.head, other.tail, other.overrun := 0, 0, 0, 0;
      other.v := new T[0];
    }
  }

  /** What became of everything ever offered to a queue. */
  ghost predicate Accounted(offered: nat, dequeued: nat, queued: nat, overrun: nat, discarded: nat) {
    offered == dequeued + queued + overrun + discarded
  }

  class BlockingQueue<T(0)> {
    const q: CircularQueue<T>
    var discarded: nat
    // Everything offered, everything taken out, and the refusals still to be counted, for the account.
    ghost var uncounted: nat
    ghost var offered: nat
    ghost var dequeued: nat

    ghost predicate Valid()
      reads this, q, q.v
    {
      q.Valid() && q.Enabled() && Accounted(offered, dequeued, q.Size(), q.overrun, discarded + uncounted)
    }

    constructor (maxItems: nat)
      ensures Valid() && q.Contents() == [] && q.Capacity() == maxItems && fresh(q) && fresh(q.v)
      ensures offered == 0 && dequeued == 0 && discarded == 0 && uncounted == 0
    {
      q := new CircularQueue(maxItems);
      discarded, uncounted, offered, dequeued := 0, 0, 0, 0;
    }

    /** One pass of the blocking enqueue: it puts the item in, or goes on waiting. */
    method Enqueue(item: T) returns (done: bool)
      requires Valid()
      modifies this, q, q.v
      ensures Valid() && q.v == old(q.v) && q.Capacity() == old(q.Capacity())
      ensures done == (old(q.Size()) < q.Capacity())
      ensures q.Contents() == if done then old(q.Contents()) + [item] else old(q.Contents())
      ensures offered == old(offered) + (if done then 1 else 0)
      ensures dequeued == old(dequeued) && discarded == old(discarded) && q.overrun == old(q.overrun)
      ensures uncounted == old(uncounted)
    {
      if q.Full() {
        return false;
      }
      q.PushBack(item);
      offered := offered + 1;
      return true;
    }

    method EnqueueNowait(item: T)
      requires Valid()
      modifies this, q, q.v
      ensures Valid() && q.v == old(q.v) && q.Capacity() == old(q.Capacity())
      ensures q.Contents() == Push(old(q.Contents()), q.Capacity(), item)
      ensures offered == old(offered) + 1 && dequeued == old(dequeued) && discarded == old(discarded)
      ensures q.overrun == old(q.overrun) + if old(q.Size()) == q.Capacity() then 1 else 0
      ensures uncounted == old(uncounted)
    {
      q.PushBack(item);
      offered := offered + 1;
    }

    /** The critical section of the enqueue that gives up when there is no room. */
    method TryPush(item: T) returns (pushed: bool)
      requires Valid()
      modifies this, q, q.v
      ensures Valid() && q.v == old(q.v) && q.Capacity() == old(q.Capacity())
      ensures pushed == (old(q.Size()) < q.Capacity())
      ensures q.Contents() == if pushed then old(q.Contents()) + [item] else old(q.Contents())
      ensures offered == old(offered) + 1 && uncounted == old(uncounted) + (if pushed then 0 else 1)
      ensures dequeued == old(dequeued) && discarded == old(discarded) && q.overrun == old(q.overrun)
    {
      pushed := false;
      if !q.Full() {
        q.PushBack(item);
        pushed := true;
      }
      offered := offered + 1;
      uncounted := uncounted + if pushed then 0 else 1;
    }

    /** The step after it, outside of the lock: a refusal is counted. */
    method CountDiscard()
      requires Valid() && uncounted > 0
      modifies this
      ensures Valid() && discarded == old(discarded) + 1 && uncounted == old(uncounted) - 1
      ensures offered == old(offered) && dequeued == old(dequeued)
    {
      discarded := discarded + 1;
      uncounted := uncounted - 1;
    }

    /** Both, with no other thread in between. */
    method EnqueueIfHaveRoom(item: T)
      requires Valid()
      modifies this, q, q.v
      ensures Valid() && q.v == old(q.v) && q.Capacity() == old(q.Capacity())
      ensures var room := old(q.Size()) < q.Capacity();
              && q.Contents() == (if room then old(q.Contents()) + [item] else old(q.Contents()))
              && discarded == old(discarded) + (if room then 0 else 1)
      ensures offered == old(offered) + 1 && dequeued == old(dequeued) && q.overrun == old(q.overrun)
      ensures uncounted == old(uncounted)
    {
      var pushed := TryPush(item);
      if !pushed {
        CountDiscard();
      }
    }

    /** One pass of the dequeue: it takes the oldest item, or goes on waiting (or times out). */
    method Dequeue() returns (item: Option<T>)
      requires Valid()
      modifies this, q
      ensures Valid() && q.v == old(q.v) && q.Capacity() == old(q.Capacity())
      ensures if old(q.Contents()) == [] then item == None && q.Contents() == [] && dequeued == old(dequeued)
              else
                && item == Some(old(q.Contents())[0]) && q.Contents() == old(q.Contents())[1..]
                && dequeued == old(dequeued) + 1
      ensures uncounted == old(uncounted)
      ensures offered == old(offered) && discarded == old(discarded) && q.overrun == old(q.overrun)
    {
      if q.Empty() {
        return None;
      }
      item := Some(q.Front());
      q.PopFront();
      dequeued := dequeued + 1;
    }
  }
}
