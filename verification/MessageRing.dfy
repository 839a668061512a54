/** One slice of the message pool as a ring of slots, and the bounded queue it stands for. */
module MessageRing {
  import opened Bytes

  const SLOT_SIZE := 2600

  /** A pool slot: its received flag and its fixed-size buffer. */
  datatype Slot = Slot(received: bool, data: seq<byte>)

  const BLANK := Slot(false, Zeros(SLOT_SIZE))

  /** The position `i` places after `from`, going round. */
  function At(from: nat, i: nat, n: nat): (k: nat)
    requires from < n && i <= n
    ensures k < n
    ensures k == (from + i) % n
  {
    ModWindow(from + i, n);
    if from + i < n then from + i else from + i - n
  }

  /** How far `k` is after `from`, going round. */
  function Distance(k: nat, from: nat, n: nat): (d: nat)
    requires from < n && k < n
    ensures d < n && At(from, d, n) == k
  {
    if k >= from then k - from else k - from + n
  }

  predicate Holds(slot: Slot, size: nat) {
    size <= SLOT_SIZE && |slot.data| == SLOT_SIZE && slot.data[size..] == Zeros(SLOT_SIZE - size)
  }

  /** The flag is set exactly on the `num` slots from `read` on; every other slot is blank; no slot
      holds anything beyond the message size. */
  ghost predicate RingOk(slots: seq<Slot>, read: nat, num: nat, size: nat) {
    && read < |slots| && num <= |slots|
    && forall k :: 0 <= k < |slots| ==>
         && Holds(slots[k], size)
         && slots[k].received == (Distance(k, read, |slots|) < num)
         && (!slots[k].received ==> slots[k] == BLANK)
  }

  /** The live messages, oldest first. */
  ghost function RingQueue(slots: seq<Slot>, read: nat, num: nat, size: nat): (q: seq<seq<byte>>)
    requires RingOk(slots, read, num, size)
    ensures |q| == num && forall i :: 0 <= i < num ==> |q[i]| == size
  {
    seq(num, i requires 0 <= i < num => slots[At(read, i, |slots|)].data[..size])
  }

  /** A message as a slot shows it when nothing lay under it. */
  function Pad(data: seq<byte>, size: nat): (m: seq<byte>)
    requires |data| <= size
    ensures |m| == size && data <= m
  {
    data + Zeros(size - |data|)
  }

  /** What copying `data` over the front of a buffer leaves. */
  function Overlay(data: seq<byte>, was: seq<byte>): (b: seq<byte>)
    requires |data| <= |was|
    ensures |b| == |was|
  {
    data + was[|data|..]
  }

  lemma OverlayMessage(data: seq<byte>, was: seq<byte>, size: nat)
    requires |data| <= size <= |was|
    ensures Overlay(data, was)[..size] == Overlay(data, was[..size])
    ensures Overlay(data, was)[size..] == was[size..]
    ensures was == Zeros(|was|) ==> Overlay(data, was)[..size] == Pad(data, size)
  {
  }

  /** Writing to a queue of bounded capacity.  A full queue loses its oldest message, and the new one
      keeps the part of that message it does not cover. */
  function Enqueue(q: seq<seq<byte>>, capacity: nat, data: seq<byte>, size: nat): (r: seq<seq<byte>>)
    requires |q| <= capacity && capacity > 0 && |data| <= size
    requires forall i :: 0 <= i < |q| ==> |q[i]| == size
    ensures |r| == if |q| < capacity then |q| + 1 else capacity
    ensures forall i :: 0 <= i < |r| ==> |r[i]| == size
  {
    if |q| < capacity then q + [Pad(data, size)] else q[1..] + [Overlay(data, q[0])]
  }

  /** The slots after a write at `w`. */
  function Written(slots: seq<Slot>, w: nat, data: seq<byte>): (r: seq<Slot>)
    requires w < |slots| && |data| <= |slots[w].data|
    ensures |r| == |slots|
  {
    slots[w := Slot(true, Overlay(data, slots[w].data))]
  }

  /** The slots after the message at `k` has been taken out. */
  function Taken(slots: seq<Slot>, k: nat, size: nat): (r: seq<Slot>)
    requires k < |slots| && size <= |slots[k].data|
    ensures |r| == |slots|
  {
    slots[k := Slot(false, Zeros(size) + slots[k].data[size..])]
  }

  lemma RingPush(slots: seq<Slot>, read: nat, num: nat, size: nat, data: seq<byte>)
    requires RingOk(slots, read, num, size) && |data| <= size
    ensures var n := |slots|;
            var w := At(read, num, n);
            var slots' := Written(slots, w, data);
            var read' := if num < n then read else At(read, 1, n);
            var num' := if num < n then num + 1 else n;
            && RingOk(slots', read', num', size)
            && RingQueue(slots', read', num', size) == Enqueue(RingQueue(slots, read, num, size), n, data, size)
            && At(w, 1, n) == At(read', num', n)
  {
    CursorAfterPush(read, num, |slots|);
    hide RingOk, RingQueue, Written, Enqueue, At;
    RingPushOk(slots, read, num, size, data);
    if num < |slots| {
      RingPushRoom(slots, read, num, size, data);
    } else {
      RingPushFull(slots, read, size, data);
    }
  }

  lemma CursorAfterPush(read: nat, num: nat, n: nat)
    requires read < n && num <= n
    ensures At(At(read, num, n), 1, n)
         == At(if num < n then read else At(read, 1, n), if num < n then num + 1 else n, n)
    ensures num == n ==> At(read, num, n) == read
  {
  }

  lemma RingPushOk(slots: seq<Slot>, read: nat, num: nat, size: nat, data: seq<byte>)
    requires RingOk(slots, read, num, size) && |data| <= size
    ensures var n := |slots|;
            RingOk(Written(slots, At(read, num, n), data),
                   if num < n then read else At(read, 1, n), if num < n then num + 1 else n, size)
  {
    var n := |slots|;
    var w := At(read, num, n);
    var slots' := Written(slots, w, data);
    OverlayMessage(data, slots[w].data, size);
    var read' := if num < n then read else At(read, 1, n);
    var num' := if num < n then num + 1 else n;
    forall k | 0 <= k < n
      ensures Holds(slots'[k], size)
      ensures slots'[k].received == (Distance(k, read', n) < num')
      ensures !slots'[k].received ==> slots'[k] == BLANK
    {
      assert Holds(slots[k], size);
      assert k != w ==> slots'[k] == slots[k];
    }
  }

  lemma RingPushRoom(slots: seq<Slot>, read: nat, num: nat, size: nat, data: seq<byte>)
    requires RingOk(slots, read, num, size) && |data| <= size && num < |slots|
    requires RingOk(Written(slots, At(read, num, |slots|), data), read, num + 1, size)
    ensures RingQueue(Written(slots, At(read, num, |slots|), data), read, num + 1, size)
         == Enqueue(RingQueue(slots, read, num, size), |slots|, data, size)
  {
    var n := |slots|;
    var w := At(read, num, n);
    var slots' := Written(slots, w, data);
    OverlayMessage(data, slots[w].data, size);
    assert slots[w] == BLANK;
    var q, q' := RingQueue(slots, read, num, size), RingQueue(slots', read, num + 1, size);
    forall i | 0 <= i < num ensures q'[i] == q[i] { assert At(read, i, n) != w; }
    assert q' == q + [Pad(data, size)];
  }

  lemma RingPushFull(slots: seq<Slot>, read: nat, size: nat, data: seq<byte>)
    requires RingOk(slots, read, |slots|, size) && |data| <= size
    requires RingOk(Written(slots, read, data), At(read, 1, |slots|), |slots|, size)
    ensures RingQueue(Written(slots, read, data), At(read, 1, |slots|), |slots|, size)
         == Enqueue(RingQueue(slots, read, |slots|, size), |slots|, data, size)
  {
    var n := |slots|;
    var read' := At(read, 1, n);
    var slots' := Written(slots, read, data);
    OverlayMessage(data, slots[read].data, size);
    var q, q' := RingQueue(slots, read, n, size), RingQueue(slots', read', n, size);
    assert q[0] == slots[read].data[..size];
    forall i | 0 <= i < n - 1 ensures q'[i] == q[1..][i] {
      assert At(read', i, n) == At(read, i + 1, n) != read;
    }
    assert At(read', n - 1, n) == read;
    assert q' == q[1..] + [Overlay(data, q[0])];
  }

  lemma RingPop(slots: seq<Slot>, read: nat, num: nat, size: nat)
    requires RingOk(slots, read, num, size) && num > 0
    ensures var n := |slots|;
            var slots' := Taken(slots, read, size);
            var read' := At(read, 1, n);
            var q := RingQueue(slots, read, num, size);
            && RingOk(slots', read', num - 1, size)
            && slots[read].received
            && q[0] == slots[read].data[..size]
            && RingQueue(slots', read', num - 1, size) == q[1..]
            && At(read', num - 1, n) == At(read, num, n)
  {
    var n := |slots|;
    var slots' := Taken(slots, read, size);
    var read' := At(read, 1, n);
    assert Zeros(size) + slots[read].data[size..] == Zeros(SLOT_SIZE);
    forall k | 0 <= k < n
      ensures Holds(slots'[k], size)
      ensures slots'[k].received == (Distance(k, read', n) < num - 1)
      ensures !slots'[k].received ==> slots'[k] == BLANK
    {
      assert Holds(slots[k], size);
      assert k != read ==> slots'[k] == slots[k];
    }
    var q, q' := RingQueue(slots, read, num, size), RingQueue(slots', read', num - 1, size);
    forall i | 0 <= i < num - 1 ensures q'[i] == q[1..][i] {
      assert At(read', i, n) == At(read, i + 1, n) != read;
    }
  }

  /** The received flag of the oldest slot tells an empty ring from one that is not. */
  lemma FlagMeansNotEmpty(slots: seq<Slot>, read: nat, num: nat, size: nat)
    requires RingOk(slots, read, num, size)
    ensures slots[read].received <==> num > 0
  {
    assert Distance(read, read, |slots|) == 0;
  }

  lemma BlankRing(slots: seq<Slot>, size: nat)
    requires |slots| > 0 && size <= SLOT_SIZE && forall k :: 0 <= k < |slots| ==> slots[k] == BLANK
    ensures RingOk(slots, 0, 0, size) && RingQueue(slots, 0, 0, size) == []
  {
  }
}
