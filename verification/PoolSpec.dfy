/** What the message pool promises: one bounded queue per registered message type, over whole runs. */
module PoolSpec {
  import opened Bytes
  import opened MessageRing

  datatype MsgType = AppRx | AppTx | MantRx | MantTx | VibRx | VobTx | VvbRx | BtmRx | VtsTx | StaRx
                   | AswComRx | AswComTx | Vvb1Rx | Vvb2Rx | Btm1Rx | Btm2Rx

  /** The packed size of a type's message structure; zero for the types that have none. */
  function MsgTypeSize(t: MsgType): (size: nat)
    ensures size <= SLOT_SIZE
  {
    match t
    case AppRx => 2519 case AppTx => 2519
    case MantRx => 2507 case MantTx => 2507
    case VibRx => 194 case VobTx => 194
    case VvbRx => 219
    case BtmRx => 154
    case VtsTx => 17
    case StaRx => 463
    case AswComTx => 1415 case AswComRx => 1404
    case _ => 0
  }

  /** The sizes are those of the packed structures, field by field. */
  lemma StructureSizes()
    ensures MsgTypeSize(AppRx) == MsgTypeSize(AppTx) == 2 + 1 + 1 + 1 + 2 + 4 + 2 + 2 + 1 + 1 + 1 + 1 + 2500
    ensures MsgTypeSize(MantRx) == MsgTypeSize(MantTx) == 4 + 2 + 1 + 2500
    ensures MsgTypeSize(VibRx) == MsgTypeSize(VobTx) == 2 + 64 * (2 + 1)
    ensures MsgTypeSize(VvbRx) == (1 + 8 + 3 * (1 + 4)) + 3 * (1 + 64)
    ensures MsgTypeSize(BtmRx) == 8 + 8 + 4 + 4 + 2 + 128
    ensures MsgTypeSize(VtsTx) == 4 + 4 + 4 + 1 + 4
    ensures MsgTypeSize(StaRx) == 463
    ensures MsgTypeSize(AswComTx) == 6 * 2 + 1 + 2 + 1400 && MsgTypeSize(AswComRx) == 2 + 2 + 1400
    ensures forall t :: t in {Vvb1Rx, Vvb2Rx, Btm1Rx, Btm2Rx} ==> MsgTypeSize(t) == 0
  {
  }

  datatype Ring = Ring(msgType: MsgType, capacity: nat, queue: seq<seq<byte>>) {
    predicate Valid() {
      && capacity > 0 && |queue| <= capacity
      && forall i :: 0 <= i < |queue| ==> |queue[i]| == MsgTypeSize(msgType)
    }
  }

  datatype Op = Write(t: MsgType, data: seq<byte>) | Read(t: MsgType) | Reset(t: MsgType) | GetMsgNum(t: MsgType)

  datatype Out = Done | Failed | Empty | Message(bytes: seq<byte>) | Count(n: nat)

  /** One call on the ring of its type. */
  function ApplyOne(r: Ring, op: Op): (res: (Ring, Out))
    requires r.Valid()
    ensures res.0.Valid() && res.0.msgType == r.msgType && res.0.capacity == r.capacity
  {
    var size := MsgTypeSize(r.msgType);
    match op
    case Write(_, data) =>
      if size == 0 || |data| > size then (r, Failed)
      else (r.(queue := Enqueue(r.queue, r.capacity, data, size)), Done)
    case Read(_) =>
      if size == 0 then (r, Failed)
      else if r.queue == [] then (r, Empty)
      else (r.(queue := r.queue[1..]), Message(r.queue[0]))
    case Reset(_) => (r.(queue := []), Done)
    case GetMsgNum(_) => (r, Count(|r.queue|))
  }

  /** The first ring of a type, or the number of rings if there is none. */
  function Find(rs: seq<Ring>, t: MsgType): (i: nat)
    ensures i <= |rs| && (i < |rs| ==> rs[i].msgType == t)
    ensures forall j :: 0 <= j < i ==> rs[j].msgType != t
  {
    if rs == [] || rs[0].msgType == t then 0 else 1 + Find(rs[1..], t)
  }

  ghost predicate RingsOk(rs: seq<Ring>) {
    && (forall i :: 0 <= i < |rs| ==> rs[i].Valid())
    && forall i, j :: 0 <= i < j < |rs| ==> rs[i].msgType != rs[j].msgType
  }

  /** One call on the pool.  A call for a type that is not registered fails and changes nothing. */
  function Apply(rs: seq<Ring>, op: Op): (res: (seq<Ring>, Out))
    requires RingsOk(rs)
    ensures RingsOk(res.0) && |res.0| == |rs|
  {
    var i := Find(rs, op.t);
    if i == |rs| then (rs, Failed)
    else
      var (r, out) := ApplyOne(rs[i], op);
      (rs[i := r], out)
  }

  /** A call for a registered type, spelled out at the place of its ring. */
  lemma ApplyAt(rs: seq<Ring>, op: Op)
    requires RingsOk(rs)
    ensures var i := Find(rs, op.t);
            if i == |rs| then Apply(rs, op) == (rs, Failed) else
            && rs[i].msgType == op.t && rs[i].Valid()
            && Apply(rs, op) == (rs[i := ApplyOne(rs[i], op).0], ApplyOne(rs[i], op).1)
            && (ApplyOne(rs[i], op).0 == rs[i] ==> Apply(rs, op).0 == rs)
  {
    hide ApplyOne;
  }

  // ---- runs ----

  function Run(rs: seq<Ring>, ops: seq<Op>): (res: seq<Ring>)
    requires RingsOk(rs)
    ensures RingsOk(res) && |res| == |rs|
    decreases |ops|
  {
    if ops == [] then rs else Apply(Run(rs, ops[..|ops| - 1]), ops[|ops| - 1]).0
  }

  function RunOne(r: Ring, ops: seq<Op>): (res: Ring)
    requires r.Valid()
    ensures res.Valid() && res.msgType == r.msgType && res.capacity == r.capacity
    decreases |ops|
  {
    if ops == [] then r else ApplyOne(RunOne(r, ops[..|ops| - 1]), ops[|ops| - 1]).0
  }

  /** The calls of a run that concern one type. */
  function Only(ops: seq<Op>, t: MsgType): (own: seq<Op>)
    decreases |ops|
  {
    if ops == [] then []
    else
      var own, last := Only(ops[..|ops| - 1], t), ops[|ops| - 1];
      if last.t == t then own + [last] else own
  }

  lemma RunOneSnoc(r: Ring, ops: seq<Op>, op: Op)
    requires r.Valid()
    ensures RunOne(r, ops + [op]) == ApplyOne(RunOne(r, ops), op).0
  {
    assert (ops + [op])[..|ops|] == ops;
  }

  /** A call changes the ring of its own type and no other. */
  lemma ApplyIsLocal(rs: seq<Ring>, op: Op, i: nat)
    requires RingsOk(rs) && i < |rs|
    ensures Apply(rs, op).0[i] == if op.t == rs[i].msgType then ApplyOne(rs[i], op).0 else rs[i]
    ensures op.t == rs[i].msgType ==> Apply(rs, op).1 == ApplyOne(rs[i], op).1
  {
    hide ApplyOne;
    assert op.t == rs[i].msgType ==> Find(rs, op.t) == i;
  }

  lemma {:induction false} RunKeepsTypes(rs: seq<Ring>, ops: seq<Op>, i: nat)
    requires RingsOk(rs) && i < |rs|
    ensures Run(rs, ops)[i].msgType == rs[i].msgType && Run(rs, ops)[i].capacity == rs[i].capacity
    decreases |ops|
  {
    hide Apply, ApplyOne;
    if ops != [] {
      RunKeepsTypes(rs, ops[..|ops| - 1], i);
      ApplyIsLocal(Run(rs, ops[..|ops| - 1]), ops[|ops| - 1], i);
    }
  }

  /** Types do not interfere: in any run a ring goes through exactly what its own calls do to it. */
  lemma {:induction false} RunIsLocal(rs: seq<Ring>, ops: seq<Op>, i: nat)
    requires RingsOk(rs) && i < |rs|
    ensures Run(rs, ops)[i] == RunOne(rs[i], Only(ops, rs[i].msgType))
    decreases |ops|
  {
    hide Apply, ApplyOne;
    if ops != [] {
      var before, op := ops[..|ops| - 1], ops[|ops| - 1];
      RunIsLocal(rs, before, i);
      RunKeepsTypes(rs, before, i);
      ApplyIsLocal(Run(rs, before), op, i);
      RunOneSnoc(rs[i], Only(before, rs[i].msgType), op);
    }
  }

  // ---- one ring over a whole run ----

  predicate Accepted(op: Op, size: nat) {
    op.Write? && size > 0 && |op.data| <= size
  }

  /** The data of the accepted writes since the last reset, in order. */
  function History(ops: seq<Op>, size: nat): (w: seq<seq<byte>>)
    ensures forall i :: 0 <= i < |w| ==> |w[i]| <= size
    decreases |ops|
  {
    if ops == [] then []
    else
      var before, op := History(ops[..|ops| - 1], size), ops[|ops| - 1];
      if op.Reset? then [] else if Accepted(op, size) then before + [op.data] else before
  }

  /** The queue holds the last writes, oldest first; each entry begins with what was written. */
  ghost predicate HoldsLast(q: seq<seq<byte>>, w: seq<seq<byte>>) {
    |q| <= |w| && forall i :: 0 <= i < |q| ==> w[|w| - |q| + i] <= q[i]
  }

  lemma EnqueueHoldsLast(q: seq<seq<byte>>, capacity: nat, w: seq<seq<byte>>, data: seq<byte>, size: nat)
    requires |q| <= capacity && capacity > 0 && |data| <= size
    requires forall i :: 0 <= i < |q| ==> |q[i]| == size
    requires HoldsLast(q, w)
    ensures HoldsLast(Enqueue(q, capacity, data, size), w + [data])
  {
    var r, v := Enqueue(q, capacity, data, size), w + [data];
    assert data <= r[|r| - 1];
    forall i | 0 <= i < |r| - 1 ensures v[|v| - |r| + i] <= r[i] {
      if |q| < capacity {
        assert r[i] == q[i] && v[|v| - |r| + i] == w[|w| - |q| + i];
      } else {
        assert r[i] == q[i + 1] && v[|v| - |r| + i] == w[|w| - |q| + (i + 1)];
      }
    }
  }

  lemma DequeueHoldsLast(q: seq<seq<byte>>, w: seq<seq<byte>>)
    requires HoldsLast(q, w) && q != []
    ensures HoldsLast(q[1..], w)
  {
    forall i | 0 <= i < |q| - 1 ensures w[|w| - (|q| - 1) + i] <= q[1..][i] {
      assert w[|w| - |q| + (i + 1)] <= q[i + 1];
    }
  }

  /** In every run the queue is the tail of the history of writes. */
  lemma {:induction false} Fifo(r: Ring, ops: seq<Op>)
    requires r.Valid() && r.queue == []
    ensures HoldsLast(RunOne(r, ops).queue, History(ops, MsgTypeSize(r.msgType)))
    decreases |ops|
  {
    hide Enqueue, MsgTypeSize;
    if ops != [] {
      var before, op := ops[..|ops| - 1], ops[|ops| - 1];
      Fifo(r, before);
      var now, w, size := RunOne(r, before), History(before, MsgTypeSize(r.msgType)), MsgTypeSize(r.msgType);
      if Accepted(op, size) {
        EnqueueHoldsLast(now.queue, now.capacity, w, op.data, size);
      } else if op.Read? && now.queue != [] {
        DequeueHoldsLast(now.queue, w);
      }
    }
  }

  /** How many of the writes since the last reset have left the queue, read or overwritten. */
  ghost function Departed(r: Ring, ops: seq<Op>): (n: nat)
    requires r.Valid() && r.queue == []
  {
    Fifo(r, ops);
    |History(ops, MsgTypeSize(r.msgType))| - |RunOne(r, ops).queue|
  }

  /** Reads come out in write order and none comes twice: a read yields the oldest write that has not
      departed, and departs it; a write departs one exactly when the queue is full; nothing else
      departs any.  A read says EMPTY exactly when nothing is left, and the count is what is left. */
  lemma ReadsInWriteOrder(r: Ring, ops: seq<Op>, op: Op)
    requires r.Valid() && r.queue == [] && MsgTypeSize(r.msgType) > 0
    ensures var size := MsgTypeSize(r.msgType);
            var w, n := History(ops, size), Departed(r, ops);
            var (after, out) := ApplyOne(RunOne(r, ops), op);
            match op
            case Read(_) =>
              && (out == Empty <==> n == |w|)
              && (n < |w| ==> out.Message? && w[n] <= out.bytes && Departed(r, ops + [op]) == n + 1)
            case Write(_, _) =>
              out == Done ==> Departed(r, ops + [op]) == if |w| - n == r.capacity then n + 1 else n
            case Reset(_) => Departed(r, ops + [op]) == 0
            case GetMsgNum(_) => out == Count(|w| - n) && Departed(r, ops + [op]) == n
  {
    hide Enqueue, MsgTypeSize, RunOne;
    Fifo(r, ops);
    Fifo(r, ops + [op]);
    RunOneSnoc(r, ops, op);
    assert (ops + [op])[..|ops|] == ops;
  }

  /** For each write of the history, whether it found room. */
  function FoundRoom(r: Ring, ops: seq<Op>): (rooms: seq<bool>)
    requires r.Valid()
    ensures |rooms| == |History(ops, MsgTypeSize(r.msgType))|
    decreases |ops|
  {
    hide MsgTypeSize;
    if ops == [] then []
    else
      var before, op := ops[..|ops| - 1], ops[|ops| - 1];
      if op.Reset? then []
      else if Accepted(op, MsgTypeSize(r.msgType)) then
        FoundRoom(r, before) + [|RunOne(r, before).queue| < r.capacity]
      else FoundRoom(r, before)
  }

  /** Every entry whose own write found room is exactly the octets written and zeros. */
  ghost predicate ShowsExact(q: seq<seq<byte>>, w: seq<seq<byte>>, rooms: seq<bool>, size: nat)
    requires |rooms| == |w| && forall i :: 0 <= i < |w| ==> |w[i]| <= size
  {
    && |q| <= |w|
    && forall i :: 0 <= i < |q| ==> rooms[|w| - |q| + i] ==> q[i] == Pad(w[|w| - |q| + i], size)
  }

  lemma EnqueueShowsExact(q: seq<seq<byte>>, capacity: nat, w: seq<seq<byte>>, rooms: seq<bool>, data: seq<byte>,
      size: nat)
    requires |q| <= capacity && capacity > 0 && |data| <= size
    requires |rooms| == |w| && forall i :: 0 <= i < |w| ==> |w[i]| <= size
    requires forall i :: 0 <= i < |q| ==> |q[i]| == size
    requires ShowsExact(q, w, rooms, size)
    ensures ShowsExact(Enqueue(q, capacity, data, size), w + [data], rooms + [|q| < capacity], size)
  {
    hide Pad, Overlay;
    var r, v, flags := Enqueue(q, capacity, data, size), w + [data], rooms + [|q| < capacity];
    forall i | 0 <= i < |r| && flags[|v| - |r| + i] ensures r[i] == Pad(v[|v| - |r| + i], size) {
      if i < |r| - 1 {
        var k := if |q| < capacity then i else i + 1;
        assert r[i] == q[k] && v[|v| - |r| + i] == w[|w| - |q| + k] && flags[|v| - |r| + i] == rooms[|w| - |q| + k];
      }
    }
  }

  lemma DequeueShowsExact(q: seq<seq<byte>>, w: seq<seq<byte>>, rooms: seq<bool>, size: nat)
    requires |rooms| == |w| && forall i :: 0 <= i < |w| ==> |w[i]| <= size
    requires ShowsExact(q, w, rooms, size) && q != []
    ensures ShowsExact(q[1..], w, rooms, size)
  {
    hide Pad;
    forall i | 0 <= i < |q| - 1 && rooms[|w| - (|q| - 1) + i] ensures q[1..][i] == Pad(w[|w| - (|q| - 1) + i], size) {
      assert rooms[|w| - |q| + (i + 1)];
    }
  }

  /** In every run a message whose write found room reads back as exactly the octets written and zeros,
      whatever overflowed before or after it. */
  lemma {:induction false} ExactWhereRoom(r: Ring, ops: seq<Op>)
    requires r.Valid() && r.queue == []
    ensures ShowsExact(RunOne(r, ops).queue, History(ops, MsgTypeSize(r.msgType)), FoundRoom(r, ops),
            MsgTypeSize(r.msgType))
    decreases |ops|
  {
    hide Enqueue, MsgTypeSize, Pad;
    if ops != [] {
      var before, op := ops[..|ops| - 1], ops[|ops| - 1];
      ExactWhereRoom(r, before);
      var now, w, size := RunOne(r, before), History(before, MsgTypeSize(r.msgType)), MsgTypeSize(r.msgType);
      if Accepted(op, size) {
        EnqueueShowsExact(now.queue, now.capacity, w, FoundRoom(r, before), op.data, size);
      } else if op.Read? && now.queue != [] {
        DequeueShowsExact(now.queue, w, FoundRoom(r, before), size);
      }
    }
  }

  /** No write of the run found the ring full. */
  ghost predicate NeverFull(r: Ring, ops: seq<Op>)
    requires r.Valid()
    decreases |ops|
  {
    ops == [] ||
    (var before, op := ops[..|ops| - 1], ops[|ops| - 1];
     NeverFull(r, before) && (Accepted(op, MsgTypeSize(r.msgType)) ==> |RunOne(r, before).queue| < r.capacity))
  }

  lemma {:induction false} NeverFullFoundRoom(r: Ring, ops: seq<Op>)
    requires r.Valid() && NeverFull(r, ops)
    ensures forall i :: 0 <= i < |FoundRoom(r, ops)| ==> FoundRoom(r, ops)[i]
    decreases |ops|
  {
    hide MsgTypeSize, RunOne;
    if ops != [] {
      NeverFullFoundRoom(r, ops[..|ops| - 1]);
    }
  }

  /** So without any overflow every message reads back so. */
  lemma ExactWithoutOverflow(r: Ring, ops: seq<Op>)
    requires r.Valid() && r.queue == [] && NeverFull(r, ops)
    ensures var q, size := RunOne(r, ops).queue, MsgTypeSize(r.msgType);
            var w := History(ops, size);
            |q| <= |w| && forall i :: 0 <= i < |q| ==> q[i] == Pad(w[|w| - |q| + i], size)
  {
    hide MsgTypeSize, RunOne, FoundRoom, History, NeverFull;
    ExactWhereRoom(r, ops);
    NeverFullFoundRoom(r, ops);
  }

  /** A write shows the octets written and zeros exactly if there was room, or the message it covers
      was zero beyond them. */
  lemma WriteIsExactIff(q: seq<seq<byte>>, capacity: nat, data: seq<byte>, size: nat)
    requires |q| <= capacity && capacity > 0 && |data| <= size
    requires forall i :: 0 <= i < |q| ==> |q[i]| == size
    ensures var r := Enqueue(q, capacity, data, size);
            r[|r| - 1] == Pad(data, size) <==>
            |q| < capacity || q[0][|data|..] == Zeros(size - |data|)
  {
    if |q| == capacity {
      assert Overlay(data, q[0])[|data|..] == q[0][|data|..];
      assert Pad(data, size)[|data|..] == Zeros(size - |data|);
    }
  }

  function Full(n: nat): (ops: seq<Op>)
    ensures |ops| == n
  {
    seq(n, _ => Write(VtsTx, LONG))
  }

  const LONG: seq<byte> := [1, 1, 1, 1, 1, 1, 1, 1, 1, 1, 1, 1, 1, 1, 1, 1, 1]

  lemma {:induction false} FullQueue(n: nat)
    requires n <= 32
    ensures RunOne(Ring(VtsTx, 32, []), Full(n)).queue == seq(n, _ => LONG)
  {
    if n > 0 {
      FullQueue(n - 1);
      assert Full(n)[..n - 1] == Full(n - 1);
      assert Pad(LONG, 17) == LONG;
    }
  }

  /** The VtsTx ring, with its 32 slots of 17 octets: after 32 full messages a message of one
      octet reads back with the end of the oldest of them. */
  lemma StaleTail()
    ensures var q := RunOne(Ring(VtsTx, 32, []), Full(32) + [Write(VtsTx, [9])]).queue;
            |q| == 32 && q[31] == [9] + LONG[1..] && q[31] != Pad([9], 17)
  {
    var r := Ring(VtsTx, 32, []);
    FullQueue(32);
    RunOneSnoc(r, Full(32), Write(VtsTx, [9]));
    assert Overlay([9], LONG) == [9] + LONG[1..];
    assert Pad([9], 17)[1] == 0;
  }

  // ---- many writes at once ----

  function EnqueueAll(q: seq<seq<byte>>, capacity: nat, ms: seq<seq<byte>>, size: nat): (r: seq<seq<byte>>)
    requires |q| <= capacity && capacity > 0 && forall i :: 0 <= i < |ms| ==> |ms[i]| <= size
    requires forall i :: 0 <= i < |q| ==> |q[i]| == size
    ensures |r| <= capacity && forall i :: 0 <= i < |r| ==> |r[i]| == size
    decreases |ms|
  {
    if ms == [] then q else Enqueue(EnqueueAll(q, capacity, ms[..|ms| - 1], size), capacity, ms[|ms| - 1], size)
  }

  /** The ring ends as the last entries of what was queued before followed by what was written. */
  lemma {:induction false} EnqueueAllKeepsLast(q: seq<seq<byte>>, capacity: nat, ms: seq<seq<byte>>, size: nat)
    requires |q| <= capacity && capacity > 0 && forall i :: 0 <= i < |ms| ==> |ms[i]| <= size
    requires forall i :: 0 <= i < |q| ==> |q[i]| == size
    ensures var r := EnqueueAll(q, capacity, ms, size);
            HoldsLast(r, q + ms) && |r| == if |q| + |ms| < capacity then |q| + |ms| else capacity
    decreases |ms|
  {
    hide Enqueue;
    if ms == [] {
      assert q + ms == q;
    } else {
      var before, last := ms[..|ms| - 1], ms[|ms| - 1];
      EnqueueAllKeepsLast(q, capacity, before, size);
      EnqueueHoldsLast(EnqueueAll(q, capacity, before, size), capacity, q + before, last, size);
      assert q + before + [last] == q + ms;
    }
  }
}
