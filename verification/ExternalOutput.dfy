/** Messages from the application to external devices: written into the pool, drained once a cycle and
    handed to the session of their kind and device. */
module ExternalOutput {
  import opened Bytes
  import opened MessageRing
  import opened PoolSpec
  import opened MessagePool
  import opened PayloadPublisher

  const APP_TYPE_RSSP1: byte := 1
  const APP_TYPE_DY037: byte := 2
  const APP_TYPE_RAW: byte := 3
  const DY037_CONNECT: byte := 0

  /** Whom a message is for.  A CONNECT of the safety protocol names its session by an identity. */
  datatype Target = Ext(device: nat) | Rssp1(device: nat) | Raw(device: nat) | OtherAsw(device: nat)
                  | Maintenance(device: nat)
                  | Safety037(device: nat) | Safety037Connect(identity: byte) | Nobody

  /** What a session is called with: the message's number, its size field and the message area. */
  datatype Handed = Handed(target: Target, msgId: byte, size: nat, area: seq<byte>)

  /** The devices for which there is a raw session, and those of the other application interface. */
  datatype Sessions = Sessions(raw: set<nat>, otherAsw: set<nat>)

  function Route(ss: Sessions, appType: byte, msgId: byte, device: nat, first: byte): (t: Target) {
    if appType == APP_TYPE_EXT then Ext(device)
    else if appType == APP_TYPE_RSSP1 then Rssp1(device)
    else if appType == APP_TYPE_RAW then
      if device in ss.raw then Raw(device) else if device in ss.otherAsw then OtherAsw(device) else Maintenance(device)
    else if appType == APP_TYPE_DY037 then
      if msgId == DY037_CONNECT then Safety037Connect(first) else Safety037(device)
    else Nobody
  }

  /** What a slot's message is handed over as. */
  function HandedOver(ss: Sessions, b: seq<byte>): (h: Handed)
    requires |b| == SLOT
  {
    Handed(Route(ss, b[15], b[16], LittleValue(b[7..11]), b[HEADER_SIZE]), b[16], LittleValue(b[11..13]),
      b[HEADER_SIZE..])
  }

  function HandedAll(ss: Sessions, bs: seq<seq<byte>>): (hs: seq<Handed>)
    requires WholeSlots(bs)
    ensures |hs| == |bs|
  {
    seq(|bs|, i requires 0 <= i < |bs| => HandedOver(ss, bs[i]))
  }

  // ---- the application's writes ----

  /** A message of the application: its kind, its number, the version, then the data. */
  datatype Outgoing = Outgoing(device: nat, message: seq<byte>) {
    predicate Accepted() {
      device < 0x1_0000_0000 && 3 <= |message| <= MAX_MESSAGE + 3
    }
  }

  function Packed(m: Outgoing): (b: seq<byte>)
    requires m.Accepted()
    ensures |b| == HEADER_SIZE + |m.message| - 3
  {
    Header(m.message[1], m.message[0], m.message[2], m.device, |m.message| - 3) + m.message[3..]
  }

  /** A CONNECT of the safety protocol without the data that names its session. */
  predicate Bare(m: Outgoing)
    requires m.Accepted()
  {
    m.message[0] == APP_TYPE_DY037 && m.message[1] == DY037_CONNECT && |m.message| == 3
  }

  /** Where a message goes, said in its own first octets: 10 to the external device, 1 to the RSSP-1 session,
      3 to the raw session if there is one, else to the other application if there is one, else to
      maintenance, 2 to the safety session of the device, or for a CONNECT of the identity `first`. */
  ghost predicate RightTarget(ss: Sessions, m: Outgoing, first: byte, t: Target)
    requires m.Accepted()
  {
    && (m.message[0] == 10 ==> t == Ext(m.device))
    && (m.message[0] == 1 ==> t == Rssp1(m.device))
    && (m.message[0] == 3 && m.device in ss.raw ==> t == Raw(m.device))
    && (m.message[0] == 3 && m.device !in ss.raw && m.device in ss.otherAsw ==> t == OtherAsw(m.device))
    && (m.message[0] == 3 && m.device !in ss.raw && m.device !in ss.otherAsw ==> t == Maintenance(m.device))
    && (m.message[0] == 2 && m.message[1] == 0 ==> t == Safety037Connect(first))
    && (m.message[0] == 2 && m.message[1] != 0 ==> t == Safety037(m.device))
    && (m.message[0] !in {1, 2, 3, 10} ==> t == Nobody)
  }

  /** The number and the data are the message's. */
  ghost predicate Intact(h: Handed, m: Outgoing)
    requires m.Accepted()
  {
    && h.msgId == m.message[1] && h.size == |m.message| - 3
    && h.size <= |h.area| && h.area[..h.size] == m.message[3..]
  }

  /** A slot that begins with a packed message is handed over as that message, to a target of its kind and
      device; the octet behind the header is the message's first, if it has data. */
  lemma PackedIsHandedOver(ss: Sessions, m: Outgoing, b: seq<byte>)
    requires m.Accepted() && |b| == SLOT && Packed(m) <= b
    ensures var h := HandedOver(ss, b);
            && Intact(h, m) && RightTarget(ss, m, b[HEADER_SIZE], h.target)
            && (|m.message| > 3 ==> b[HEADER_SIZE] == m.message[3])
  {
    var body := m.message[3..];
    HeaderParts(m.message[1], m.message[0], m.message[2], m.device, |body|);
    assert Pow256(2) == 0x10000 && Pow256(3) == 0x100_0000 && Pow256(4) == 0x1_0000_0000;
    LittleRoundTrip(m.device, 4);
    LittleRoundTrip(|body|, 2);
    var h := Header(m.message[1], m.message[0], m.message[2], m.device, |body|);
    hide Header, Little, LittleValue, Pow256;
    Pieces(h, body, b);
    assert b[HEADER_SIZE..][..|body|] == b[HEADER_SIZE..HEADER_SIZE + |body|];
    if |m.message| > 3 {
      assert b[HEADER_SIZE] == b[HEADER_SIZE..HEADER_SIZE + |body|][0];
    }
  }

  /** Whatever lies behind the message in its slot, it goes to `t`. */
  ghost predicate AlwaysTo(ss: Sessions, m: Outgoing, t: Target)
    requires m.Accepted()
  {
    forall b: seq<byte> :: |b| == SLOT && Packed(m) <= b ==> HandedOver(ss, b).target == t
  }

  /** The slot of a message in front of a given octet. */
  function InSlot(m: Outgoing, next: byte): (b: seq<byte>)
    requires m.Accepted() && |m.message| == 3
    ensures |b| == SLOT && Packed(m) <= b && b[HEADER_SIZE] == next
  {
    Packed(m) + [next] + Zeros(SLOT - HEADER_SIZE - 1)
  }

  /** A message has one target whatever lies behind it, if and only if it has data or is no CONNECT. */
  lemma TargetIsFixedIff(ss: Sessions, m: Outgoing)
    requires m.Accepted()
    ensures (exists t :: AlwaysTo(ss, m, t)) <==> !Bare(m)
  {
    if Bare(m) {
      PackedIsHandedOver(ss, m, InSlot(m, 0));
      PackedIsHandedOver(ss, m, InSlot(m, 1));
      hide Packed, HandedOver, InSlot;
      assert HandedOver(ss, InSlot(m, 0)).target != HandedOver(ss, InSlot(m, 1)).target;
    } else {
      var t := Route(ss, m.message[0], m.message[1], m.device, if |m.message| > 3 then m.message[3] else 0);
      forall b: seq<byte> | |b| == SLOT && Packed(m) <= b ensures HandedOver(ss, b).target == t {
        PackedIsHandedOver(ss, m, b);
        hide Packed, HandedOver;
      }
      assert AlwaysTo(ss, m, t);
    }
  }

  /** The identity a bare CONNECT gets: zero if the ring had room, and otherwise the octet in that place
      of the message it covers. */
  lemma BareIdentity(ss: Sessions, q: seq<seq<byte>>, capacity: nat, m: Outgoing)
    requires m.Accepted() && Bare(m) && 0 < capacity && |q| <= capacity && WholeSlots(q)
    ensures var r := Enqueue(q, capacity, Packed(m), SLOT);
            HandedOver(ss, r[|r| - 1]).target == Safety037Connect(if |q| < capacity then 0 else q[0][HEADER_SIZE])
  {
    hide Packed, HandedOver;
    var r := Enqueue(q, capacity, Packed(m), SLOT);
    PackedIsHandedOver(ss, m, r[|r| - 1]);
  }

  ghost predicate AllAccepted(ms: seq<Outgoing>) {
    forall i :: 0 <= i < |ms| ==> ms[i].Accepted()
  }

  function PackedAll(ms: seq<Outgoing>): (bs: seq<seq<byte>>)
    requires AllAccepted(ms)
    ensures |bs| == |ms| && FitSlots(bs) && forall i :: 0 <= i < |ms| ==> bs[i] == Packed(ms[i])
  {
    hide Packed;
    seq(|ms|, i requires 0 <= i < |ms| => Packed(ms[i]))
  }

  /** The octet behind the header of message `j`'s slot, when the messages are written one after the other:
      the first of its data; without data, what lay there in the slot it took. */
  function First(q: seq<seq<byte>>, capacity: nat, ms: seq<Outgoing>, j: nat): (x: byte)
    requires 0 < capacity && |q| <= capacity && WholeSlots(q) && AllAccepted(ms) && j < |ms|
  {
    if |ms[j].message| > 3 then ms[j].message[3]
    else if |q| + j < capacity then 0
    else if j < capacity then q[|q| + j - capacity][HEADER_SIZE]
    else First(q, capacity, ms, j - capacity)
  }

  /** In a ring after `n` of the messages, the slots show those octets. */
  ghost predicate Shows(q: seq<seq<byte>>, capacity: nat, ms: seq<Outgoing>, n: nat, r: seq<seq<byte>>)
    requires 0 < capacity && |q| <= capacity && WholeSlots(q) && AllAccepted(ms) && n <= |ms|
  {
    && |r| == (if |q| + n < capacity then |q| + n else capacity)
    && forall i :: 0 <= i < |r| ==>
         |r[i]| == SLOT && r[i][HEADER_SIZE] == Behind(q, capacity, ms, |q| + n - |r| + i)
  }

  /** The octet behind the header of entry `p` of what was queued and then written. */
  function Behind(q: seq<seq<byte>>, capacity: nat, ms: seq<Outgoing>, p: nat): (x: byte)
    requires 0 < capacity && |q| <= capacity && WholeSlots(q) && AllAccepted(ms) && p < |q| + |ms|
  {
    if p < |q| then q[p][HEADER_SIZE] else First(q, capacity, ms, p - |q|)
  }

  lemma ShowsNext(q: seq<seq<byte>>, capacity: nat, ms: seq<Outgoing>, n: nat, r: seq<seq<byte>>)
    requires 0 < capacity && |q| <= capacity && WholeSlots(q) && AllAccepted(ms) && n < |ms|
    requires WholeSlots(r) && Shows(q, capacity, ms, n, r)
    ensures Shows(q, capacity, ms, n + 1, Enqueue(r, capacity, Packed(ms[n]), SLOT))
  {
    var s := Enqueue(r, capacity, Packed(ms[n]), SLOT);
    LastShows(q, capacity, ms, n, r);
    EnqueueMoves(r, capacity, Packed(ms[n]));
    hide Packed, Behind, Enqueue;
    var dropped := |r| + 1 - |s|;
    forall i | 0 <= i < |s|
      ensures |s[i]| == SLOT && s[i][HEADER_SIZE] == Behind(q, capacity, ms, |q| + n + 1 - |s| + i)
    {
      if i < |s| - 1 {
        assert s[i] == r[i + dropped];
      }
    }
  }

  /** An enqueue moves the others up and leaves them alone. */
  lemma EnqueueMoves(r: seq<seq<byte>>, capacity: nat, data: seq<byte>)
    requires |r| <= capacity && capacity > 0 && |data| <= SLOT && WholeSlots(r)
    ensures var s := Enqueue(r, capacity, data, SLOT);
            && |s| == (if |r| < capacity then |r| + 1 else capacity) && WholeSlots(s)
            && forall i :: 0 <= i < |s| - 1 ==> s[i] == r[i + |r| + 1 - |s|]
  {
    hide Pad, Overlay;
  }

  lemma LastShows(q: seq<seq<byte>>, capacity: nat, ms: seq<Outgoing>, n: nat, r: seq<seq<byte>>)
    requires 0 < capacity && |q| <= capacity && WholeSlots(q) && AllAccepted(ms) && n < |ms|
    requires WholeSlots(r) && Shows(q, capacity, ms, n, r)
    ensures var s := Enqueue(r, capacity, Packed(ms[n]), SLOT);
            s[|s| - 1][HEADER_SIZE] == Behind(q, capacity, ms, |q| + n)
  {
    var data := Packed(ms[n]);
    var s := Enqueue(r, capacity, data, SLOT);
    var last := s[|s| - 1];
    assert data <= last;
    DataBehindHeader(ms[n], last);
    hide Packed;
    if |ms[n].message| == 3 {
      assert last == if |r| < capacity then Pad(data, SLOT) else Overlay(data, r[0]);
      assert last[HEADER_SIZE] == if |r| < capacity then 0 else r[0][HEADER_SIZE];
    }
  }

  lemma DataBehindHeader(m: Outgoing, b: seq<byte>)
    requires m.Accepted() && |b| == SLOT && Packed(m) <= b
    ensures |m.message| > 3 ==> b[HEADER_SIZE] == m.message[3]
  {
    hide Header;
  }

  lemma {:induction false} ShowsAll(q: seq<seq<byte>>, capacity: nat, ms: seq<Outgoing>, n: nat)
    requires 0 < capacity && |q| <= capacity && WholeSlots(q) && AllAccepted(ms) && n <= |ms|
    ensures Shows(q, capacity, ms, n, EnqueueAll(q, capacity, PackedAll(ms)[..n], SLOT))
  {
    hide Enqueue, Packed, Shows;
    if n == 0 {
      ShowsNone(q, capacity, ms);
    } else {
      ShowsAll(q, capacity, ms, n - 1);
      assert PackedAll(ms)[..n][..n - 1] == PackedAll(ms)[..n - 1];
      ShowsNext(q, capacity, ms, n - 1, EnqueueAll(q, capacity, PackedAll(ms)[..n - 1], SLOT));
    }
  }

  lemma ShowsNone(q: seq<seq<byte>>, capacity: nat, ms: seq<Outgoing>)
    requires 0 < capacity && |q| <= capacity && WholeSlots(q) && AllAccepted(ms)
    ensures Shows(q, capacity, ms, 0, q)
  {
  }

  /** The slots `r` are handed over as the last of the messages, in order, each as it was written. */
  ghost predicate Arrive(ss: Sessions, q: seq<seq<byte>>, capacity: nat, r: seq<seq<byte>>, ms: seq<Outgoing>)
    requires 0 < capacity && |q| <= capacity && WholeSlots(q) && AllAccepted(ms)
  {
    && |r| <= |ms| && WholeSlots(r)
    && forall i :: 0 <= i < |r| ==>
         var j := |ms| - |r| + i;
         var h := HandedOver(ss, r[i]);
         Intact(h, ms[j]) && RightTarget(ss, ms[j], First(q, capacity, ms, j), h.target)
  }

  /** A cycle's messages reach their sessions in the order they were written, each as it was written and at
      the target it names, behind those that were waiting already; of more than the ring holds, the last
      ones do. */
  lemma LastAreHandedOver(ss: Sessions, q: seq<seq<byte>>, ms: seq<Outgoing>, capacity: nat)
    requires 0 < capacity && |q| <= capacity && WholeSlots(q) && AllAccepted(ms)
    ensures var tail := Tail(q, capacity, PackedAll(ms));
            |tail| == (if |ms| < capacity then |ms| else capacity) && Arrive(ss, q, capacity, tail, ms)
  {
    var bs := PackedAll(ms);
    EnqueueAllKeepsLast(q, capacity, bs, SLOT);
    var r, tail := EnqueueAll(q, capacity, bs, SLOT), Tail(q, capacity, bs);
    assert tail == r[|r| - |tail|..];
    ShowsAll(q, capacity, ms, |ms|);
    assert bs[..|ms|] == bs;
    hide *;
    TailArrives(ss, q, capacity, r, |tail|, ms);
  }

  lemma TailArrives(ss: Sessions, q: seq<seq<byte>>, capacity: nat, r: seq<seq<byte>>, n: nat, ms: seq<Outgoing>)
    requires 0 < capacity && |q| <= capacity && WholeSlots(q) && AllAccepted(ms)
    requires HoldsLast(r, q + PackedAll(ms)) && n <= |r| && n <= |ms| && WholeSlots(r[|r| - n..])
    requires Shows(q, capacity, ms, |ms|, r)
    ensures Arrive(ss, q, capacity, r[|r| - n..], ms)
  {
    hide PackedAll, Packed, HandedOver, HoldsLast, First, Intact, RightTarget;
    var tail := r[|r| - n..];
    forall i | 0 <= i < n
      ensures var j := |ms| - n + i;
              var h := HandedOver(ss, tail[i]);
              Intact(h, ms[j]) && RightTarget(ss, ms[j], First(q, capacity, ms, j), h.target)
    {
      LastOf(q, PackedAll(ms), r, n, i);
      PackedIsHandedOver(ss, ms[|ms| - n + i], tail[i]);
      assert tail[i] == r[|r| - n + i];
    }
  }

  /** More messages than the ring holds, all with an octet 7 of data, and then a bare CONNECT. */
  function Crowd(): (ms: seq<Outgoing>)
    ensures |ms| == 151 && AllAccepted(ms)
  {
    seq(151, j => if j < 150 then Outgoing(1, [APP_TYPE_EXT, 0, 0, 7])
                  else Outgoing(1, [APP_TYPE_DY037, DY037_CONNECT, 0]))
  }

  /** The CONNECT goes to the session with the identity 7, which nobody wrote into it. */
  lemma StrayConnect(ss: Sessions)
    ensures var tail := Tail([], 150, PackedAll(Crowd()));
            |tail| == 150 && HandedOver(ss, tail[149]).target == Safety037Connect(7)
  {
    var ms := Crowd();
    LastAreHandedOver(ss, [], ms, 150);
    assert First([], 150, ms, 0) == 7;
    assert First([], 150, ms, 150) == 7;
  }

  // ---- a whole cycle ----

  /** The writes that reach the pool, one for each accepted message. */
  function Writes(ms: seq<Outgoing>): (ops: seq<Op>)
    requires AllAccepted(ms)
    ensures |ops| == |ms|
  {
    seq(|ms|, i requires 0 <= i < |ms| => Op.Write(AppTx, Packed(ms[i])))
  }

  lemma {:induction false} WritesExtend(r: Ring, ms: seq<Outgoing>, n: nat)
    requires r.Valid() && r.msgType == AppTx && AllAccepted(ms) && n <= |ms| && WholeSlots(r.queue)
    ensures RunOne(r, Writes(ms)[..n]) == r.(queue := EnqueueAll(r.queue, r.capacity, PackedAll(ms)[..n], SLOT))
  {
    hide Enqueue, Packed;
    if n > 0 {
      WritesExtend(r, ms, n - 1);
      assert Writes(ms)[..n][..n - 1] == Writes(ms)[..n - 1];
      assert PackedAll(ms)[..n][..n - 1] == PackedAll(ms)[..n - 1];
    }
  }

  /** Between two drains, among any calls for other types of message, the application writes `ms`: then the
      next drain finds them in the outgoing ring, and hands over the last of them as they were written. */
  lemma CycleIsHandedOver(ss: Sessions, rs: seq<Ring>, ops: seq<Op>, ms: seq<Outgoing>)
    requires RingsOk(rs) && Find(rs, AppTx) < |rs| && AllAccepted(ms) && Only(ops, AppTx) == Writes(ms)
    ensures var i := Find(rs, AppTx);
            var r, s := rs[i], Run(rs, ops)[i];
            && Find(Run(rs, ops), AppTx) == i && r.Valid() && WholeSlots(r.queue) && WholeSlots(s.queue)
            && s.queue == EnqueueAll(r.queue, r.capacity, PackedAll(ms), SLOT)
            && var n := if |ms| < r.capacity then |ms| else r.capacity;
               n <= |s.queue| && Arrive(ss, r.queue, r.capacity, s.queue[|s.queue| - n..], ms)
  {
    var i := Find(rs, AppTx);
    RingIsWhole(rs, i);
    RunIsLocal(rs, ops, i);
    FindAfterRun(rs, ops, AppTx);
    hide *;
    RingAfterWrites(ss, rs[i], ms);
  }

  lemma RingAfterWrites(ss: Sessions, r: Ring, ms: seq<Outgoing>)
    requires r.Valid() && r.msgType == AppTx && WholeSlots(r.queue) && AllAccepted(ms)
    ensures var s := RunOne(r, Writes(ms));
            && WholeSlots(s.queue) && s.queue == EnqueueAll(r.queue, r.capacity, PackedAll(ms), SLOT)
            && var n := if |ms| < r.capacity then |ms| else r.capacity;
               n <= |s.queue| && Arrive(ss, r.queue, r.capacity, s.queue[|s.queue| - n..], ms)
  {
    WritesExtend(r, ms, |ms|);
    assert Writes(ms)[..|ms|] == Writes(ms) && PackedAll(ms)[..|ms|] == PackedAll(ms);
    assert WholeSlots(EnqueueAll(r.queue, r.capacity, PackedAll(ms), SLOT));
    TailIs(r.queue, r.capacity, PackedAll(ms));
    hide *;
    LastAreHandedOver(ss, r.queue, ms, r.capacity);
  }

  lemma RingIsWhole(rs: seq<Ring>, i: nat)
    requires RingsOk(rs) && i < |rs| && rs[i].msgType == AppTx
    ensures rs[i].Valid() && WholeSlots(rs[i].queue)
  {
    assert rs[i].Valid();
  }

  lemma TailIs(q: seq<seq<byte>>, capacity: nat, bs: seq<seq<byte>>)
    requires 0 < capacity && |q| <= capacity && WholeSlots(q) && FitSlots(bs)
    ensures var r, n := EnqueueAll(q, capacity, bs, SLOT), if |bs| < capacity then |bs| else capacity;
            n <= |r| && Tail(q, capacity, bs) == r[|r| - n..]
  {
    EnqueueAllKeepsLast(q, capacity, bs, SLOT);
  }

  lemma FindAfterRun(rs: seq<Ring>, ops: seq<Op>, t: MsgType)
    requires RingsOk(rs)
    ensures Find(Run(rs, ops), t) == Find(rs, t)
  {
    forall i: nat | i < |rs| ensures Run(rs, ops)[i].msgType == rs[i].msgType {
      RunKeepsTypes(rs, ops, i);
    }
    hide Find;
    FindIs(Run(rs, ops), t, Find(rs, t));
  }

  /** What the application hands over: a structure with a size and an array of 2500 octets. */
  datatype Structure = Structure(device: nat, size: nat, octets: seq<byte>) {
    predicate Valid() {
      device < 0x1_0000_0000 && size < 0x10000 && |octets| == MAX_MESSAGE
    }

    /** The message as the call sees it, with the octets that happen to lie behind the array. */
    function Message(behind: seq<byte>): (m: Outgoing)
      requires Valid() && size <= MAX_MESSAGE + 3 && |behind| == 3
      ensures |m.message| == size && m.device == device
    {
      Outgoing(device, (octets + behind)[..size])
    }
  }

  predicate Taken(s: Structure) {
    3 <= s.size <= MAX_MESSAGE + 3
  }

  /** Nothing but the structure decides what is written, if and only if the size is at most that of the
      array; the call accepts three sizes more. */
  lemma StaysInBoundsIff(s: Structure)
    requires s.Valid() && Taken(s)
    ensures (forall b, c :: |b| == 3 && |c| == 3 ==> s.Message(b) == s.Message(c)) <==> s.size <= MAX_MESSAGE
  {
    if s.size <= MAX_MESSAGE {
      forall b: seq<byte>, c: seq<byte> | |b| == 3 && |c| == 3 ensures s.Message(b) == s.Message(c) {
        assert (s.octets + b)[..s.size] == s.octets[..s.size] == (s.octets + c)[..s.size];
      }
    } else {
      assert s.Message([0, 0, 0]).message[MAX_MESSAGE] == 0 && s.Message([1, 1, 1]).message[MAX_MESSAGE] == 1;
    }
  }

  /** An accepted message whose last octet is not the application's. */
  lemma ReadsBehindTheArray(behind: seq<byte>)
    requires |behind| == 3
    ensures var s := Structure(0, MAX_MESSAGE + 1, Zeros(MAX_MESSAGE));
            s.Valid() && Taken(s) && s.Message(behind).Accepted() && s.Message(behind).message[MAX_MESSAGE] == behind[0]
  {
  }

  /** The application's writing call.  A size below three wraps around and is refused as too long. */
  method WriteNewMsg(pool: Pool, s: Structure, behind: seq<byte>) returns (ok: bool)
    requires pool.Valid() && s.Valid() && |behind| == 3
    modifies pool.slots, pool.index
    ensures pool.Valid()
    ensures if Taken(s) then
              && var m := s.Message(behind);
                 Apply(old(pool.Model()), Op.Write(AppTx, Packed(m))) == (pool.Model(), if ok then Done else Failed)
            else !ok && pool.Model() == old(pool.Model())
  {
    hide Header, Apply, PoolOk, Rings, RingsOk;
    if s.size <= 0 {
      return false;
    }
    var size := (s.size - 3) % 0x10000;
    if MAX_MESSAGE < size {
      return false;
    }
    ghost var m := s.Message(behind);
    assert (s.octets + behind)[3..3 + size] == m.message[3..];
    ok := pool.Write(AppTx, Header(s.octets[1], s.octets[0], s.octets[2], s.device, size)
                           + (s.octets + behind)[3..3 + size]);
  }

  // ---- the drain ----

  /** The pool's queues with the outgoing ring holding `q`. */
  function Outstanding(rs: seq<Ring>, q: seq<seq<byte>>): (res: seq<Ring>)
    requires Find(rs, AppTx) < |rs|
  {
    rs[Find(rs, AppTx) := rs[Find(rs, AppTx)].(queue := q)]
  }

  lemma TakeOne(rs: seq<Ring>, k: nat)
    requires RingsOk(rs) && Find(rs, AppTx) < |rs| && k <= |rs[Find(rs, AppTx)].queue|
    ensures var q := rs[Find(rs, AppTx)].queue;
            var now := Outstanding(rs, q[k..]);
            && RingsOk(now)
            && Apply(now, Op.Read(AppTx)) ==
               if k == |q| then (now, Empty) else (Outstanding(rs, q[k + 1..]), Message(q[k]))
  {
    var i := Find(rs, AppTx);
    var q := rs[i].queue;
    var now := Outstanding(rs, q[k..]);
    FindIs(now, AppTx, i);
    assert MsgTypeSize(AppTx) > 0;
    hide MsgTypeSize, Find;
    ApplyAt(now, Op.Read(AppTx));
    hide Apply;
    if k < |q| {
      assert q[k..][1..] == q[k + 1..];
      assert now[i := now[i].(queue := q[k + 1..])] == Outstanding(rs, q[k + 1..]);
    }
  }

  lemma NoOutgoingRing(rs: seq<Ring>)
    requires RingsOk(rs) && Find(rs, AppTx) >= |rs|
    ensures Apply(rs, Op.Read(AppTx)) == (rs, Failed)
  {
    ApplyAt(rs, Op.Read(AppTx));
  }

  lemma HandedAllSnoc(ss: Sessions, q: seq<seq<byte>>, k: nat)
    requires WholeSlots(q) && k < |q|
    ensures WholeSlots(q[..k]) && WholeSlots(q[..k + 1]) && |q[k]| == SLOT
    ensures HandedAll(ss, q[..k + 1]) == HandedAll(ss, q[..k]) + [HandedOver(ss, q[k])]
  {
    hide HandedOver;
  }

  /** Read until there is nothing more, handing over each message in turn. */
  method Drain(pool: Pool, ss: Sessions) returns (handed: seq<Handed>)
    requires pool.Valid()
    modifies pool.slots, pool.index
    ensures pool.Valid()
    ensures var rs := old(pool.Model());
            if Find(rs, AppTx) < |rs| then
              && var q := rs[Find(rs, AppTx)].queue;
                 pool.Model() == Outstanding(rs, []) && WholeSlots(q) && handed == HandedAll(ss, q)
            else pool.Model() == rs && handed == []
  {
    hide *;
    handed := [];
    ghost var rs := pool.Model();
    ghost var registered := Find(rs, AppTx) < |rs|;
    ghost var q, k := if registered then rs[Find(rs, AppTx)].queue else [], 0;
    if registered {
      StartOfDrain(rs, ss);
    } else {
      NoOutgoingRing(rs);
    }
    var more := true;
    while more
      invariant pool.Valid() && 0 <= k <= |q|
      invariant if registered then pool.Model() == Outstanding(rs, q[k..]) else pool.Model() == rs
      invariant if registered then WholeSlots(q[..k]) && handed == HandedAll(ss, q[..k]) else handed == []
      invariant registered && !more ==> k == |q|
      decreases |q| - k, more
    {
      if registered {
        TakeOne(rs, k);
      }
      var out := pool.Read(AppTx);
      if out.Message? {
        HandedAllSnoc(ss, q, k);
        var b := out.bytes;
        var h := HandOver(ss, b);
        handed := handed + [h];
        k := k + 1;
      } else {
        more := false;
      }
    }
    assert q[k..] == [] && q[..k] == q;
  }

  lemma StartOfDrain(rs: seq<Ring>, ss: Sessions)
    requires RingsOk(rs) && Find(rs, AppTx) < |rs|
    ensures var q := rs[Find(rs, AppTx)].queue;
            WholeSlots(q) && WholeSlots(q[..0]) && HandedAll(ss, q[..0]) == [] && Outstanding(rs, q[0..]) == rs
  {
    RingIsWhole(rs, Find(rs, AppTx));
    hide Find;
    var q := rs[Find(rs, AppTx)].queue;
    assert q[0..] == q;
  }

  /** The switch on the kind of message. */
  method HandOver(ss: Sessions, b: seq<byte>) returns (h: Handed)
    requires |b| == SLOT
    ensures h == HandedOver(ss, b)
  {
    hide LittleValue;
    var device, size := LittleValue(b[7..11]), LittleValue(b[11..13]);
    var appType, msgId, area := b[15], b[16], b[HEADER_SIZE..];
    match appType {
      case 10 => h := Handed(Ext(device), msgId, size, area);
      case 1 => h := Handed(Rssp1(device), msgId, size, area);
      case 3 =>
        if device in ss.raw {
          h := Handed(Raw(device), msgId, size, area);
        } else if device in ss.otherAsw {
          h := Handed(OtherAsw(device), msgId, size, area);
        } else {
          h := Handed(Maintenance(device), msgId, size, area);
        }
      case 2 =>
        if msgId == DY037_CONNECT {
          h := Handed(Safety037Connect(area[0]), msgId, size, area);
        } else {
          h := Handed(Safety037(device), msgId, size, area);
        }
      case _ => h := Handed(Nobody, msgId, size, area);
    }
  }
}
