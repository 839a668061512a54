/** Publishing payloads of an external device to the application, in chunks, through the message pool. */
module PayloadPublisher {
  import opened Wrappers
  import opened Bytes
  import opened MessageRing
  import opened PoolSpec
  import opened MessagePool

  const MAX_MESSAGE := 2500
  const HEADER_SIZE := 19
  const SLOT := HEADER_SIZE + MAX_MESSAGE
  const APP_TYPE_EXT: byte := 10
  const RAW_MSG_TO_APP_DATA: byte := 0

  // ---- the platform message ----

  /** Board, group, kinds and index zero; the device, the size, the link; the type, the message, the version, zero. */
  function Header(msgId: byte, appType: byte, version: byte, device: nat, size: nat): (h: seq<byte>)
    ensures |h| == HEADER_SIZE
  {
    Zeros(7) + Little(device, 4) + Little(size, 2) + Zeros(2) + [appType, msgId, version, 0]
  }

  /** What the application is given. */
  datatype AppMsg = AppMsg(device: nat, message: seq<byte>)

  /** The application's view of a platform message; the two size limits are the ones of the reading call. */
  function Received(b: seq<byte>): (m: Option<AppMsg>)
    requires |b| == SLOT
  {
    var size := LittleValue(b[11..13]);
    if size > MAX_MESSAGE || size + 3 > MAX_MESSAGE then None
    else Some(AppMsg(LittleValue(b[7..11]), [b[15], b[16], b[17]] + b[HEADER_SIZE..HEADER_SIZE + size]))
  }

  lemma HeaderParts(msgId: byte, appType: byte, version: byte, device: nat, size: nat)
    ensures var h := Header(msgId, appType, version, device, size);
            h[7..11] == Little(device, 4) && h[11..13] == Little(size, 2) && h[15] == appType && h[16] == msgId
              && h[17] == version
  {
    hide Little;
  }

  /** A message is received exactly if three more octets fit beside it, and then as it was sent,
      whatever lies behind it in its slot. */
  lemma ReceivedIff(msgId: byte, appType: byte, version: byte, device: nat, body: seq<byte>, b: seq<byte>)
    requires device < 0x1_0000_0000 && |body| <= MAX_MESSAGE
    requires |b| == SLOT && Header(msgId, appType, version, device, |body|) + body <= b
    ensures Received(b) == if |body| <= MAX_MESSAGE - 3 then Some(AppMsg(device, [appType, msgId, version] + body))
            else None
  {
    var h := Header(msgId, appType, version, device, |body|);
    HeaderParts(msgId, appType, version, device, |body|);
    assert Pow256(2) == 0x10000 && Pow256(3) == 0x100_0000 && Pow256(4) == 0x1_0000_0000;
    LittleRoundTrip(device, 4);
    LittleRoundTrip(|body|, 2);
    hide Header, Little, LittleValue, Pow256;
    Pieces(h, body, b);
  }

  lemma Pieces(h: seq<byte>, body: seq<byte>, b: seq<byte>)
    requires |h| == HEADER_SIZE && h + body <= b
    ensures b[7..11] == h[7..11] && b[11..13] == h[11..13] && b[15] == h[15] && b[16] == h[16] && b[17] == h[17]
    ensures b[HEADER_SIZE..HEADER_SIZE + |body|] == body
  {
    var whole := h + body;
    assert b[..|whole|] == whole;
    assert b[..HEADER_SIZE] == h;
    assert forall i :: 0 <= i < |h| ==> b[i] == h[i];
    assert b[HEADER_SIZE..HEADER_SIZE + |body|] == b[..|whole|][HEADER_SIZE..];
  }

  // ---- chunks ----

  function Chunks(payload: seq<byte>, most: nat): (cs: seq<seq<byte>>)
    requires most > 0
  {
    if payload == [] then []
    else
      var n := if most < |payload| then most else |payload|;
      [payload[..n]] + Chunks(payload[n..], most)
  }

  /** The chunks are the payload in order; none is empty or too long, and only the last may be short. */
  lemma {:induction false} ChunksPartition(payload: seq<byte>, most: nat)
    requires most > 0
    ensures var cs := Chunks(payload, most);
            && Flatten(cs) == payload
            && (forall i :: 0 <= i < |cs| ==> 0 < |cs[i]| <= most)
            && (forall i :: 0 <= i < |cs| - 1 ==> |cs[i]| == most)
  {
    if payload != [] {
      var n := if most < |payload| then most else |payload|;
      ChunksPartition(payload[n..], most);
      assert payload == payload[..n] + payload[n..];
    }
  }

  /** There are as few as can hold the payload. */
  lemma {:induction false} ChunkCount(payload: seq<byte>, most: nat)
    requires most > 0
    ensures var n := |Chunks(payload, most)|;
            |payload| <= n * most && (payload != [] ==> (n - 1) * most < |payload|) && (payload == [] ==> n == 0)
  {
    if payload != [] {
      var k := if most < |payload| then most else |payload|;
      ChunkCount(payload[k..], most);
      var rest := |Chunks(payload[k..], most)|;
      hide Chunks;
      assert (rest + 1) * most == rest * most + most && (rest - 1) * most == rest * most - most;
    }
  }

  function Message(device: nat, prefix: nat, chunk: seq<byte>): (m: seq<byte>)
    ensures |m| == HEADER_SIZE + prefix + |chunk|
  {
    Header(RAW_MSG_TO_APP_DATA, APP_TYPE_EXT, 0, device, prefix + |chunk|) + (Zeros(prefix) + chunk)
  }

  ghost predicate FitSlots(ms: seq<seq<byte>>) {
    forall i :: 0 <= i < |ms| ==> |ms[i]| <= SLOT
  }

  function Messages(device: nat, prefix: nat, payload: seq<byte>): (ms: seq<seq<byte>>)
    requires prefix < MAX_MESSAGE
    ensures FitSlots(ms)
    ensures |ms| == |Chunks(payload, MAX_MESSAGE - prefix)|
  {
    ChunksPartition(payload, MAX_MESSAGE - prefix);
    var cs := Chunks(payload, MAX_MESSAGE - prefix);
    seq(|cs|, i requires 0 <= i < |cs| => Message(device, prefix, cs[i]))
  }

  lemma MessagesNext(device: nat, prefix: nat, payload: seq<byte>)
    requires prefix < MAX_MESSAGE && payload != []
    ensures var most := MAX_MESSAGE - prefix;
            var n := if most < |payload| then most else |payload|;
            Messages(device, prefix, payload)
              == [Message(device, prefix, payload[..n])] + Messages(device, prefix, payload[n..])
  {
    hide Message;
  }

  // ---- what the application reads ----

  /** The part of a payload a platform message yields: nothing if it is refused. */
  function Part(b: seq<byte>, prefix: nat): (part: seq<byte>)
    requires |b| == SLOT
  {
    match Received(b)
    case None => []
    case Some(m) => if |m.message| >= 3 + prefix then m.message[3 + prefix..] else []
  }

  function ReadAll(bs: seq<seq<byte>>, prefix: nat): (payload: seq<byte>)
    requires WholeSlots(bs)
  {
    if bs == [] then [] else Part(bs[0], prefix) + ReadAll(bs[1..], prefix)
  }

  lemma PartOf(device: nat, prefix: nat, chunk: seq<byte>, b: seq<byte>)
    requires device < 0x1_0000_0000 && prefix + |chunk| <= MAX_MESSAGE && |b| == SLOT
            && Message(device, prefix, chunk) <= b
    ensures Part(b, prefix) == if prefix + |chunk| <= MAX_MESSAGE - 3 then chunk else []
  {
    ReceivedIff(RAW_MSG_TO_APP_DATA, APP_TYPE_EXT, 0, device, Zeros(prefix) + chunk, b);
    hide Received, Header;
    assert ([APP_TYPE_EXT, RAW_MSG_TO_APP_DATA, 0] + (Zeros(prefix) + chunk))[3 + prefix..] == chunk;
  }

  /** Each entry begins with the message of its chunk. */
  ghost predicate Carries(bs: seq<seq<byte>>, device: nat, prefix: nat, cs: seq<seq<byte>>) {
    && |bs| == |cs|
    && forall i :: 0 <= i < |cs| ==> prefix + |cs[i]| <= MAX_MESSAGE && Message(device, prefix, cs[i]) <= bs[i]
  }

  ghost predicate WholeSlots(bs: seq<seq<byte>>) {
    forall i :: 0 <= i < |bs| ==> |bs[i]| == SLOT
  }

  /** Slots that begin with the messages read like the messages. */
  lemma {:induction false} SlotsReadLike(bs: seq<seq<byte>>, device: nat, prefix: nat, cs: seq<seq<byte>>)
    requires device < 0x1_0000_0000 && WholeSlots(bs) && Carries(bs, device, prefix, cs)
    ensures ReadAll(bs, prefix) == Audible(cs, prefix)
  {
    hide Message, Part;
    if bs != [] {
      PartOf(device, prefix, cs[0], bs[0]);
      SlotsReadLike(bs[1..], device, prefix, cs[1..]);
    }
  }

  /** The chunks that are not refused, joined. */
  function Audible(cs: seq<seq<byte>>, prefix: nat): (payload: seq<byte>) {
    if cs == [] then []
    else (if prefix + |cs[0]| <= MAX_MESSAGE - 3 then cs[0] else []) + Audible(cs[1..], prefix)
  }

  lemma {:induction false} AudibleIsShorter(cs: seq<seq<byte>>, prefix: nat, k: nat)
    requires k <= |cs|
    ensures |Audible(cs[k..], prefix)| <= |Flatten(cs)|
  {
    if cs == [] {
    } else if k == 0 {
      AudibleIsShorter(cs[1..], prefix, 0);
      assert cs[1..][0..] == cs[1..] && cs[0..] == cs;
    } else {
      AudibleIsShorter(cs[1..], prefix, k - 1);
      assert cs[1..][k - 1..] == cs[k..];
    }
  }

  /** Dropping the first chunks or not, the whole payload is heard exactly if it fits one message that
      is not refused. */
  lemma {:induction false} AudibleIff(payload: seq<byte>, prefix: nat, k: nat)
    requires prefix < MAX_MESSAGE && payload != []
    requires k < |Chunks(payload, MAX_MESSAGE - prefix)|
    ensures Audible(Chunks(payload, MAX_MESSAGE - prefix)[k..], prefix) == payload
            <==> prefix + |payload| <= MAX_MESSAGE - 3
  {
    var most := MAX_MESSAGE - prefix;
    var cs := Chunks(payload, most);
    ChunksPartition(payload, most);
    if |payload| <= most {
      assert payload[..|payload|] == payload && payload[|payload|..] == [];
      assert cs == [payload] && cs[k..] == [payload];
      assert [payload][1..] == [];
      assert Audible([payload], prefix) == (if prefix + |payload| <= MAX_MESSAGE - 3 then payload else []);
    } else {
      // The first chunk is full, and a full chunk is refused.
      var rest := cs[1..];
      assert rest == Chunks(payload[most..], most);
      ChunksPartition(payload[most..], most);
      if k == 0 {
        AudibleIsShorter(rest, prefix, 0);
        assert rest[0..] == rest && cs[0..] == cs;
        assert Audible(cs, prefix) == Audible(rest, prefix);
      } else {
        AudibleIsShorter(rest, prefix, k - 1);
        assert rest[k - 1..] == cs[k..];
      }
    }
  }

  /** A published payload is read back whole exactly if its prefix, its octets and three more fit one
      message, whatever the ring held and however often it overflows. */
  lemma PayloadIsReadIff(q: seq<seq<byte>>, capacity: nat, device: nat, prefix: nat, payload: seq<byte>)
    requires prefix < MAX_MESSAGE && payload != [] && device < 0x1_0000_0000
    requires 0 < capacity && |q| <= capacity && WholeSlots(q)
    ensures ReadAll(Tail(q, capacity, Messages(device, prefix, payload)), prefix) == payload
            <==> prefix + |payload| <= 2497
  {
    MessagesCarry(device, prefix, payload);
    hide *;
    TailIsPayloadIff(q, capacity, Messages(device, prefix, payload), device, prefix, payload);
  }

  lemma TailIsPayloadIff(q: seq<seq<byte>>, capacity: nat, ms: seq<seq<byte>>, device: nat, prefix: nat,
      payload: seq<byte>)
    requires 0 < capacity && |q| <= capacity && WholeSlots(q) && FitSlots(ms) && device < 0x1_0000_0000
    requires prefix < MAX_MESSAGE && payload != [] && Carries(ms, device, prefix, Chunks(payload, MAX_MESSAGE - prefix))
    ensures ReadAll(Tail(q, capacity, ms), prefix) == payload <==> prefix + |payload| <= MAX_MESSAGE - 3
  {
    var cs := Chunks(payload, MAX_MESSAGE - prefix);
    NotEmpty(payload, MAX_MESSAGE - prefix);
    assert |cs| == |ms|;
    hide *;
    TailReads(q, capacity, ms, device, prefix, cs);
    AudibleIff(payload, prefix, |cs| - |Tail(q, capacity, ms)|);
  }

  /** What the application reads: the chunks still in the ring that are not refused. */
  lemma TailReads(q: seq<seq<byte>>, capacity: nat, ms: seq<seq<byte>>, device: nat, prefix: nat, cs: seq<seq<byte>>)
    requires 0 < capacity && |q| <= capacity && WholeSlots(q) && FitSlots(ms)
    requires device < 0x1_0000_0000 && Carries(ms, device, prefix, cs)
    ensures var tail := Tail(q, capacity, ms);
            |tail| <= |cs| && ReadAll(tail, prefix) == Audible(cs[|cs| - |tail|..], prefix)
  {
    hide *;
    var tail := Tail(q, capacity, ms);
    TailCarries(q, capacity, ms, device, prefix, cs);
    SlotsReadLike(tail, device, prefix, cs[|cs| - |tail|..]);
  }

  /** A payload of 2501 octets without a prefix, published into an empty ring: the application reads its
      last octet. */
  lemma LongPayloadIsLost(device: nat)
    requires device < 0x1_0000_0000
    ensures ReadAll(Tail([], 150, Messages(device, 0, Zeros(2501))), 0) == [0]
  {
    var ms, cs := Messages(device, 0, Zeros(2501)), Chunks(Zeros(2501), MAX_MESSAGE);
    MessagesCarry(device, 0, Zeros(2501));
    ChunksOfLong();
    hide *;
    TailReads([], 150, ms, device, 0, cs);
    assert cs[0..] == cs;
    TwoChunks(cs[0], [0]);
  }

  /** A payload of 2498 octets without a prefix, which one packet of the connection can carry: nothing of it
      is read. */
  lemma PacketIsLost(device: nat)
    requires device < 0x1_0000_0000
    ensures ReadAll(Tail([], 150, Messages(device, 0, Zeros(2498))), 0) == []
  {
    var payload := Zeros(2498);
    var ms, cs := Messages(device, 0, payload), Chunks(payload, MAX_MESSAGE);
    MessagesCarry(device, 0, payload);
    assert payload[..2498] == payload && payload[2498..] == [];
    assert cs == [payload];
    OneChunk(payload);
    hide *;
    TailReads([], 150, ms, device, 0, cs);
    assert cs[0..] == cs;
  }

  lemma OneChunk(x: seq<byte>)
    requires |x| > MAX_MESSAGE - 3
    ensures Audible([x], 0) == []
  {
    assert [x][1..] == [];
  }

  lemma ChunksOfLong()
    ensures var cs := Chunks(Zeros(2501), MAX_MESSAGE);
            |cs| == 2 && cs == [cs[0], [0]] && |cs[0]| == MAX_MESSAGE
  {
    var payload := Zeros(2501);
    var rest := payload[2500..];
    assert rest == [0] && rest[..1] == [0] && rest[1..] == [];
    assert Chunks(rest, MAX_MESSAGE) == [[0]];
  }

  lemma TwoChunks(x: seq<byte>, y: seq<byte>)
    requires |x| == MAX_MESSAGE && |y| <= MAX_MESSAGE - 3
    ensures Audible([x, y], 0) == y
  {
    assert [x, y][1..] == [y] && [y][1..] == [];
    assert Audible([y], 0) == y;
  }

  /** Of a ring to which messages have been written, the entries that came from them. */
  function Tail(q: seq<seq<byte>>, capacity: nat, ms: seq<seq<byte>>): (tail: seq<seq<byte>>)
    requires 0 < capacity && |q| <= capacity && WholeSlots(q) && FitSlots(ms)
    ensures |tail| == (if |ms| < capacity then |ms| else capacity) && WholeSlots(tail)
  {
    EnqueueAllKeepsLast(q, capacity, ms, SLOT);
    hide HoldsLast;
    var r := EnqueueAll(q, capacity, ms, SLOT);
    r[|r| - (if |ms| < capacity then |ms| else capacity)..]
  }

  lemma TailCarries(q: seq<seq<byte>>, capacity: nat, ms: seq<seq<byte>>, device: nat, prefix: nat, cs: seq<seq<byte>>)
    requires 0 < capacity && |q| <= capacity && WholeSlots(q) && FitSlots(ms)
    requires Carries(ms, device, prefix, cs)
    ensures var tail := Tail(q, capacity, ms);
            |tail| <= |cs| && Carries(tail, device, prefix, cs[|cs| - |tail|..])
  {
    EnqueueAllKeepsLast(q, capacity, ms, SLOT);
    hide HoldsLast, EnqueueAll, Message;
    LastEntries(q, EnqueueAll(q, capacity, ms, SLOT), ms, |Tail(q, capacity, ms)|, device, prefix, cs);
  }

  lemma NotEmpty(payload: seq<byte>, most: nat)
    requires most > 0 && payload != []
    ensures Chunks(payload, most) != []
  {
  }

  lemma MessagesCarry(device: nat, prefix: nat, payload: seq<byte>)
    requires prefix < MAX_MESSAGE
    ensures Carries(Messages(device, prefix, payload), device, prefix, Chunks(payload, MAX_MESSAGE - prefix))
  {
    ChunksPartition(payload, MAX_MESSAGE - prefix);
    hide Message, Chunks, Flatten;
  }

  /** The last entries of a ring that holds the last of some messages. */
  lemma LastEntries(q: seq<seq<byte>>, r: seq<seq<byte>>, ms: seq<seq<byte>>, n: nat, device: nat, prefix: nat,
      cs: seq<seq<byte>>)
    requires HoldsLast(r, q + ms) && WholeSlots(r) && Carries(ms, device, prefix, cs)
    requires n <= |r| && n <= |ms|
    ensures Carries(r[|r| - n..], device, prefix, cs[|cs| - n..]) && WholeSlots(r[|r| - n..])
  {
    hide Message, HoldsLast;
    var tail, last := cs[|cs| - n..], r[|r| - n..];
    forall i | 0 <= i < n ensures prefix + |tail[i]| <= MAX_MESSAGE && Message(device, prefix, tail[i]) <= last[i] {
      LastOf(q, ms, r, n, i);
      assert tail[i] == cs[|cs| - n + i];
    }
  }

  lemma LastOf(q: seq<seq<byte>>, ms: seq<seq<byte>>, r: seq<seq<byte>>, n: nat, i: nat)
    requires HoldsLast(r, q + ms) && i < n <= |ms| && n <= |r|
    ensures ms[|ms| - n + i] <= r[|r| - n..][i]
  {
    var j := |r| - n + i;
    assert (q + ms)[|q + ms| - |r| + j] <= r[j];
  }

  /** What the application is given of a chunk: the device, 10, two zeros, the prefix, and the chunk. */
  lemma ReceivedAs(device: nat, prefix: nat, chunk: seq<byte>, b: seq<byte>)
    requires device < 0x1_0000_0000 && prefix + |chunk| <= 2497 && |b| == SLOT && Message(device, prefix, chunk) <= b
    ensures Received(b) == Some(AppMsg(device, [10, 0, 0] + (Zeros(prefix) + chunk)))
  {
    ReceivedIff(RAW_MSG_TO_APP_DATA, APP_TYPE_EXT, 0, device, Zeros(prefix) + chunk, b);
    hide Received, Header;
  }

  /** Where the fields of a platform message lie. */
  lemma HeaderLayout(msgId: byte, appType: byte, version: byte, device: nat, size: nat)
    requires device < 0x1_0000_0000 && size < 0x10000
    ensures var h := Header(msgId, appType, version, device, size);
            && h[..7] == Zeros(7) && h[13..15] == Zeros(2) && h[18] == 0
            && h[7..11] == [device % 0x10000 % 0x100, device % 0x10000 / 0x100,
                            device / 0x10000 % 0x100, device / 0x10000 / 0x100]
            && h[11..13] == [size % 0x100, size / 0x100]
            && h[15] == appType && h[16] == msgId && h[17] == version
  {
    HeaderParts(msgId, appType, version, device, size);
    LittleFour(device);
    TwoOctetsOf(device % 0x10000);
    TwoOctetsOf(device / 0x10000);
    TwoOctetsOf(size);
    hide Little;
  }

  // ---- the pool ----

  /** The application's ring after messages have been written to it. */
  function Extended(r: Ring, ms: seq<seq<byte>>): (s: Ring)
    requires r.Valid() && r.msgType == AppRx && FitSlots(ms)
    ensures s.Valid() && s.msgType == AppRx && s.capacity == r.capacity
  {
    assert MsgTypeSize(AppRx) == SLOT;
    hide MsgTypeSize, Enqueue;
    r.(queue := EnqueueAll(r.queue, r.capacity, ms, SLOT))
  }

  lemma ExtendedSnoc(r: Ring, ms: seq<seq<byte>>, m: seq<byte>)
    requires r.Valid() && r.msgType == AppRx && FitSlots(ms) && |m| <= SLOT
    ensures FitSlots(ms + [m]) && ApplyOne(Extended(r, ms), Op.Write(AppRx, m)) == (Extended(r, ms + [m]), Done)
  {
    assert MsgTypeSize(AppRx) == SLOT;
    hide MsgTypeSize, Enqueue;
    assert (ms + [m])[..|ms|] == ms;
  }

  /** The pool's queues after messages for the application have been written. */
  function Forwarded(rs: seq<Ring>, ms: seq<seq<byte>>): (res: seq<Ring>)
    requires RingsOk(rs) && Find(rs, AppRx) < |rs| && FitSlots(ms)
    ensures RingsOk(res) && |res| == |rs| && Find(res, AppRx) == Find(rs, AppRx)
  {
    hide Extended, Find, MsgTypeSize;
    var i := Find(rs, AppRx);
    var res := rs[i := Extended(rs[i], ms)];
    FindIs(res, AppRx, i);
    res
  }

  lemma ForwardedSnoc(rs: seq<Ring>, ms: seq<seq<byte>>, m: seq<byte>)
    requires RingsOk(rs) && Find(rs, AppRx) < |rs| && FitSlots(ms) && |m| <= SLOT
    ensures FitSlots(ms + [m])
    ensures Apply(Forwarded(rs, ms), Op.Write(AppRx, m)) == (Forwarded(rs, ms + [m]), Done)
  {
    hide EnqueueAll, Enqueue, MsgTypeSize, Find, RingsOk, Apply, ApplyOne, Extended, FitSlots;
    var i := Find(rs, AppRx);
    RingAt(rs, i);
    ExtendedSnoc(rs[i], ms, m);
    ApplyAt(Forwarded(rs, ms), Op.Write(AppRx, m));
    assert rs[i := Extended(rs[i], ms)][i := Extended(rs[i], ms + [m])] == rs[i := Extended(rs[i], ms + [m])];
  }

  lemma RingAt(rs: seq<Ring>, i: nat)
    requires RingsOk(rs) && i < |rs|
    ensures rs[i].Valid()
  {
  }

  lemma ForwardedNone(rs: seq<Ring>)
    requires RingsOk(rs) && Find(rs, AppRx) < |rs|
    ensures Forwarded(rs, []) == rs
  {
    hide RingsOk, Find;
  }

  datatype Outcome = Ok | WouldBlock | InvalidArgument | ForwardFailed | Broken

  /** Lay out a platform message and write as much of it as is in use. */
  method WritePlatformMsg(pool: Pool, msgId: byte, appType: byte, device: nat, body: seq<byte>) returns (ok: bool)
    requires pool.Valid() && |body| <= MAX_MESSAGE && device < 0x1_0000_0000
    modifies pool.slots, pool.index
    ensures pool.Valid()
    ensures Apply(old(pool.Model()), Op.Write(AppRx, Header(msgId, appType, 0, device, |body|) + body))
         == (pool.Model(), if ok then Done else Failed)
  {
    ok := pool.Write(AppRx, Header(msgId, appType, 0, device, |body|) + body);
  }

  method PublishPayload(pool: Pool, device: nat, prefix: nat, payload: seq<byte>) returns (outcome: Outcome)
    requires pool.Valid() && prefix <= MAX_MESSAGE && device < 0x1_0000_0000
    modifies pool.slots, pool.index
    ensures pool.Valid()
    ensures var rs := old(pool.Model());
            if payload == [] || prefix == MAX_MESSAGE then outcome == InvalidArgument && pool.Model() == rs
            else if Find(rs, AppRx) == |rs| then outcome == ForwardFailed && pool.Model() == rs
            else outcome == Ok && pool.Model() == Forwarded(rs, Messages(device, prefix, payload))
  {
    hide *;
    if payload == [] || prefix == MAX_MESSAGE {
      return InvalidArgument;
    }
    ghost var rs := pool.Model();
    var most := MAX_MESSAGE - prefix;
    var buffer := new byte[MAX_MESSAGE](_ => 0);
    var offset := 0;
    ghost var sent: seq<seq<byte>> := [];
    ghost var registered := Find(rs, AppRx) < |rs|;
    NothingFits();
    if registered {
      ForwardedNone(rs);
    }
    FindBound(rs);
    assert payload[0..] == payload;
    assert [] + Messages(device, prefix, payload) == Messages(device, prefix, payload);
    while offset < |payload|
      invariant 0 <= offset <= |payload| && pool.Valid() && fresh(buffer) && FitSlots(sent)
      invariant Messages(device, prefix, payload) == sent + Messages(device, prefix, payload[offset..])
      invariant if registered then pool.Model() == Forwarded(rs, sent) else offset == 0 && pool.Model() == rs
    {
      var size := if most < |payload| - offset then most else |payload| - offset;
      MessagesNext(device, prefix, payload[offset..]);
      assert payload[offset..][..size] == payload[offset..offset + size]
        && payload[offset..][size..] == payload[offset + size..];
      var ok := PublishChunk(pool, buffer, device, prefix, payload, offset, size, rs, sent);
      if !ok {
        return ForwardFailed;
      }
      sent := sent + [Message(device, prefix, payload[offset..offset + size])];
      offset := offset + size;
    }
    NoMessages(device, prefix, payload[offset..]);
    assert sent + [] == sent;
    return Ok;
  }

  lemma FindBound(rs: seq<Ring>)
    ensures Find(rs, AppRx) <= |rs|
  {
  }

  /** One turn of the loop. */
  method PublishChunk(pool: Pool, buffer: array<byte>, device: nat, prefix: nat, payload: seq<byte>, offset: nat,
                      size: nat, ghost rs: seq<Ring>, ghost sent: seq<seq<byte>>) returns (ok: bool)
    requires pool.Valid() && device < 0x1_0000_0000 && RingsOk(rs) && FitSlots(sent)
    requires buffer.Length == MAX_MESSAGE && prefix + size <= MAX_MESSAGE && offset + size <= |payload|
    requires pool.Model() == if Find(rs, AppRx) < |rs| then Forwarded(rs, sent) else rs
    modifies pool.slots, pool.index, buffer
    ensures pool.Valid() && ok == (Find(rs, AppRx) < |rs|)
    ensures FitSlots(sent + [Message(device, prefix, payload[offset..offset + size])])
    ensures pool.Model() == if ok then Forwarded(rs, sent + [Message(device, prefix, payload[offset..offset + size])])
            else rs
  {
    ghost var chunk := payload[offset..offset + size];
    MessageIs(device, prefix, chunk);
    MessageFits(sent, device, prefix, chunk);
    hide *;
    Fill(buffer, prefix, payload, offset, size);
    if Find(rs, AppRx) < |rs| {
      ForwardedSnoc(rs, sent, Message(device, prefix, chunk));
    } else {
      NotRegistered(rs, Op.Write(AppRx, Message(device, prefix, chunk)));
    }
    ok := WritePlatformMsg(pool, RAW_MSG_TO_APP_DATA, APP_TYPE_EXT, device, buffer[..prefix + size]);
  }

  lemma MessageFits(sent: seq<seq<byte>>, device: nat, prefix: nat, chunk: seq<byte>)
    requires FitSlots(sent) && prefix + |chunk| <= MAX_MESSAGE
    ensures FitSlots(sent + [Message(device, prefix, chunk)])
  {
    hide Message;
  }

  lemma NotRegistered(rs: seq<Ring>, op: Op)
    requires RingsOk(rs) && Find(rs, op.t) >= |rs|
    ensures Apply(rs, op) == (rs, Failed)
  {
    ApplyAt(rs, op);
  }

  lemma NothingFits()
    ensures FitSlots([])
  {
  }

  lemma MessageIs(device: nat, prefix: nat, chunk: seq<byte>)
    ensures Message(device, prefix, chunk)
         == Header(RAW_MSG_TO_APP_DATA, APP_TYPE_EXT, 0, device, |Zeros(prefix) + chunk|) + (Zeros(prefix) + chunk)
  {
  }

  lemma NoMessages(device: nat, prefix: nat, payload: seq<byte>)
    requires prefix < MAX_MESSAGE && payload == []
    ensures Messages(device, prefix, payload) == []
  {
  }

  /** Zeros, then a chunk of the payload. */
  method Fill(buffer: array<byte>, prefix: nat, payload: seq<byte>, offset: nat, size: nat)
    requires prefix + size <= buffer.Length && offset + size <= |payload|
    modifies buffer
    ensures buffer[..prefix + size] == Zeros(prefix) + payload[offset..offset + size]
  {
    forall i | 0 <= i < prefix {
      buffer[i] := 0;
    }
    forall i | 0 <= i < size {
      buffer[prefix + i] := payload[offset + i];
    }
  }

  // ---- one input cycle ----

  /** The messages of a list of packets, in order. */
  ghost function AllMessages(device: nat, prefix: nat, packets: seq<seq<byte>>): (ms: seq<seq<byte>>)
    requires prefix < MAX_MESSAGE
    ensures FitSlots(ms)
    decreases |packets|
  {
    hide Messages;
    if packets == [] then []
    else AllMessages(device, prefix, packets[..|packets| - 1]) + Messages(device, prefix, packets[|packets| - 1])
  }

  /** The number of packets before the first empty one. */
  function UntilEmpty(packets: seq<seq<byte>>): (n: nat)
    ensures n <= |packets| && (forall i :: 0 <= i < n ==> packets[i] != []) && (n < |packets| ==> packets[n] == [])
  {
    if packets == [] || packets[0] == [] then 0 else 1 + UntilEmpty(packets[1..])
  }

  lemma {:induction false} UntilEmptyIs(packets: seq<seq<byte>>, n: nat)
    requires n <= |packets| && (forall i :: 0 <= i < n ==> packets[i] != []) && (n < |packets| ==> packets[n] == [])
    ensures UntilEmpty(packets) == n
  {
    if n > 0 {
      UntilEmptyIs(packets[1..], n - 1);
    }
  }

  lemma {:induction false} EnqueueAllAppend(q: seq<seq<byte>>, capacity: nat, ms: seq<seq<byte>>, ns: seq<seq<byte>>)
    requires |q| <= capacity && capacity > 0 && FitSlots(ms) && FitSlots(ns) && FitSlots(ms + ns) && WholeSlots(q)
    ensures EnqueueAll(q, capacity, ms + ns, SLOT) == EnqueueAll(EnqueueAll(q, capacity, ms, SLOT), capacity, ns, SLOT)
    decreases |ns|
  {
    hide Enqueue;
    if ns == [] {
      assert ms + ns == ms;
    } else {
      assert (ms + ns)[..|ms + ns| - 1] == ms + ns[..|ns| - 1];
      EnqueueAllAppend(q, capacity, ms, ns[..|ns| - 1]);
    }
  }

  lemma FitBoth(ms: seq<seq<byte>>, ns: seq<seq<byte>>)
    requires FitSlots(ms) && FitSlots(ns)
    ensures FitSlots(ms + ns)
  {
  }

  lemma ExtendedTwice(r: Ring, ms: seq<seq<byte>>, ns: seq<seq<byte>>)
    requires r.Valid() && r.msgType == AppRx && FitSlots(ms) && FitSlots(ns)
    ensures FitSlots(ms + ns) && Extended(Extended(r, ms), ns) == Extended(r, ms + ns)
  {
    FitBoth(ms, ns);
    assert MsgTypeSize(AppRx) == SLOT;
    hide MsgTypeSize, EnqueueAll, FitSlots;
    EnqueueAllAppend(r.queue, r.capacity, ms, ns);
  }

  lemma ForwardedTwice(rs: seq<Ring>, ms: seq<seq<byte>>, ns: seq<seq<byte>>)
    requires RingsOk(rs) && Find(rs, AppRx) < |rs| && FitSlots(ms) && FitSlots(ns)
    ensures FitSlots(ms + ns) && Forwarded(Forwarded(rs, ms), ns) == Forwarded(rs, ms + ns)
  {
    hide Find, RingsOk, Extended, FitSlots;
    var i := Find(rs, AppRx);
    RingAt(rs, i);
    ExtendedTwice(rs[i], ms, ns);
    assert rs[i := Extended(rs[i], ms)][i := Extended(rs[i], ms + ns)] == rs[i := Extended(rs[i], ms + ns)];
  }

  lemma NextPacket(device: nat, prefix: nat, packets: seq<seq<byte>>, n: nat)
    requires prefix < MAX_MESSAGE && n < |packets|
    ensures AllMessages(device, prefix, packets[..n + 1])
         == AllMessages(device, prefix, packets[..n]) + Messages(device, prefix, packets[n])
  {
    assert packets[..n + 1][..n] == packets[..n];
    hide Messages;
  }

  lemma NoPackets(device: nat, prefix: nat)
    requires prefix < MAX_MESSAGE
    ensures AllMessages(device, prefix, []) == []
  {
  }

  /** Publish every packet at hand, or the idle payload if there is none.  `packets` is what the
      connection yields, and `broken` whether it then fails rather than has nothing more for now. */
  method DoInput(pool: Pool, hasConnection: bool, device: nat, prefix: nat, idle: seq<byte>,
                 packets: seq<seq<byte>>, broken: bool)
    returns (outcome: Outcome)
    requires pool.Valid() && device < 0x1_0000_0000
    modifies pool.slots, pool.index
    ensures pool.Valid()
    ensures var rs, n := old(pool.Model()), UntilEmpty(packets);
            if !hasConnection || prefix >= MAX_MESSAGE then outcome == InvalidArgument && pool.Model() == rs
            else if Find(rs, AppRx) >= |rs| then
              && pool.Model() == rs
              && outcome == if n > 0 then ForwardFailed else if packets != [] then InvalidArgument
                            else if broken then Broken else if idle == [] then WouldBlock else ForwardFailed
            else if packets == [] && !broken && idle != [] then
              outcome == Ok && pool.Model() == Forwarded(rs, Messages(device, prefix, idle))
            else
              && pool.Model() == Forwarded(rs, AllMessages(device, prefix, packets[..n]))
              && outcome == if n < |packets| then InvalidArgument else if broken then Broken
                            else if packets == [] then WouldBlock else Ok
  {
    hide *;
    if !hasConnection {
      return InvalidArgument;
    }
    if prefix >= MAX_MESSAGE {
      return InvalidArgument;
    }
    ghost var rs := pool.Model();
    ghost var registered := Find(rs, AppRx) < |rs|;
    FindBound(rs);
    NothingFits();
    NoPackets(device, prefix);
    if registered {
      ForwardedNone(rs);
    }
    var i := 0;
    assert packets[..0] == [];
    while i < |packets|
      invariant 0 <= i <= |packets| && pool.Valid()
      invariant forall k :: 0 <= k < i ==> packets[k] != []
      invariant if registered then pool.Model() == Forwarded(rs, AllMessages(device, prefix, packets[..i]))
                else i == 0 && pool.Model() == rs
    {
      if packets[i] == [] {
        UntilEmptyIs(packets, i);
      }
      outcome := PublishPayload(pool, device, prefix, packets[i]);
      if outcome != Ok {
        return;
      }
      ForwardedTwice(rs, AllMessages(device, prefix, packets[..i]), Messages(device, prefix, packets[i]));
      NextPacket(device, prefix, packets, i);
      i := i + 1;
    }
    UntilEmptyIs(packets, i);
    if broken {
      return Broken;
    }
    if packets == [] {
      if idle != [] {
        outcome := PublishPayload(pool, device, prefix, idle);
        return;
      }
      return WouldBlock;
    }
    return Ok;
  }

  // ---- the application's side ----

  /** Got: a message for the application.  Unread: the ring gave none.  TooLong: it was taken out and refused. */
  datatype Reading = Got(msg: AppMsg) | Unread(out: Out) | TooLong(size: nat)

  /** The application's reading call. */
  method ReadNewMsg(pool: Pool) returns (reading: Reading)
    requires pool.Valid()
    modifies pool.slots, pool.index
    ensures pool.Valid()
    ensures var (rs, out) := Apply(old(pool.Model()), Op.Read(AppRx));
            && pool.Model() == rs
            && (out.Message? ==> |out.bytes| == SLOT)
            && match reading
               case Got(m) => out.Message? && Received(out.bytes) == Some(m)
               case Unread(o) => o == out && !out.Message?
               case TooLong(size) =>
                 out.Message? && Received(out.bytes) == None && size == LittleValue(out.bytes[11..13])
  {
    ReadsWholeSlot(pool.Model());
    hide *;
    var out := pool.Read(AppRx);
    if !out.Message? {
      return Unread(out);
    }
    reading := Unpack(out.bytes);
  }

  method Unpack(b: seq<byte>) returns (reading: Reading)
    requires |b| == SLOT
    ensures match Received(b)
            case Some(m) => reading == Got(m)
            case None => reading == TooLong(LittleValue(b[11..13]))
  {
    hide LittleValue;
    var size := LittleValue(b[11..13]);
    if MAX_MESSAGE < size {
      return TooLong(size);
    }
    if size + 3 > MAX_MESSAGE {
      return TooLong(size);
    }
    return Got(AppMsg(LittleValue(b[7..11]), [b[15], b[16], b[17]] + b[HEADER_SIZE..HEADER_SIZE + size]));
  }

  lemma ReadsWholeSlot(rs: seq<Ring>)
    requires RingsOk(rs)
    ensures Apply(rs, Op.Read(AppRx)).1.Message? ==> |Apply(rs, Op.Read(AppRx)).1.bytes| == SLOT
  {
    ApplyAt(rs, Op.Read(AppRx));
    hide Apply, Find, RingsOk;
  }
}
