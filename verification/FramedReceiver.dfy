/** The in-place extractors and builders, and the server that drives them. */
module FramedReceiver {
  import opened Bytes
  import opened Framing
  import opened SendFraming

  /** How an extraction reports to its caller: what it returns, the size it stores (the caller's old
      value if it stores none), and what is in the caller's buffer afterwards. */
  predicate Reports(o: Outcome, found: bool, sizeBefore: nat, size: nat, before: seq<byte>, after: seq<byte>) {
    && found == o.Frame?
    && match o
       case Waiting => size == sizeBefore && after == before
       case TooLong(n) => size == n && after == before
       case Frame(f) => size == |f| && |f| <= |before| && after == f + before[|f|..]
  }

  /** The receive buffer, a vector that extraction erases from the front. */
  class ReceiveBuffer {
    var pending: seq<byte>

    constructor ()
      ensures pending == []
    {
      pending := [];
    }

    /** Erase everything before the first magic; everything, if there is none. */
    method SkipToMagic()
      modifies this
      ensures pending == old(pending)[FindMagic(old(pending))..]
    {
      var search := 0;
      while search < |pending|
        invariant 0 <= search <= |pending| && pending == old(pending)
        invariant forall i: nat :: i < search ==> !HasMagic(pending, i)
      {
        if HasMagic(pending, search) {
          break;
        }
        search := search + 1;
      }
      FindMagicUnique(pending, search);
      if search > 0 {
        pending := pending[search..];
      }
    }

    method TryExtractDmi(buffer: array<byte>, sizeBefore: nat) returns (found: bool, size: nat)
      modifies this, buffer
      ensures pending == DmiStep(old(pending), buffer.Length).rest
      ensures Reports(DmiStep(old(pending), buffer.Length).outcome, found, sizeBefore, size, old(buffer[..]),
              buffer[..])
    {
      hide DmiStep, FindMagic;
      size := sizeBefore;
      while true
        invariant buffer[..] == old(buffer[..]) && size == sizeBefore
        invariant DmiStep(pending, buffer.Length) == DmiStep(old(pending), buffer.Length)
        decreases |pending|
      {
        DmiRound(pending, buffer.Length);
        SkipToMagic();
        if |pending| < 4 {
          return false, size;
        }
        var frameLength := pending[3];
        if frameLength < DMI_MINIMUM_FRAME {
          pending := pending[2..];
          continue;
        }
        if |pending| < frameLength {
          return false, size;
        }
        if frameLength > buffer.Length {
          return false, frameLength;
        }
        CopyAt(buffer, 0, pending[..frameLength]);
        pending := pending[frameLength..];
        return true, frameLength;
      }
    }

    method TryExtractTwoByte(buffer: array<byte>, sizeBefore: nat, big: bool) returns (found: bool, size: nat)
      modifies this, buffer
      ensures pending == TwoByteStep(old(pending), buffer.Length, big).rest
      ensures Reports(TwoByteStep(old(pending), buffer.Length, big).outcome, found, sizeBefore, size, old(buffer[..]),
              buffer[..])
    {
      hide FieldLength, TwoByteStep;
      size := sizeBefore;
      while true
        invariant buffer[..] == old(buffer[..]) && size == sizeBefore
        invariant TwoByteStep(pending, buffer.Length, big) == TwoByteStep(old(pending), buffer.Length, big)
        decreases |pending|
      {
        TwoByteRound(pending, buffer.Length, big);
        if |pending| < 2 {
          return false, size;
        }
        var length := FieldLength(pending, big);
        if length == 0 {
          pending := pending[2..];
          continue;
        }
        if |pending| < 2 + length {
          return false, size;
        }
        if length > buffer.Length {
          return false, length;
        }
        CopyAt(buffer, 0, pending[2..2 + length]);
        pending := pending[2 + length..];
        return true, length;
      }
    }

    method NewlineIndex() returns (newline: nat)
      ensures newline == FindNewline(pending)
    {
      newline := 0;
      while newline < |pending| && pending[newline] != LINE_FEED
        invariant 0 <= newline <= |pending|
        invariant LINE_FEED !in pending[..newline]
      {
        newline := newline + 1;
      }
      FindNewlineUnique(pending, newline);
    }

    /** Erase the first line, which ends at `newline`, and hand it over without its terminator. */
    method TakeLine(newline: nat) returns (line: seq<byte>)
      requires newline == FindNewline(pending) < |pending|
      modifies this
      ensures line == Chomp(old(pending)[..newline]) && pending == old(pending)[newline + 1..]
    {
      var lineLength := newline;
      if lineLength > 0 && pending[lineLength - 1] == CARRIAGE_RETURN {
        lineLength := lineLength - 1;
      }
      line := pending[..lineLength];
      assert line == Chomp(pending[..newline]);
      pending := pending[newline + 1..];
    }

    method TryExtractNdjson(buffer: array<byte>, sizeBefore: nat) returns (found: bool, size: nat)
      modifies this, buffer
      ensures pending == NdjsonStep(old(pending), buffer.Length).rest
      ensures Reports(NdjsonStep(old(pending), buffer.Length).outcome, found, sizeBefore, size, old(buffer[..]),
              buffer[..])
    {
      hide NdjsonStep, Chomp, FindNewline;
      size := sizeBefore;
      while true
        invariant buffer[..] == old(buffer[..]) && size == sizeBefore
        invariant NdjsonStep(pending, buffer.Length) == NdjsonStep(old(pending), buffer.Length)
        decreases |pending|
      {
        NdjsonRound(pending, buffer.Length);
        var newline := NewlineIndex();
        if newline == |pending| {
          return false, size;
        }
        var line := TakeLine(newline);
        if |line| > 0 && |line| <= buffer.Length {
          CopyAt(buffer, 0, line);
          return true, |line|;
        }
      }
    }

    method TryExtract(mode: Mode, buffer: array<byte>, sizeBefore: nat) returns (found: bool, size: nat)
      modifies this, buffer
      ensures pending == Extract(mode, old(pending), buffer.Length).rest
      ensures Reports(Extract(mode, old(pending), buffer.Length).outcome, found, sizeBefore, size, old(buffer[..]),
              buffer[..])
    {
      match mode
      case Dmi => found, size := TryExtractDmi(buffer, sizeBefore);
      case TwoByteBig => found, size := TryExtractTwoByte(buffer, sizeBefore, true);
      case TwoByteLittle => found, size := TryExtractTwoByte(buffer, sizeBefore, false);
      case Ndjson => found, size := TryExtractNdjson(buffer, sizeBefore);
    }
  }

  // ---- builders ----

  method BuildDmi(payload: seq<byte>, output: array<byte>) returns (total: nat)
    modifies output
    ensures if |payload| <= DMI_MAX_PAYLOAD && 6 + |payload| <= output.Length
            then total == 6 + |payload| && output[..] == Wire(Dmi, payload) + old(output[..])[total..]
            else total == 0 && output[..] == old(output[..])
    ensures total > 0 ==>
              output[..6] == [0x55, 0xAA, 0, 6 + |payload|, 0, 0] && output[6..total] == payload
  {
    if |payload| > DMI_MAX_PAYLOAD {
      return 0;
    }
    total := 6 + |payload|;
    if total > output.Length {
      return 0;
    }
    output[0] := MAGIC_FIRST;
    output[1] := MAGIC_SECOND;
    output[2] := 0;
    output[3] := total;
    output[4] := 0;
    output[5] := 0;
    CopyAt(output, 6, payload);
  }

  method BuildTwoByte(payload: seq<byte>, output: array<byte>, big: bool) returns (total: nat)
    modifies output
    ensures var w := Wire(if big then TwoByteBig else TwoByteLittle, payload);
            if |w| <= output.Length then total == |w| && output[..] == w + old(output[..])[total..]
            else total == 0 && output[..] == old(output[..])
    ensures total > 0 ==> output[2..total] == payload
    ensures total > 0 && |payload| < 0x10000 ==>
              |payload| == if big then output[0] as int * 256 + output[1] else output[1] as int * 256 + output[0]
  {
    var size := |payload|;
    total := 2 + size;
    if total > output.Length {
      return 0;
    }
    var high, low := size / 0x100 % 0x100, size % 0x100;
    if big {
      output[0] := high;
      output[1] := low;
    } else {
      output[0] := low;
      output[1] := high;
    }
    ghost var head := if big then [high, low] else [low, high];
    assert output[..] == head + old(output[..])[2..];
    assert Wire(if big then TwoByteBig else TwoByteLittle, payload) == head + payload;
    hide Wire;
    CopyAt(output, 2, payload);
    assert output[..] == head + payload + old(output[..])[total..];
    if |payload| < 0x10000 {
      WireLayout(payload);
    }
  }

  method BuildNdjson(payload: seq<byte>, output: array<byte>) returns (total: nat)
    modifies output
    ensures var w := Wire(Ndjson, payload);
            if |payload| > 0 && |w| <= output.Length then total == |w| && output[..] == w + old(output[..])[total..]
            else total == 0 && output[..] == old(output[..])
  {
    if |payload| == 0 {
      return 0;
    }
    var already := payload[|payload| - 1] == LINE_FEED;
    total := if already then |payload| else |payload| + 1;
    if total > output.Length {
      return 0;
    }
    CopyAt(output, 0, payload);
    if !already {
      output[|payload|] := LINE_FEED;
    }
  }

  // ---- the server ----

  /** The framing part of a send: the octets for the socket, or a refusal. */
  method FrameToSend(mode: Mode, payload: seq<byte>) returns (accepted: bool, octets: seq<byte>)
    ensures accepted == Sent(mode, payload)
    ensures octets == if accepted then Wire(mode, payload) else []
  {
    var framed := new byte[SEND_BUFFER_SIZE](_ => 0);
    if |payload| == 0 {
      return false, [];
    }
    var size;
    match mode {
      case Dmi => size := BuildDmi(payload, framed);
      case TwoByteBig => size := BuildTwoByte(payload, framed, true);
      case TwoByteLittle => size := BuildTwoByte(payload, framed, false);
      case Ndjson => size := BuildNdjson(payload, framed);
    }
    if size == 0 {
      return false, [];
    }
    return true, framed[..size];
  }

  /** What the operating system has ready on the client socket. */
  datatype Arrival = Chunk(bytes: seq<byte>) | Ended | Failed(failure: Failure)

  datatype Failure = ConnectionGone | NothingToRead | OtherFailure

  /** The chunks among what was read, in order. */
  function Chunks(arrivals: seq<Arrival>): (cs: seq<seq<byte>>)
    decreases |arrivals|
  {
    if arrivals == [] then []
    else
      var before, last := Chunks(arrivals[..|arrivals| - 1]), arrivals[|arrivals| - 1];
      if last.Chunk? then before + [last.bytes] else before
  }

  ghost predicate AllChunks(arrivals: seq<Arrival>) {
    forall k :: 0 <= k < |arrivals| ==> arrivals[k].Chunk?
  }

  /** Chunks arriving one after the other behind `pending`, with an extraction after each. */
  function Fed(mode: Mode, pending: seq<byte>, chunks: seq<seq<byte>>, room: nat): (s: Step)
    decreases |chunks|
  {
    if chunks == [] then Step(Waiting, pending)
    else Extract(mode, Fed(mode, pending, chunks[..|chunks| - 1], room).rest + chunks[|chunks| - 1], room)
  }

  lemma FedNext(mode: Mode, pending: seq<byte>, chunks: seq<seq<byte>>, chunk: seq<byte>, room: nat)
    ensures Fed(mode, pending, chunks + [chunk], room)
         == Extract(mode, Fed(mode, pending, chunks, room).rest + chunk, room)
  {
    assert (chunks + [chunk])[..|chunks|] == chunks;
    hide Extract;
  }

  lemma FedNothing(mode: Mode, pending: seq<byte>, room: nat)
    ensures Fed(mode, pending, Chunks([]), room) == Step(Waiting, pending)
  {
  }

  /** The last thing read says that the client is gone. */
  predicate Leaves(arrivals: seq<Arrival>, used: nat)
    requires used <= |arrivals|
  {
    used > 0 && (arrivals[used - 1] == Ended || arrivals[used - 1] == Failed(ConnectionGone))
  }

  /** What was read, and the answer it gives: chunks, up to the one that completes a frame or makes the
      buffer too small, or up to an end or a failure; without any of these everything is read. */
  ghost predicate Reading(arrivals: seq<Arrival>, used: nat, result: Result)
    requires used <= |arrivals|
  {
    && (used > 0 ==> AllChunks(arrivals[..used - 1]))
    && match result
       case Ok => used > 0 && arrivals[used - 1].Chunk?
       case InvalidArgument => used > 0 && arrivals[used - 1].Chunk?
       case WouldBlock =>
         if used > 0 && !arrivals[used - 1].Chunk? then
           arrivals[used - 1] == Ended || arrivals[used - 1] == Failed(NothingToRead)
         else used == |arrivals|
       case ReceiveFailed =>
         used > 0 && arrivals[used - 1].Failed? && arrivals[used - 1].failure != NothingToRead
       case _ => false
  }

  lemma NextArrival(arrivals: seq<Arrival>, k: nat, chunks: seq<seq<byte>>)
    requires k < |arrivals|
    ensures arrivals[..k + 1][..k] == arrivals[..k]
    ensures chunks + Chunks(arrivals[..k + 1]) ==
            if arrivals[k].Chunk? then chunks + Chunks(arrivals[..k]) + [arrivals[k].bytes]
            else chunks + Chunks(arrivals[..k])
    ensures AllChunks(arrivals[..k]) && arrivals[k].Chunk? ==> AllChunks(arrivals[..k + 1])
  {
    assert arrivals[..k + 1][..k] == arrivals[..k];
  }

  datatype Accepting = NobodyWaiting | AcceptFailed | Accepted

  datatype Result = Ok | WouldBlock | InvalidArgument | NotOpen | AlreadyOpen | TransportFailed | SocketFailed
                  | BindFailed | ReceiveFailed

  /** How far opening gets. */
  datatype Opening = NotConfigured | NoTransport | NoSocket | NotBound | NotListening | Listening

  /** One client's stay: the chunks received from it, the frames delivered while it was connected, and
      whether every call offered a buffer of the server's usual size. */
  datatype Visit = Visit(chunks: seq<seq<byte>>, frames: seq<seq<byte>>, usual: bool) {
    function Stream(): (s: seq<byte>) {
      Flatten(chunks)
    }

    /** Nothing can have been lost: the buffers were of one size and no chunk boundary split a DMI magic. */
    ghost predicate Harmless(mode: Mode) {
      usual && CutsSafely(mode, chunks)
    }
  }

  ghost predicate IsPart(f: seq<byte>, stream: seq<byte>) {
    exists i, j :: 0 <= i <= j <= |stream| && stream[i..j] == f
  }

  ghost predicate IsSuffix(rest: seq<byte>, stream: seq<byte>) {
    |rest| <= |stream| && rest == stream[|stream| - |rest|..]
  }

  lemma PartOfSuffix(f: seq<byte>, rest: seq<byte>, stream: seq<byte>)
    requires IsPart(f, rest) && IsSuffix(rest, stream)
    ensures IsPart(f, stream)
  {
    var i, j :| 0 <= i <= j <= |rest| && rest[i..j] == f;
    var d := |stream| - |rest|;
    assert stream[d + i..d + j] == f;
  }

  lemma PartOfLonger(f: seq<byte>, stream: seq<byte>, more: seq<byte>)
    requires IsPart(f, stream)
    ensures IsPart(f, stream + more)
  {
    var i, j :| 0 <= i <= j <= |stream| && stream[i..j] == f;
    assert (stream + more)[i..j] == f;
  }

  ghost predicate TakesParts(s: Step, b: seq<byte>) {
    IsSuffix(s.rest, b) && (s.outcome.Frame? ==> IsPart(s.outcome.bytes, b))
  }

  lemma TakesPartsOfRest(s: Step, rest: seq<byte>, b: seq<byte>)
    requires TakesParts(s, rest) && IsSuffix(rest, b)
    ensures TakesParts(s, b)
  {
    if s.outcome.Frame? {
      PartOfSuffix(s.outcome.bytes, rest, b);
    }
  }

  lemma {:induction false} DmiTakesParts(b: seq<byte>, capacity: nat)
    ensures TakesParts(DmiStep(b, capacity), b)
    decreases |b|
  {
    var c := b[FindMagic(b)..];
    DmiRound(b, capacity);
    if |c| >= 4 && c[3] < DMI_MINIMUM_FRAME {
      DmiTakesParts(c[2..], capacity);
      TakesPartsOfRest(DmiStep(b, capacity), c[2..], b);
    } else if |c| >= 4 && |c| >= c[3] {
      assert c[..c[3]] == c[0..c[3]];
      PartOfSuffix(c[..c[3]], c, b);
    }
  }

  lemma {:induction false} NdjsonTakesParts(b: seq<byte>, capacity: nat)
    ensures TakesParts(NdjsonStep(b, capacity), b)
    decreases |b|
  {
    NdjsonRound(b, capacity);
    hide NdjsonStep, FindNewline;
    var k := FindNewline(b);
    var line := Chomp(b[..k]);
    assert line == b[0..|line|];
    hide Chomp;
    if k < |b| && !(0 < |line| <= capacity) {
      NdjsonTakesParts(b[k + 1..], capacity);
      hide IsPart;
      TakesPartsOfRest(NdjsonStep(b, capacity), b[k + 1..], b);
    }
  }

  lemma {:induction false} TwoByteTakesParts(b: seq<byte>, capacity: nat, big: bool)
    ensures TakesParts(TwoByteStep(b, capacity, big), b)
    decreases |b|
  {
    if |b| >= 2 && FieldLength(b, big) == 0 {
      TwoByteTakesParts(b[2..], capacity, big);
      TakesPartsOfRest(TwoByteStep(b, capacity, big), b[2..], b);
    }
  }

  /** Extraction keeps a suffix of the buffer and delivers consecutive octets of it. */
  lemma ExtractTakesParts(mode: Mode, b: seq<byte>, capacity: nat)
    ensures TakesParts(Extract(mode, b, capacity), b)
  {
    match mode
    case Dmi => DmiTakesParts(b, capacity);
    case Ndjson => NdjsonTakesParts(b, capacity);
    case TwoByteBig => TwoByteTakesParts(b, capacity, true);
    case TwoByteLittle => TwoByteTakesParts(b, capacity, false);
  }

  /** After an extraction that found nothing there is nothing to find. */
  lemma {:induction false} WaitingIsFinal(mode: Mode, b: seq<byte>, capacity: nat)
    requires Extract(mode, b, capacity).outcome.Waiting?
    ensures var rest := Extract(mode, b, capacity).rest;
            Extract(mode, rest, capacity) == Step(Waiting, rest) && Parse(mode, rest, capacity) == Parsed([], rest)
    decreases |b|
  {
    if mode.Dmi? {
      var c := b[FindMagic(b)..];
      if c != [] { FindMagicAtZero(c); }
      assert c[0..] == c;
      if |c| >= 4 && c[3] < DMI_MINIMUM_FRAME { WaitingIsFinal(mode, c[2..], capacity); }
    } else if mode.Ndjson? {
      var k := FindNewline(b);
      if k < |b| { WaitingIsFinal(mode, b[k + 1..], capacity); }
    } else if |b| >= 2 && FieldLength(b, mode.TwoByteBig?) == 0 {
      WaitingIsFinal(mode, b[2..], capacity);
    }
  }

  /** The frames delivered so far and what the buffer still holds are the parse of the client's octets. */
  ghost predicate OwnFrames(mode: Mode, capacity: nat, v: Visit, pending: seq<byte>) {
    Parse(mode, v.Stream(), capacity) == Prepend(v.frames, Parse(mode, pending, capacity))
  }

  ghost predicate Unmixed(v: Visit) {
    forall f :: f in v.frames ==> IsPart(f, v.Stream())
  }

  /** What is promised of a visit that is over. */
  ghost predicate Closed(mode: Mode, capacity: nat, v: Visit) {
    Unmixed(v) && (v.Harmless(mode) ==> v.frames <= Parse(mode, v.Stream(), capacity).frames)
  }

  function FramesOf(visits: seq<Visit>): (fs: seq<seq<byte>>) {
    if visits == [] then [] else FramesOf(visits[..|visits| - 1]) + visits[|visits| - 1].frames
  }

  const NOBODY := Visit([], [], true)

  lemma NoFrames()
    ensures FramesOf([]) + NOBODY.frames == []
  {
  }

  function Deliver(v: Visit, f: seq<byte>): Visit {
    v.(frames := v.frames + [f])
  }

  function Arrive(v: Visit, chunk: seq<byte>): Visit {
    v.(chunks := v.chunks + [chunk])
  }

  ghost predicate Consistent(mode: Mode, capacity: nat, v: Visit, pending: seq<byte>) {
    && IsSuffix(pending, v.Stream())
    && Unmixed(v)
    && (v.Harmless(mode) ==> OwnFrames(mode, capacity, v, pending))
  }

  /** Before anything has arrived there is nothing to be wrong. */
  lemma EmptyVisit(mode: Mode, capacity: nat, v: Visit)
    requires v.chunks == [] && v.frames == []
    ensures Consistent(mode, capacity, v, [])
  {
    hide CutsSafely;
    assert v.Stream() == [];
  }

  lemma ConsistentIsClosed(mode: Mode, capacity: nat, v: Visit, pending: seq<byte>)
    requires Consistent(mode, capacity, v, pending)
    ensures Closed(mode, capacity, v)
  {
    hide Parse, CutsSafely, Unmixed, IsSuffix;
  }

  lemma UnusualIsConsistent(mode: Mode, capacity: nat, v: Visit, pending: seq<byte>, usual: bool)
    requires Consistent(mode, capacity, v, pending) && (usual ==> v.usual)
    ensures Consistent(mode, capacity, v.(usual := usual), pending)
  {
    hide Parse, CutsSafely, IsSuffix, IsPart;
  }

  /** With nothing left to deliver, everything has been delivered. */
  lemma DrainedIsComplete(mode: Mode, capacity: nat, v: Visit, pending: seq<byte>)
    requires Consistent(mode, capacity, v, pending)
    requires v.usual ==> Parse(mode, pending, capacity) == Parsed([], pending)
    ensures v.Harmless(mode) ==> v.frames == Parse(mode, v.Stream(), capacity).frames
  {
    hide Parse, CutsSafely, IsSuffix, IsPart;
    assert v.frames + [] == v.frames;
  }

  lemma CutsSafelyBefore(mode: Mode, chunks: seq<seq<byte>>, chunk: seq<byte>)
    requires CutsSafely(mode, chunks + [chunk])
    ensures CutsSafely(mode, chunks)
    ensures var before := Flatten(chunks);
            mode.Dmi? ==>
              !(|before| > 0 && before[|before| - 1] == MAGIC_FIRST && |chunk| > 0 && chunk[0] == MAGIC_SECOND)
  {
    var all := chunks + [chunk];
    forall i | 0 <= i <= |chunks| ensures all[..i] == chunks[..i] {
    }
    assert chunks[..|chunks|] == chunks && all[|chunks|] == chunk;
  }

  /** A chunk arrives while nothing in the buffer can be delivered. */
  lemma ArriveKeepsConsistent(mode: Mode, capacity: nat, v: Visit, pending: seq<byte>, chunk: seq<byte>)
    requires Consistent(mode, capacity, v, pending)
    requires v.Harmless(mode) ==> Parse(mode, pending, capacity) == Parsed([], pending)
    ensures Consistent(mode, capacity, Arrive(v, chunk), pending + chunk)
  {
    hide CutsSafely, Parse, IsPart, IsSuffix;
    var w := Arrive(v, chunk);
    FlattenSnoc(v.chunks, chunk);
    var before := v.Stream();
    assert w.Stream() == before + chunk;
    hide Flatten;
    SuffixOfLonger(pending, before, chunk);
    forall f | f in w.frames ensures IsPart(f, w.Stream()) { PartOfLonger(f, before, chunk); }
    if w.Harmless(mode) {
      CutsSafelyBefore(mode, v.chunks, chunk);
      SafeCutParses(mode, capacity, before, chunk);
      FeedBehind(mode, capacity, v.frames, pending, Parse(mode, before, capacity), chunk);
    }
  }

  lemma SuffixOfLonger(rest: seq<byte>, stream: seq<byte>, more: seq<byte>)
    requires IsSuffix(rest, stream)
    ensures IsSuffix(rest + more, stream + more)
  {
  }

  lemma FeedBehind(mode: Mode, capacity: nat, frames: seq<seq<byte>>, pending: seq<byte>, p: Parsed, chunk: seq<byte>)
    requires p == Prepend(frames, Parsed([], pending))
    ensures Feed(mode, p, chunk, capacity) == Prepend(frames, Parse(mode, pending + chunk, capacity))
  {
    hide Parse;
    assert frames + [] == frames;
  }

  lemma NothingPending(mode: Mode, room: nat)
    ensures Extract(mode, [], room).outcome == Waiting
  {
  }

  lemma SafeCutParses(mode: Mode, capacity: nat, before: seq<byte>, chunk: seq<byte>)
    requires mode.Dmi? ==>
               !(|before| > 0 && before[|before| - 1] == MAGIC_FIRST && |chunk| > 0 && chunk[0] == MAGIC_SECOND)
    ensures Parse(mode, before + chunk, capacity) == Feed(mode, Parse(mode, before, capacity), chunk, capacity)
  {
    if LosesBoundary(mode, before, capacity) { LossEndsInMagic(mode, before, capacity); }
    hide Parse, LosesBoundary;
    ParseAppend(mode, before, chunk, capacity);
  }

  /** An extraction into a buffer of `room` octets, the usual capacity if the visit is harmless. */
  lemma ExtractKeepsConsistent(mode: Mode, capacity: nat, room: nat, v: Visit, pending: seq<byte>)
    requires Consistent(mode, capacity, v, pending) && (v.Harmless(mode) ==> room == capacity)
    ensures var s := Extract(mode, pending, room);
            Consistent(mode, capacity, if s.outcome.Frame? then Deliver(v, s.outcome.bytes) else v, s.rest)
  {
    var s := Extract(mode, pending, room);
    ExtractTakesParts(mode, pending, room);
    match s.outcome
    case Waiting => WaitingIsFinal(mode, pending, room);
    case TooLong(_) => TooLongStays(mode, pending, room);
    case Frame(f) =>
      PartOfSuffix(f, pending, v.Stream());
      PrependTwice(v.frames, [f], Parse(mode, s.rest, room));
  }

  lemma {:induction false} DmiTooLongEnds(b: seq<byte>, room: nat, larger: nat)
    requires DmiStep(b, room).outcome.TooLong?
    ensures var n := DmiStep(b, room).outcome.length;
            if larger >= n then DmiStep(b, larger).outcome.Frame?
            else DmiStep(b, larger).outcome == TooLong(n)
    decreases |b|
  {
    var c := b[FindMagic(b)..];
    DmiRound(b, room);
    DmiRound(b, larger);
    if c[3] < DMI_MINIMUM_FRAME {
      DmiTooLongEnds(c[2..], room, larger);
    }
  }

  lemma {:induction false} TwoByteTooLongEnds(b: seq<byte>, room: nat, larger: nat, big: bool)
    requires TwoByteStep(b, room, big).outcome.TooLong?
    ensures var n := TwoByteStep(b, room, big).outcome.length;
            if larger >= n then TwoByteStep(b, larger, big).outcome.Frame?
            else TwoByteStep(b, larger, big).outcome == TooLong(n)
    decreases |b|
  {
    if FieldLength(b, big) == 0 {
      TwoByteTooLongEnds(b[2..], room, larger, big);
    }
  }

  /** A frame too long for one buffer is delivered into another exactly if it is as long. */
  lemma TooLongEndsIff(mode: Mode, b: seq<byte>, room: nat, larger: nat)
    requires Extract(mode, b, room).outcome.TooLong?
    ensures Extract(mode, b, larger).outcome.Frame? <==> larger >= Extract(mode, b, room).outcome.length
  {
    match mode
    case Dmi => DmiTooLongEnds(b, room, larger);
    case Ndjson => NdjsonNeverTooLong(b, room);
    case TwoByteBig => TwoByteTooLongEnds(b, room, larger, true);
    case TwoByteLittle => TwoByteTooLongEnds(b, room, larger, false);
  }

  class TcpServer {
    const mode: Mode
    // The size of the buffers the caller usually offers.
    ghost const capacity: nat
    const receiveBuffer: ReceiveBuffer
    var isOpen: bool
    var connected: bool
    // The current client's visit, and those of all earlier clients, oldest first.
    ghost var visit: Visit
    ghost var past: seq<Visit>

    ghost predicate Valid()
      reads this, receiveBuffer
    {
      && (connected ==> isOpen)
      && (!connected ==> receiveBuffer.pending == [] && visit.chunks == [] && visit.frames == [])
      && Consistent(mode, capacity, visit, receiveBuffer.pending)
      && forall v :: v in past ==> Closed(mode, capacity, v)
    }

    /** Every frame ever handed to the caller, in order. */
    ghost function Delivered(): seq<seq<byte>>
      reads this
    {
      FramesOf(past) + visit.frames
    }

    constructor (mode: Mode, ghost capacity: nat)
      ensures Valid() && fresh(receiveBuffer) && !isOpen && !connected && Delivered() == []
      ensures this.mode == mode && this.capacity == capacity
    {
      NoFrames();
      hide Consistent, Closed, FramesOf;
      this.mode, this.capacity := mode, capacity;
      isOpen, connected := false, false;
      visit, past := NOBODY, [];
      receiveBuffer := new ReceiveBuffer();
      new;
      EmptyVisit(mode, capacity, NOBODY);
    }

    method Open(opening: Opening) returns (result: Result)
      requires Valid()
      modifies this`isOpen, receiveBuffer
      ensures Valid() && receiveBuffer.pending == old(receiveBuffer.pending)
      ensures isOpen == (old(isOpen) || result == Ok)
      ensures result == if old(isOpen) then AlreadyOpen else
                        match opening
                        case NotConfigured => InvalidArgument
                        case NoTransport => TransportFailed
                        case NoSocket => SocketFailed
                        case NotBound => BindFailed
                        case NotListening => SocketFailed
                        case Listening => Ok
    {
      hide Consistent, Closed;
      if isOpen {
        return AlreadyOpen;
      }
      match opening
      case NotConfigured => return InvalidArgument;
      case NoTransport => return TransportFailed;
      case NoSocket => return SocketFailed;
      case NotBound => return BindFailed;
      case NotListening => return SocketFailed;
      case Listening =>
        isOpen := true;
        receiveBuffer.pending := [];
        return Ok;
    }

    /** The client leaves, and the octets it left behind go with it. */
    method CloseClient()
      requires Valid()
      modifies this`connected, this`visit, this`past, receiveBuffer
      ensures Valid() && !connected && receiveBuffer.pending == [] && visit == NOBODY
      ensures past == if old(connected) then old(past) + [old(visit)] else old(past)
      ensures Delivered() == old(Delivered())
    {
      EmptyVisit(mode, capacity, NOBODY);
      ConsistentIsClosed(mode, capacity, visit, receiveBuffer.pending);
      hide Consistent, Closed;
      if connected {
        connected := false;
        past := past + [visit];
        assert past[..|past| - 1] == old(past);
      }
      visit := NOBODY;
      receiveBuffer.pending := [];
      assert FramesOf(past) + [] == FramesOf(past);
    }

    method Close(closes: bool) returns (result: Result)
      requires Valid()
      modifies this`isOpen, this`connected, this`visit, this`past, receiveBuffer
      ensures Valid() && !isOpen && !connected && Delivered() == old(Delivered())
      ensures past == if old(connected) then old(past) + [old(visit)] else old(past)
      ensures result == if !old(isOpen) then NotOpen else if closes then Ok else SocketFailed
    {
      hide Consistent, Closed, FramesOf;
      if !isOpen {
        return NotOpen;
      }
      CloseClient();
      isOpen := false;
      return if closes then Ok else SocketFailed;
    }

    /** Nothing in the buffer can be delivered into `room` octets or is stuck at its head. */
    ghost predicate Drained(room: nat)
      reads receiveBuffer
    {
      Parse(mode, receiveBuffer.pending, room) == Parsed([], receiveBuffer.pending)
    }

    /** A complete frame too long for `room` octets stands at the head of the client's octets. */
    ghost predicate Stuck(room: nat)
      reads this, receiveBuffer
    {
      connected && Extract(mode, receiveBuffer.pending, room).outcome.TooLong?
    }

    /** A visit is harmless only with buffers of the usual size. */
    ghost predicate Usual(room: nat)
      reads this
    {
      visit.usual ==> room == capacity
    }

    method EnsureClientConnected(accepting: Accepting) returns (result: Result)
      requires Valid()
      modifies this`connected, this`visit, receiveBuffer
      ensures Valid() && receiveBuffer.pending == old(receiveBuffer.pending)
      ensures result == if !isOpen then NotOpen else if old(connected) then Ok else
                        match accepting
                        case NobodyWaiting => WouldBlock
                        case AcceptFailed => SocketFailed
                        case Accepted => Ok
      ensures connected == (old(connected) || result == Ok)
      ensures visit == if connected && !old(connected) then NOBODY else old(visit)
      ensures forall room :: old(Drained(room)) ==> Drained(room)
    {
      EmptyVisit(mode, capacity, NOBODY);
      hide Consistent, Closed, Parse;
      if !isOpen {
        return NotOpen;
      }
      if connected {
        return Ok;
      }
      match accepting
      case NobodyWaiting => return WouldBlock;
      case AcceptFailed => return SocketFailed;
      case Accepted =>
        connected := true;
        visit := NOBODY;
        receiveBuffer.pending := [];
        return Ok;
    }

    /** Take note of the size of the buffer offered. */
    ghost method Note(room: nat)
      requires Valid()
      modifies this`visit
      ensures Valid() && Usual(room) && Delivered() == old(Delivered())
      ensures visit == old(visit).(usual := old(visit).usual && room == capacity)
    {
      UnusualIsConsistent(mode, capacity, visit, receiveBuffer.pending, visit.usual && room == capacity);
      hide Consistent, Closed;
      visit := visit.(usual := visit.usual && room == capacity);
    }

    /** Try to take one frame out of the buffer for the current client. */
    method Take(buffer: array<byte>) returns (found: bool, size: nat)
      requires Valid() && Usual(buffer.Length)
      modifies this`visit, receiveBuffer, buffer
      ensures Valid() && Usual(buffer.Length)
      ensures found ==> size <= buffer.Length && Delivered() == old(Delivered()) + [buffer[..size]]
      ensures visit == if found then Deliver(old(visit), buffer[..size]) else old(visit)
      ensures !found ==> Delivered() == old(Delivered()) && buffer[..] == old(buffer[..])
      ensures receiveBuffer.pending == Extract(mode, old(receiveBuffer.pending), buffer.Length).rest
      ensures found ==> Extract(mode, old(receiveBuffer.pending), buffer.Length).outcome == Frame(buffer[..size])
      ensures !found && size <= buffer.Length ==> Drained(buffer.Length)
      ensures !found && size > buffer.Length && connected ==> Stuck(buffer.Length)
      ensures !found && !connected ==> size <= buffer.Length
      ensures old(Stuck(buffer.Length)) ==> !found && size > buffer.Length
    {
      hide Consistent, Closed, FramesOf, Parse, Extract;
      ghost var pending := receiveBuffer.pending;
      found, size := receiveBuffer.TryExtract(mode, buffer, 0);
      ghost var s := Extract(mode, pending, buffer.Length);
      ExtractKeepsConsistent(mode, capacity, buffer.Length, visit, pending);
      NothingPending(mode, buffer.Length);
      match s.outcome {
        case Waiting => WaitingIsFinal(mode, pending, buffer.Length);
        case TooLong(_) => TooLongStays(mode, pending, buffer.Length);
        case Frame(f) =>
          assert buffer[..size] == f;
          visit := Deliver(visit, f);
          assert FramesOf(past) + (old(visit).frames + [f]) == FramesOf(past) + old(visit).frames + [f];
      }
    }

    /** A chunk arrives behind a drained buffer, and one more extraction is tried. */
    method Absorb(chunk: seq<byte>, buffer: array<byte>) returns (found: bool, size: nat)
      requires Valid() && connected && Drained(buffer.Length) && Usual(buffer.Length)
      modifies this`visit, receiveBuffer, buffer
      ensures Valid() && Usual(buffer.Length)
      ensures found ==> size <= buffer.Length && Delivered() == old(Delivered()) + [buffer[..size]]
      ensures var v := Arrive(old(visit), chunk);
              visit == if found then Deliver(v, buffer[..size]) else v
      ensures var s := Extract(mode, old(receiveBuffer.pending) + chunk, buffer.Length);
              receiveBuffer.pending == s.rest && (found ==> s.outcome == Frame(buffer[..size]))
      ensures !found ==> Delivered() == old(Delivered())
      ensures !found && size <= buffer.Length ==> Drained(buffer.Length)
      ensures !found && size > buffer.Length ==> Stuck(buffer.Length)
    {
      hide Consistent, Closed, FramesOf, Parse, Extract, CutsSafely;
      ArriveKeepsConsistent(mode, capacity, visit, receiveBuffer.pending, chunk);
      receiveBuffer.pending := receiveBuffer.pending + chunk;
      visit := Arrive(visit, chunk);
      found, size := Take(buffer);
    }

    /** The peer has gone: every frame of its stream had been delivered. */
    method PeerGone(ghost room: nat)
      requires Valid() && connected && Drained(room) && Usual(room)
      modifies this`connected, this`visit, this`past, receiveBuffer
      ensures Valid() && !connected && Delivered() == old(Delivered())
      ensures past == old(past) + [old(visit)] && Complete(old(visit))
    {
      DrainedIsComplete(mode, capacity, visit, receiveBuffer.pending);
      hide Consistent, Closed, FramesOf, Parse, CutsSafely;
      CloseClient();
    }

    /** Whatever was received from this client has been delivered as far as it is whole frames. */
    ghost predicate Complete(v: Visit) {
      v.Harmless(mode) ==> v.frames == Parse(mode, v.Stream(), capacity).frames
    }

    /** The visit a call has served: the current one, or the one that ended in it. */
    ghost function Served(before: seq<Visit>): (v: Visit)
      reads this
    {
      if past == before || past == [] then visit else past[|past| - 1]
    }

    /** A client left exactly if `gone`; it had been given every frame of its stream. */
    ghost predicate LeftIff(gone: bool, before: seq<Visit>)
      reads this
    {
      if gone then
        |past| == |before| + 1 && past[..|before|] == before && Complete(past[|before|]) && !connected
      else past == before && connected
    }

    /** Read what the socket has ready, in order, until a frame is complete. */
    method ReadUntilFrame(buffer: array<byte>, arrivals: seq<Arrival>) returns (result: Result, size: nat, used: nat)
      requires Valid() && connected && Drained(buffer.Length) && Usual(buffer.Length)
      modifies this`connected, this`visit, this`past, receiveBuffer, buffer
      ensures Valid() && used <= |arrivals| && Reading(arrivals, used, result)
      ensures result == Ok ==> size <= buffer.Length && Delivered() == old(Delivered()) + [buffer[..size]]
      ensures result != Ok ==> Delivered() == old(Delivered())
      ensures var s := Fed(mode, old(receiveBuffer.pending), Chunks(arrivals[..used]), buffer.Length);
              && (connected ==> receiveBuffer.pending == s.rest)
              && (result == Ok ==> s.outcome == Frame(buffer[..size]))
      ensures LeftIff(Leaves(arrivals, used), old(past))
      ensures Served(old(past)) == Visit(old(visit).chunks + Chunks(arrivals[..used]),
                                         old(visit).frames + (if result == Ok then [buffer[..size]] else []),
                                         old(visit).usual)
      ensures result == InvalidArgument ==> Stuck(buffer.Length)
    {
      hide Consistent, Closed, FramesOf, Parse, Extract, Complete, Fed;
      used, size := 0, 0;
      FedNothing(mode, receiveBuffer.pending, buffer.Length);
      assert arrivals[..0] == [];
      assert old(visit).chunks + Chunks(arrivals[..0]) == old(visit).chunks;
      while used < |arrivals|
        invariant Valid() && connected && used <= |arrivals| && Drained(buffer.Length) && Usual(buffer.Length)
        invariant AllChunks(arrivals[..used])
        invariant visit == old(visit).(chunks := old(visit).chunks + Chunks(arrivals[..used]))
        invariant Delivered() == old(Delivered()) && past == old(past)
        invariant receiveBuffer.pending
               == Fed(mode, old(receiveBuffer.pending), Chunks(arrivals[..used]), buffer.Length).rest
      {
        var arrival := arrivals[used];
        NextArrival(arrivals, used, old(visit).chunks);
        NextArrival(arrivals, used, []);
        used := used + 1;
        assert old(visit).frames + [] == old(visit).frames;
        match arrival {
          case Failed(failure) =>
            if failure == ConnectionGone {
              PeerGone(buffer.Length);
            }
            return if failure == NothingToRead then WouldBlock else ReceiveFailed, 0, used;
          case Ended =>
            PeerGone(buffer.Length);
            return WouldBlock, 0, used;
          case Chunk(bytes) =>
            var found;
            FedNext(mode, old(receiveBuffer.pending), Chunks(arrivals[..used - 1]), bytes, buffer.Length);
            assert Chunks(arrivals[..used]) == Chunks(arrivals[..used - 1]) + [bytes];
            found, size := Absorb(bytes, buffer);
            if found {
              return Ok, size, used;
            }
            if size > buffer.Length {
              return InvalidArgument, size, used;
            }
        }
      }
      assert old(visit).frames + [] == old(visit).frames;
      return WouldBlock, 0, used;
    }

    /** Receive one frame.  `arrivals` is what the socket has ready, in order. */
    method Receive(buffer: array<byte>, accepting: Accepting, arrivals: seq<Arrival>)
      returns (result: Result, size: nat, used: nat)
      requires Valid()
      modifies this`connected, this`visit, this`past, receiveBuffer, buffer
      ensures Valid() && used <= |arrivals|
      ensures result == Ok ==> size <= buffer.Length && Delivered() == old(Delivered()) + [buffer[..size]]
      ensures result != Ok ==> Delivered() == old(Delivered())
      // Everything that has arrived, and nothing else, belongs to the visit this call served.
      ensures connected || past != old(past) ==>
                var v := if old(connected) then old(visit) else NOBODY;
                Served(old(past)) == Visit(v.chunks + Chunks(arrivals[..used]),
                                           v.frames + (if result == Ok then [buffer[..size]] else []),
                                           v.usual && (buffer.Length == capacity || buffer.Length == 0))
      // The frame is the first one found behind what was waiting, and what is left is waiting again.
      ensures buffer.Length > 0 && connected ==>
                var waiting := Extract(mode, old(receiveBuffer.pending), buffer.Length).rest;
                receiveBuffer.pending == Fed(mode, waiting, Chunks(arrivals[..used]), buffer.Length).rest
      ensures result == Ok ==>
                var s := Extract(mode, old(receiveBuffer.pending), buffer.Length);
                (if used == 0 then s else Fed(mode, s.rest, Chunks(arrivals[..used]), buffer.Length)).outcome
                  == Frame(buffer[..size])
      // A client that leaves has been given every frame of its stream; it leaves when its socket says so.
      ensures past == old(past) || LeftIff(true, old(past))
      ensures past != old(past) <==> used > 0 && Leaves(arrivals, used)
      ensures used > 0 || (connected && result != Ok && result != InvalidArgument) ==> Reading(arrivals, used, result)
      // Without a client one is accepted if there is one.
      ensures isOpen && buffer.Length > 0 && !old(connected) ==>
                if accepting == Accepted then connected || past != old(past)
                else !connected && past == old(past)
                     && result == (if accepting == NobodyWaiting then WouldBlock else SocketFailed)
      // A refusal means a buffer of no size or a frame too long for it, ...
      ensures result == InvalidArgument ==> buffer.Length == 0 || Stuck(buffer.Length)
      ensures buffer.Length == 0 ==> result == InvalidArgument
      // ... which stops everything: nothing is read, and the client never leaves.
      ensures old(Stuck(buffer.Length)) ==>
                result == InvalidArgument && Stuck(buffer.Length) && used == 0 && past == old(past)
      ensures result == NotOpen <==> buffer.Length > 0 && !isOpen
      ensures isOpen == old(isOpen)
    {
      hide Consistent, Closed, FramesOf, Parse, Complete, Extract, Fed;
      assert Chunks(arrivals[..0]) == [];
      FedNothing(mode, Extract(mode, receiveBuffer.pending, buffer.Length).rest, buffer.Length);
      assert arrivals[..0] == [];
      size, used := 0, 0;
      ghost var v := if connected then visit else NOBODY;
      assert v.chunks + [] == v.chunks && v.frames + [] == v.frames;
      if buffer.Length == 0 {
        return InvalidArgument, 0, 0;
      }
      if !isOpen {
        return NotOpen, 0, 0;
      }
      Note(buffer.Length);
      var found;
      found, size := Take(buffer);
      if found {
        return Ok, size, 0;
      }
      if size > buffer.Length {
        return InvalidArgument, size, 0;
      }
      result := EnsureClientConnected(accepting);
      if result != Ok {
        return result, 0, 0;
      }
      Note(buffer.Length);
      result, size, used := ReadUntilFrame(buffer, arrivals);
    }
  }
}
