/** Send framing, and what the receive framing makes of what was sent. */
module SendFraming {
  import opened Bytes
  import opened Framing

  /** The octets a builder writes for a payload it accepts. */
  function Wire(mode: Mode, p: seq<byte>): (w: seq<byte>)
  {
    match mode
    case Dmi => [MAGIC_FIRST, MAGIC_SECOND, 0, (6 + |p|) % 0x100, 0, 0] + p
    case TwoByteBig => [|p| / 0x100 % 0x100, |p| % 0x100] + p
    case TwoByteLittle => [|p| % 0x100, |p| / 0x100 % 0x100] + p
    case Ndjson => if EndsInFeed(p) then p else p + [LINE_FEED]
  }

  predicate EndsInFeed(p: seq<byte>) {
    |p| > 0 && p[|p| - 1] == LINE_FEED
  }

  /** A payload that a builder accepts and whose frame is not longer or differently cut on arrival. */
  predicate Sendable(mode: Mode, p: seq<byte>, capacity: nat) {
    match mode
    case Dmi => |p| <= DMI_MAX_PAYLOAD && 6 + |p| <= capacity
    case TwoByteBig => |p| < 0x10000 && |p| <= capacity
    case TwoByteLittle => |p| < 0x10000 && |p| <= capacity
    case Ndjson => |p| > 0 && LINE_FEED !in p[..|p| - 1]
  }

  /** What the receiver is to be given for a payload. */
  function Image(mode: Mode, p: seq<byte>): (f: seq<byte>)
  {
    match mode
    case Dmi => Wire(mode, p)
    case Ndjson => Chomp(if EndsInFeed(p) then p[..|p| - 1] else p)
    case _ => p
  }

  /** Whether the receiver is given anything at all for a payload. */
  predicate Delivers(mode: Mode, p: seq<byte>, capacity: nat) {
    match mode
    case Dmi => true
    case Ndjson => 0 < |Image(mode, p)| <= capacity
    case _ => |p| > 0
  }

  ghost predicate AllSendable(mode: Mode, ps: seq<seq<byte>>, capacity: nat) {
    forall p :: p in ps ==> Sendable(mode, p, capacity)
  }

  function WireAll(mode: Mode, ps: seq<seq<byte>>): (w: seq<byte>) {
    if ps == [] then [] else Wire(mode, ps[0]) + WireAll(mode, ps[1..])
  }

  function Images(mode: Mode, ps: seq<seq<byte>>, capacity: nat): (fs: seq<seq<byte>>) {
    if ps == [] then []
    else ImageIfDelivered(mode, ps[0], capacity) + Images(mode, ps[1..], capacity)
  }

  lemma DmiWireStep(p: seq<byte>, rest: seq<byte>, capacity: nat)
    requires |p| <= DMI_MAX_PAYLOAD && 6 + |p| <= capacity
    ensures DmiStep(Wire(Dmi, p) + rest, capacity) == Step(Frame(Wire(Dmi, p)), rest)
  {
    hide DmiStep;
    var w := Wire(Dmi, p);
    FindMagicAtZero(w + rest);
    DmiRound(w + rest, capacity);
    assert (w + rest)[0..] == w + rest;
    assert (w + rest)[..6 + |p|] == w && (w + rest)[6 + |p|..] == rest;
  }

  lemma NdjsonWireStep(p: seq<byte>, rest: seq<byte>, capacity: nat)
    requires Sendable(Ndjson, p, capacity)
    ensures NdjsonStep(Wire(Ndjson, p) + rest, capacity) ==
            if Delivers(Ndjson, p, capacity) then Step(Frame(Image(Ndjson, p)), rest) else NdjsonStep(rest, capacity)
  {
    hide Chomp;
    var b := Wire(Ndjson, p) + rest;
    var k := if EndsInFeed(p) then |p| - 1 else |p|;
    assert b[..k] == p[..k] && b[k + 1..] == rest && b[k] == LINE_FEED;
    assert LINE_FEED !in p[..k] by {
      if !EndsInFeed(p) { assert p[..k] == p[..|p| - 1] + [p[|p| - 1]]; }
    }
    assert p[..k] == if EndsInFeed(p) then p[..|p| - 1] else p;
    FindNewlineUnique(b, k);
  }

  lemma TwoByteWireStep(p: seq<byte>, rest: seq<byte>, capacity: nat, big: bool)
    requires |p| < 0x10000 && |p| <= capacity
    ensures TwoByteStep(Wire(if big then TwoByteBig else TwoByteLittle, p) + rest, capacity, big) ==
            if |p| > 0 then Step(Frame(p), rest) else TwoByteStep(rest, capacity, big)
  {
    var w := Wire(if big then TwoByteBig else TwoByteLittle, p);
    WireFieldLength(p, big);
    assert FieldLength(w + rest, big) == |p|;
    assert (w + rest)[2..2 + |p|] == p && (w + rest)[2 + |p|..] == rest;
  }

  /** The length field is the payload size truncated to sixteen bits. */
  lemma WireFieldLength(p: seq<byte>, big: bool)
    ensures FieldLength(Wire(if big then TwoByteBig else TwoByteLittle, p), big) == |p| % 0x10000
  {
    TwoOctets(|p|);
  }

  lemma TwoOctets(n: nat)
    ensures (n / 0x100 % 0x100) * 0x100 + n % 0x100 == n % 0x10000
  {
  }

  /** One frame in front of anything is taken off whole, and nothing else is touched. */
  lemma ExtractWire(mode: Mode, p: seq<byte>, rest: seq<byte>, capacity: nat)
    requires Sendable(mode, p, capacity)
    ensures Extract(mode, Wire(mode, p) + rest, capacity) ==
            if Delivers(mode, p, capacity) then Step(Frame(Image(mode, p)), rest) else Extract(mode, rest, capacity)
  {
    hide DmiStep, TwoByteStep, NdjsonStep, Wire;
    match mode
    case Dmi => DmiWireStep(p, rest, capacity);
    case Ndjson => NdjsonWireStep(p, rest, capacity);
    case TwoByteBig => TwoByteWireStep(p, rest, capacity, true);
    case TwoByteLittle => TwoByteWireStep(p, rest, capacity, false);
  }

  function ImageIfDelivered(mode: Mode, p: seq<byte>, capacity: nat): (fs: seq<seq<byte>>) {
    if Delivers(mode, p, capacity) then [Image(mode, p)] else []
  }

  lemma ParseWire(mode: Mode, p: seq<byte>, rest: seq<byte>, capacity: nat)
    requires Sendable(mode, p, capacity)
    ensures Parse(mode, Wire(mode, p) + rest, capacity) ==
            Prepend(ImageIfDelivered(mode, p, capacity), Parse(mode, rest, capacity))
  {
    hide Extract, Wire, Image;
    ExtractWire(mode, p, rest, capacity);
    PrependTwice([], [], Parse(mode, rest, capacity));
    if !Delivers(mode, p, capacity) {
      SameExtractSameParse(mode, Wire(mode, p) + rest, rest, capacity);
    }
  }

  /** Round trip: the concatenated frames of any payloads, before any further octets,
      are extracted as those payloads, in order, and nothing is left of them. */
  lemma {:induction false} RoundTripBefore(mode: Mode, ps: seq<seq<byte>>, more: seq<byte>, capacity: nat)
    requires AllSendable(mode, ps, capacity)
    ensures Parse(mode, WireAll(mode, ps) + more, capacity) ==
            Prepend(Images(mode, ps, capacity), Parse(mode, more, capacity))
    decreases |ps|
  {
    hide Parse, Wire, Image, Sendable, Prepend;
    if ps == [] {
      assert [] + more == more;
      PrependTwice([], [], Parse(mode, more, capacity));
    } else {
      var w, v := Wire(mode, ps[0]), WireAll(mode, ps[1..]);
      assert w + v + more == w + (v + more);
      assert ps[0] in ps;
      ParseWire(mode, ps[0], v + more, capacity);
      RoundTripBefore(mode, ps[1..], more, capacity);
      PrependTwice(ImageIfDelivered(mode, ps[0], capacity), Images(mode, ps[1..], capacity),
        Parse(mode, more, capacity));
    }
  }

  /** What a receiver should see of a list of payloads: DMI delivers whole frames, the others payloads. */
  function Expected(mode: Mode, ps: seq<seq<byte>>): (fs: seq<seq<byte>>)
    ensures |fs| == |ps|
  {
    if mode.Dmi? then seq(|ps|, i requires 0 <= i < |ps| => Wire(Dmi, ps[i])) else ps
  }

  /** For payloads within the documented limits the frames come back one for one. */
  lemma {:induction false} RoundTrip(mode: Mode, ps: seq<seq<byte>>, capacity: nat)
    requires AllSendable(mode, ps, capacity)
    requires forall p :: p in ps ==> RoundTrips(mode, p, capacity)
    ensures Parse(mode, WireAll(mode, ps), capacity) ==
            Parsed(Expected(mode, ps), [])
  {
    RoundTripBefore(mode, ps, [], capacity);
    assert WireAll(mode, ps) + [] == WireAll(mode, ps);
    assert Parse(mode, [], capacity) == Parsed([], []);
    ImagesOneForOne(mode, ps, capacity);
  }

  lemma ImageOfRoundTrip(mode: Mode, p: seq<byte>, capacity: nat)
    requires Sendable(mode, p, capacity) && RoundTrips(mode, p, capacity)
    ensures ImageIfDelivered(mode, p, capacity) == [if mode.Dmi? then Wire(Dmi, p) else p]
  {
  }

  lemma {:induction false} ImagesOneForOne(mode: Mode, ps: seq<seq<byte>>, capacity: nat)
    requires AllSendable(mode, ps, capacity)
    requires forall p :: p in ps ==> RoundTrips(mode, p, capacity)
    ensures Images(mode, ps, capacity) == Expected(mode, ps)
  {
    hide Wire, Image, Delivers, Sendable, RoundTrips, ImageIfDelivered;
    if ps != [] {
      assert ps[0] in ps;
      ImagesOneForOne(mode, ps[1..], capacity);
      ImageOfRoundTrip(mode, ps[0], capacity);
    }
  }

  /** The payloads that come back as they were sent. */
  predicate RoundTrips(mode: Mode, p: seq<byte>, capacity: nat) {
    match mode
    case Dmi => |p| <= DMI_MAX_PAYLOAD && 6 + |p| <= capacity
    case Ndjson => 0 < |p| <= capacity && LINE_FEED !in p && p[|p| - 1] != CARRIAGE_RETURN
    case _ => 0 < |p| < 0x10000 && |p| <= capacity
  }

  /** Exactly when a single frame gives back its payload (for DMI: its whole frame). */
  lemma RoundTripsIff(mode: Mode, p: seq<byte>, capacity: nat)
    requires mode.Dmi? ==> |p| <= DMI_MAX_PAYLOAD
    requires mode.Ndjson? ==> |p| > 0
    ensures Parse(mode, Wire(mode, p), capacity) == Parsed(Expected(mode, [p]), [])
            <==> RoundTrips(mode, p, capacity)
  {
    if RoundTrips(mode, p, capacity) {
      RoundTripOfOne(mode, p, capacity);
    } else {
      match mode
      case Dmi => DmiLoss(p, capacity);
      case Ndjson => NdjsonLoss(p, capacity);
      case TwoByteBig => TwoByteLoss(p, capacity, true);
      case TwoByteLittle => TwoByteLoss(p, capacity, false);
      hide Parse, Wire, RoundTrips;
      ExpectedOfOne(mode, p);
    }
  }

  lemma ExpectedOfOne(mode: Mode, p: seq<byte>)
    ensures Expected(mode, [p]) == [if mode.Dmi? then Wire(Dmi, p) else p]
  {
    hide Wire;
  }

  lemma RoundTripOfOne(mode: Mode, p: seq<byte>, capacity: nat)
    requires RoundTrips(mode, p, capacity)
    ensures Parse(mode, Wire(mode, p), capacity) == Parsed(Expected(mode, [p]), [])
  {
    assert Sendable(mode, p, capacity);
    assert WireAll(mode, [p]) == Wire(mode, p) + [];
    hide Parse, Wire, RoundTrips, Sendable;
    assert Wire(mode, p) + [] == Wire(mode, p);
    RoundTrip(mode, [p], capacity);
  }

  lemma DmiLoss(p: seq<byte>, capacity: nat)
    requires |p| <= DMI_MAX_PAYLOAD && 6 + |p| > capacity
    ensures Parse(Dmi, Wire(Dmi, p), capacity).frames == []
  {
    DmiTooBig(p, capacity);
    hide DmiStep, Wire;
  }

  lemma DmiTooBig(p: seq<byte>, capacity: nat)
    requires |p| <= DMI_MAX_PAYLOAD && 6 + |p| > capacity
    ensures DmiStep(Wire(Dmi, p), capacity).outcome.TooLong?
  {
    var w := Wire(Dmi, p);
    FindMagicAtZero(w);
    hide FindMagic, HasMagic;
    assert w[0..] == w && w[3] == |w|;
    DmiRound(w, capacity);
    hide DmiStep;
  }

  // ---- what is on the wire ----

  /** A DMI frame is a magic, zero, its own length, two zeros, and the payload. */
  lemma DmiWireLayout(p: seq<byte>)
    requires |p| <= 249
    ensures var w := Wire(Dmi, p);
            |w| == 6 + |p| && w[..6] == [0x55, 0xAA, 0, 6 + |p|, 0, 0] && w[6..] == p
  {
  }

  /** The other modes: a size in two octets before the payload, or a line feed behind it. */
  lemma WireLayout(p: seq<byte>)
    requires |p| < 0x10000
    ensures var w := Wire(TwoByteBig, p);
            |w| == 2 + |p| && w[0] as int * 256 + w[1] == |p| && w[2..] == p
    ensures var w := Wire(TwoByteLittle, p);
            |w| == 2 + |p| && w[1] as int * 256 + w[0] == |p| && w[2..] == p
    ensures Wire(Ndjson, p) == if p != [] && p[|p| - 1] == 0x0A then p else p + [0x0A]
  {
    WireFieldLength(p, true);
    WireFieldLength(p, false);
  }

  /** A frame with the payload behind its six octets. */
  ghost predicate CarriesPayload(f: seq<byte>, p: seq<byte>) {
    |f| == 6 + |p| && |p| <= 249 && f[..6] == [0x55, 0xAA, 0, 6 + |p|, 0, 0] && f[6..] == p
  }

  /** What arrives in DMI mode carries the payloads. */
  lemma DmiCarriesPayloads(ps: seq<seq<byte>>, capacity: nat)
    requires capacity >= 255 && forall p :: p in ps ==> |p| <= 249
    ensures var parsed := Parse(Dmi, WireAll(Dmi, ps), capacity);
            && parsed.rest == [] && |parsed.frames| == |ps|
            && forall i :: 0 <= i < |ps| ==> CarriesPayload(parsed.frames[i], ps[i])
  {
    DmiPayloadsSendable(ps, capacity);
    hide Parse, Wire, CarriesPayload;
    RoundTrip(Dmi, ps, capacity);
    forall i | 0 <= i < |ps| ensures CarriesPayload(Expected(Dmi, ps)[i], ps[i]) {
      DmiFrameCarries(ps[i]);
    }
  }

  lemma DmiPayloadsSendable(ps: seq<seq<byte>>, capacity: nat)
    requires capacity >= 255 && forall p :: p in ps ==> |p| <= 249
    ensures AllSendable(Dmi, ps, capacity) && forall p :: p in ps ==> RoundTrips(Dmi, p, capacity)
  {
  }

  lemma DmiFrameCarries(p: seq<byte>)
    requires |p| <= 249
    ensures CarriesPayload(Wire(Dmi, p), p)
  {
    DmiWireLayout(p);
    hide Wire;
  }

  // ---- what the send path lets through ----

  const SEND_BUFFER_SIZE := 65536

  /** The payloads for which a send gets as far as the socket. */
  predicate Sent(mode: Mode, p: seq<byte>) {
    p != [] && |Wire(mode, p)| <= SEND_BUFFER_SIZE && (mode.Dmi? ==> |p| <= DMI_MAX_PAYLOAD)
  }

  /** The send buffer stops payloads before the two-octet length would be cut off: whatever is sent comes
      back to a receiver with as large a buffer, except lines with an inner line feed or a trailing
      carriage return. */
  lemma SentComesBackIff(mode: Mode, p: seq<byte>, capacity: nat)
    requires Sent(mode, p) && capacity >= SEND_BUFFER_SIZE
    ensures Parse(mode, Wire(mode, p), capacity) == Parsed(Expected(mode, [p]), [])
            <==> (mode.Ndjson? ==> LINE_FEED !in p && p[|p| - 1] != CARRIAGE_RETURN)
    ensures (mode.TwoByteBig? || mode.TwoByteLittle?) ==> |p| <= 65534
  {
    RoundTripsIff(mode, p, capacity);
    hide Parse;
  }

  /** And so does everything sent one after the other. */
  lemma AllSentComesBack(mode: Mode, ps: seq<seq<byte>>, capacity: nat)
    requires capacity >= SEND_BUFFER_SIZE
    requires forall p :: p in ps ==>
               Sent(mode, p) && (mode.Ndjson? ==> LINE_FEED !in p && p[|p| - 1] != CARRIAGE_RETURN)
    ensures Parse(mode, WireAll(mode, ps), capacity) == Parsed(Expected(mode, ps), [])
  {
    forall p | p in ps ensures Sendable(mode, p, capacity) && RoundTrips(mode, p, capacity) {
      assert Sent(mode, p);
    }
    RoundTrip(mode, ps, capacity);
  }

  /** A line that does not come back: its trailing carriage return is taken for part of the terminator. */
  lemma CarriageReturnIsLost(capacity: nat)
    requires capacity >= SEND_BUFFER_SIZE
    ensures var p: seq<byte> := [0x41, 0x0D];
            Sent(Ndjson, p) && Parse(Ndjson, Wire(Ndjson, p), capacity) == Parsed([[0x41]], [])
  {
    var p: seq<byte> := [0x41, 0x0D];
    assert Image(Ndjson, p) == [0x41];
    assert Wire(Ndjson, p) + [] == Wire(Ndjson, p);
    ParseWire(Ndjson, p, [], capacity);
    assert Parse(Ndjson, [], capacity) == Parsed([], []);
  }

  lemma {:induction false} NdjsonFrameShape(b: seq<byte>, capacity: nat)
    ensures var o := NdjsonStep(b, capacity).outcome;
            o.Frame? ==> LINE_FEED !in o.bytes && 0 < |o.bytes| <= capacity
    decreases |b|
  {
    var k := FindNewline(b);
    if k < |b| { NdjsonFrameShape(b[k + 1..], capacity); }
  }

  lemma NdjsonLoss(p: seq<byte>, capacity: nat)
    requires |p| > 0 && !RoundTrips(Ndjson, p, capacity)
    ensures Parse(Ndjson, Wire(Ndjson, p), capacity).frames != [p]
  {
    var w := Wire(Ndjson, p);
    NdjsonFrameShape(w, capacity);
    if LINE_FEED !in p && |p| <= capacity {
      assert w[..|p|] == p && w[|p| + 1..] == [];
      FindNewlineUnique(w, |p|);
      assert Chomp(p) == p[..|p| - 1];
      assert NdjsonStep([], capacity) == Step(Waiting, []);
    }
    HeadFrame(Ndjson, w, capacity);
  }

  /** The first frame of a parse is the one the first extraction delivers. */
  lemma HeadFrame(mode: Mode, b: seq<byte>, capacity: nat)
    ensures var o := Extract(mode, b, capacity).outcome;
            var fs := Parse(mode, b, capacity).frames;
            if o.Frame? then |fs| > 0 && fs[0] == o.bytes else fs == []
  {
  }

  lemma {:induction false} TwoByteFrameShape(b: seq<byte>, capacity: nat, big: bool)
    ensures var s := TwoByteStep(b, capacity, big);
            s.outcome.Frame? ==> |s.outcome.bytes| + 2 <= |b| && 0 < |s.outcome.bytes| <= capacity
    decreases |b|
  {
    if |b| >= 2 && FieldLength(b, big) == 0 { TwoByteFrameShape(b[2..], capacity, big); }
  }

  lemma TwoByteLoss(p: seq<byte>, capacity: nat, big: bool)
    requires |p| == 0 || |p| >= 0x10000 || |p| > capacity
    ensures var mode := if big then TwoByteBig else TwoByteLittle;
            Parse(mode, Wire(mode, p), capacity).frames != [p]
  {
    var mode := if big then TwoByteBig else TwoByteLittle;
    var w := Wire(mode, p);
    TwoByteFrameShape(w, capacity, big);
    HeadFrame(mode, w, capacity);
    WireFieldLength(p, big);
    if |p| >= 0x10000 && |p| % 0x10000 == 0 {
      assert w[2..] == p;
      TwoByteFrameShape(p, capacity, big);
    }
  }

  // ---- DMI resynchronisation ----

  datatype Segment = Garbage(bytes: seq<byte>) | Delivered(bytes: seq<byte>)

  datatype Segments = Segments(parts: seq<Segment>, rest: seq<byte>)

  /** One round of the DMI extractor: the garbage before the magic, then a segment and what follows it,
      or nothing more to take. */
  datatype Cut = Stop(skipped: seq<Segment>, rest: seq<byte>)
               | Cut(skipped: seq<Segment>, segment: Segment, rest: seq<byte>)

  function NextCut(b: seq<byte>, capacity: nat): (cut: Cut)
    ensures cut.Cut? ==> |cut.rest| < |b|
  {
    var k := FindMagic(b);
    var c := b[k..];
    var skipped := if k > 0 then [Garbage(b[..k])] else [];
    if |c| < 4 then Stop(skipped, c)
    else if c[3] < DMI_MINIMUM_FRAME then Cut(skipped, Garbage(c[..2]), c[2..])
    else if |c| < c[3] || c[3] > capacity then Stop(skipped, c)
    else Cut(skipped, Delivered(c[..c[3]]), c[c[3]..])
  }

  /** How repeated DMI extraction cuts up its input: what it throws away, what it delivers, what it keeps. */
  function DmiSegments(b: seq<byte>, capacity: nat): (s: Segments)
    decreases |b|
  {
    match NextCut(b, capacity)
    case Stop(skipped, rest) => Segments(skipped, rest)
    case Cut(skipped, segment, rest) =>
      var t := DmiSegments(rest, capacity);
      Segments(skipped + [segment] + t.parts, t.rest)
  }

  function Joined(parts: seq<Segment>): (b: seq<byte>) {
    if parts == [] then [] else parts[0].bytes + Joined(parts[1..])
  }

  function Frames(parts: seq<Segment>): (fs: seq<seq<byte>>) {
    if parts == [] then []
    else (if parts[0].Delivered? then [parts[0].bytes] else []) + Frames(parts[1..])
  }

  /** A piece at the head of the input `from`.  Thrown-away octets begin no magic in it, or they are a
      magic whose length octet, two places behind, is too small for any frame. */
  ghost predicate Justified(s: Segment, from: seq<byte>) {
    match s
    case Garbage(g) =>
      && 0 < |g| && g <= from
      && ((forall i: nat :: i < |g| ==> !HasMagic(from, i)) ||
          (g == [MAGIC_FIRST, MAGIC_SECOND] && |from| >= 4 && from[3] < DMI_MINIMUM_FRAME))
    case Delivered(f) => ValidDmiFrame(f)
  }

  /** Each piece is justified in the input from its place on. */
  ghost predicate AllJustified(parts: seq<Segment>, rest: seq<byte>) {
    parts == [] || (Justified(parts[0], Joined(parts) + rest) && AllJustified(parts[1..], rest))
  }

  predicate ValidDmiFrame(f: seq<byte>) {
    6 <= |f| <= 255 && HasMagic(f, 0) && f[3] == |f|
  }

  lemma {:induction false} JoinedAppend(xs: seq<Segment>, ys: seq<Segment>)
    ensures Joined(xs + ys) == Joined(xs) + Joined(ys)
  {
    if xs == [] {
      assert xs + ys == ys;
    } else {
      assert (xs + ys)[1..] == xs[1..] + ys;
      JoinedAppend(xs[1..], ys);
    }
  }

  lemma {:induction false} FramesAppend(xs: seq<Segment>, ys: seq<Segment>)
    ensures Frames(xs + ys) == Frames(xs) + Frames(ys)
  {
    if xs == [] {
      assert xs + ys == ys;
    } else {
      assert (xs + ys)[1..] == xs[1..] + ys;
      FramesAppend(xs[1..], ys);
    }
  }

  lemma JoinedCons(skipped: seq<Segment>, s: Segment, t: seq<Segment>)
    requires |skipped| <= 1
    ensures Joined(skipped + [s] + t) == Joined(skipped) + s.bytes + Joined(t)
    ensures Frames(skipped + [s] + t) == Frames(skipped) + (if s.Delivered? then [s.bytes] else []) + Frames(t)
  {
    assert skipped + [s] + t == skipped + ([s] + t);
    JoinedAppend(skipped, [s] + t);
    FramesAppend(skipped, [s] + t);
    assert ([s] + t)[1..] == t;
  }

  /** A round conserves its octets and its pieces are justified. */
  lemma CutConserves(b: seq<byte>, capacity: nat)
    ensures var cut := NextCut(b, capacity);
            && |cut.skipped| <= 1 && (forall p :: p in cut.skipped ==> Justified(p, b)) && Frames(cut.skipped) == []
            && (cut.Stop? ==> Joined(cut.skipped) + cut.rest == b)
            && (cut.Cut? ==> Justified(cut.segment, cut.segment.bytes + cut.rest)
                             && Joined(cut.skipped) + (cut.segment.bytes + cut.rest) == b)
  {
    var k := FindMagic(b);
    var c := b[k..];
    var cut := NextCut(b, capacity);
    SkippedJustified(b);
    SegmentJustified(c, capacity, b);
    assert Joined(cut.skipped) == b[..k];
    hide Justified, HasMagic;
    assert b[..k] + c == b;
  }

  lemma SkippedJustified(b: seq<byte>)
    ensures var k := FindMagic(b); k > 0 ==> Justified(Garbage(b[..k]), b)
  {
  }

  lemma SegmentJustified(c: seq<byte>, capacity: nat, b: seq<byte>)
    requires c == b[FindMagic(b)..]
    ensures var cut := NextCut(b, capacity);
            cut.Cut? ==> cut.segment.bytes + cut.rest == c && Justified(cut.segment, c)
  {
    var cut := NextCut(b, capacity);
    if cut.Cut? {
      assert HasMagic(c, 0);
      if cut.segment.Delivered? {
        assert c[..c[3]] + c[c[3]..] == c;
      } else {
        assert c[..2] + c[2..] == c;
      }
    }
  }

  lemma CutParses(b: seq<byte>, capacity: nat)
    ensures var cut := NextCut(b, capacity);
            if cut.Stop? then Parse(Dmi, b, capacity) == Parsed([], cut.rest)
            else Parse(Dmi, b, capacity) ==
                 Prepend(if cut.segment.Delivered? then [cut.segment.bytes] else [], Parse(Dmi, cut.rest, capacity))
  {
    hide DmiStep;
    var cut := NextCut(b, capacity);
    DmiRound(b, capacity);
    PrependTwice([], [], Parse(Dmi, cut.rest, capacity));
    if cut.Cut? && cut.segment.Garbage? {
      SameExtractSameParse(Dmi, b, cut.rest, capacity);
    }
  }

  /** Delivered, discarded and kept octets partition the input in order; every frame is well formed; nothing
      that begins a magic in the input is discarded, except where its length octet is impossible; and the
      frames are those extraction delivers. */
  lemma {:induction false} DmiPartition(b: seq<byte>, capacity: nat)
    ensures var s := DmiSegments(b, capacity);
            && Joined(s.parts) + s.rest == b
            && AllJustified(s.parts, s.rest)
            && Parse(Dmi, b, capacity) == Parsed(Frames(s.parts), s.rest)
    decreases |b|
  {
    hide Parse, NextCut, Joined, Frames, Justified, AllJustified;
    var cut := NextCut(b, capacity);
    CutConserves(b, capacity);
    CutParses(b, capacity);
    if cut.Cut? {
      DmiPartition(cut.rest, capacity);
      PrependSegments(b, cut.skipped, cut.segment, DmiSegments(cut.rest, capacity), cut.rest);
    } else {
      JustifiedLast(cut.skipped, cut.rest, b);
    }
  }

  lemma JustifiedLast(skipped: seq<Segment>, rest: seq<byte>, b: seq<byte>)
    requires |skipped| <= 1 && Joined(skipped) + rest == b && forall p :: p in skipped ==> Justified(p, b)
    ensures AllJustified(skipped, rest)
  {
    hide Justified, Joined;
    if skipped != [] {
      assert skipped[0] in skipped;
    }
  }

  lemma Regroup<T>(w: seq<T>, x: seq<T>, y: seq<T>, z: seq<T>)
    ensures w + x + y + z == w + (x + (y + z))
  {
  }

  lemma PrependSegments(b: seq<byte>, skipped: seq<Segment>, s: Segment, t: Segments, tail: seq<byte>)
    requires |skipped| <= 1 && (forall p :: p in skipped ==> Justified(p, b)) && Frames(skipped) == []
    requires Justified(s, s.bytes + tail) && AllJustified(t.parts, t.rest)
    requires Joined(t.parts) + t.rest == tail && Joined(skipped) + (s.bytes + tail) == b
    ensures var parts := skipped + [s] + t.parts;
            && Joined(parts) + t.rest == b
            && AllJustified(parts, t.rest)
            && Frames(parts) == (if s.Delivered? then [s.bytes] else []) + Frames(t.parts)
  {
    hide *;
    JoinedCons(skipped, s, t.parts);
    Regroup(Joined(skipped), s.bytes, Joined(t.parts), t.rest);
    PrependJustified(b, skipped, s, t.parts, t.rest);
  }

  lemma PrependJustified(b: seq<byte>, skipped: seq<Segment>, s: Segment, parts: seq<Segment>, rest: seq<byte>)
    requires |skipped| <= 1 && forall p :: p in skipped ==> Justified(p, b)
    requires Justified(s, s.bytes + (Joined(parts) + rest)) && AllJustified(parts, rest)
    requires Joined(skipped) + (s.bytes + (Joined(parts) + rest)) == b
    ensures AllJustified(skipped + [s] + parts, rest)
  {
    hide *;
    var more := [s] + parts;
    JustifiedCons(s, parts, rest);
    if skipped == [] {
      assert skipped + [s] + parts == more;
    } else {
      var x := skipped[0];
      assert skipped == [x] && x in skipped;
      assert skipped + [s] + parts == [x] + more;
      JoinedOne(x);
      assert s.bytes + Joined(parts) + rest == s.bytes + (Joined(parts) + rest);
      JustifiedCons(x, more, rest);
    }
  }

  lemma JoinedOne(s: Segment)
    ensures Joined([s]) == s.bytes
  {
    assert Joined([s][1..]) == [];
  }

  lemma JustifiedCons(s: Segment, parts: seq<Segment>, rest: seq<byte>)
    ensures Joined([s] + parts) == s.bytes + Joined(parts)
    ensures Justified(s, s.bytes + (Joined(parts) + rest)) && AllJustified(parts, rest) ==>
              AllJustified([s] + parts, rest)
  {
    assert ([s] + parts)[1..] == parts;
    assert Joined([s] + parts) + rest == s.bytes + (Joined(parts) + rest);
    hide Justified, Joined;
  }

  /** A valid frame behind garbage without a magic is never lost. */
  lemma GarbagePrefix(g: seq<byte>, f: seq<byte>, more: seq<byte>, capacity: nat)
    requires MagicFree(g) && ValidDmiFrame(f) && |f| <= capacity
    ensures Parse(Dmi, g + f + more, capacity) == Prepend([f], Parse(Dmi, more, capacity))
  {
    hide DmiStep;
    DmiRound(g + f + more, capacity);
    var b := g + f + more;
    forall i: nat | i < |g| ensures !HasMagic(b, i) { assert !HasMagic(g, i); }
    assert HasMagic(b, |g|);
    FindMagicUnique(b, |g|);
    assert b[|g|..] == f + more;
    assert (f + more)[..|f|] == f && (f + more)[|f|..] == more;
  }
}
