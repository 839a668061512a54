/** The SDMU packets: fixed sequences of big-endian fields with a length and a checksum patched in. */
module SdmuPacket {
  import opened Bytes
  import opened SessionCrc

  const HEAD: byte := 0x02
  const SECURE_TYPE: byte := 0x33
  const ACCURATE_TYPE: byte := 0x39
  const TAIL: byte := 0x03
  const WHEEL_DIAMETER := 1050
  const TEETH := 200
  const PACKET_BUFFER := 200

  type int32 = x: int | -0x8000_0000 <= x < 0x8000_0000
  type uint32 = x: int | 0 <= x < 0x1_0000_0000

  datatype Sample = Sample(timeMs: uint32, position: int32, velocity: int32, acceleration: int32,
                           state1: byte, state2: byte, state3: byte, count1: int32, count2: int32, count3: int32,
                           motion: byte, direction: byte)

  // ---- sequences of fields ----

  datatype Field = Field(width: nat, value: nat) {
    predicate Fits() {
      value < Pow256(width)
    }
  }

  function Body(fs: seq<Field>): (b: seq<byte>)
    decreases |fs|
  {
    if fs == [] then [] else Body(fs[..|fs| - 1]) + Big(fs[|fs| - 1].value, fs[|fs| - 1].width)
  }

  function Widths(fs: seq<Field>): (ws: seq<nat>)
    ensures |ws| == |fs|
  {
    seq(|fs|, i requires 0 <= i < |fs| => fs[i].width)
  }

  function Values(fs: seq<Field>): (vs: seq<nat>)
    ensures |vs| == |fs|
  {
    seq(|fs|, i requires 0 <= i < |fs| => fs[i].value)
  }

  function Total(ws: seq<nat>): (n: nat) {
    if ws == [] then 0 else ws[0] + Total(ws[1..])
  }

  /** A decoder: it cuts an octet string into fields of the given widths and reads each, first to last. */
  function ReadFields(b: seq<byte>, ws: seq<nat>): (vs: seq<nat>)
    requires |b| >= Total(ws)
    decreases |ws|
  {
    if ws == [] then [] else [BigValue(b[..ws[0]])] + ReadFields(b[ws[0]..], ws[1..])
  }

  lemma {:induction false} BodyCons(f: Field, fs: seq<Field>)
    ensures Body([f] + fs) == Big(f.value, f.width) + Body(fs)
    decreases |fs|
  {
    hide Big;
    if fs == [] {
      assert [f] + fs == [f];
      assert [f][..0] == [];
    } else {
      assert ([f] + fs)[..|fs|] == [f] + fs[..|fs| - 1];
      BodyCons(f, fs[..|fs| - 1]);
      var last := Big(fs[|fs| - 1].value, fs[|fs| - 1].width);
      assert Big(f.value, f.width) + Body(fs[..|fs| - 1]) + last
        == Big(f.value, f.width) + (Body(fs[..|fs| - 1]) + last);
    }
  }

  lemma {:induction false} BodySize(fs: seq<Field>)
    ensures |Body(fs)| == Total(Widths(fs))
    decreases |fs|
  {
    if fs != [] {
      assert fs == [fs[0]] + fs[1..];
      BodyCons(fs[0], fs[1..]);
      BodySize(fs[1..]);
      assert Widths(fs)[1..] == Widths(fs[1..]);
    }
  }

  /** Every field that fits its width is recovered. */
  lemma {:induction false} FieldsRoundTrip(fs: seq<Field>, after: seq<byte>)
    requires forall f :: f in fs ==> f.Fits()
    ensures |Body(fs) + after| >= Total(Widths(fs))
    ensures ReadFields(Body(fs) + after, Widths(fs)) == Values(fs)
    decreases |fs|
  {
    BodySize(fs);
    if fs != [] {
      var f, rest := fs[0], fs[1..];
      assert f in fs && fs == [f] + rest;
      BodyCons(f, rest);
      FieldsRoundTrip(rest, after);
      BigRoundTrip(f.value, f.width);
      hide Big, BigValue, Pow256, Body;
      assert Widths(fs)[1..] == Widths(rest) && Widths(fs)[0] == f.width;
      assert Values(fs) == [f.value] + Values(rest);
      hide Widths, Values;
      assert Big(f.value, f.width) + Body(rest) + after == Big(f.value, f.width) + (Body(rest) + after);
      ReadFirst(Big(f.value, f.width), Body(rest) + after, Widths(fs));
    }
  }

  lemma ReadFirst(first: seq<byte>, rest: seq<byte>, ws: seq<nat>)
    requires ws != [] && |first| == ws[0] && |rest| >= Total(ws[1..])
    ensures Total(ws) == ws[0] + Total(ws[1..])
            && ReadFields(first + rest, ws) == [BigValue(first)] + ReadFields(rest, ws[1..])
  {
    hide BigValue;
    assert (first + rest)[..ws[0]] == first && (first + rest)[ws[0]..] == rest;
  }

  // ---- signed values ----

  /** Two's complement. */
  function Unsigned(v: int, width: nat): (u: nat)
    ensures u < Pow256(width)
  {
    v % Pow256(width)
  }

  function Signed(u: nat, width: nat): (v: int) {
    if 2 * u < Pow256(width) then u else u - Pow256(width)
  }

  /** A value comes back exactly if it fits the signed range of its width. */
  lemma SignedRoundTripIff(v: int, width: nat)
    requires width > 0
    ensures Signed(Unsigned(v, width), width) == v <==> 0 <= 2 * v + Pow256(width) < 2 * Pow256(width)
  {
    var m := Pow256(width);
    assert m % 2 == 0;
    var q := v / m;
    assert v == q * m + v % m;
    if 0 <= v < m {
      SmallMod(v, m);
    } else if v < 0 <= v + m {
      SmallMod(v + m, m);
      ModWindow(v + m, m);
      NegativeMod(v, m);
    }
  }

  lemma SmallMod(x: int, m: nat)
    requires 0 <= x < m
    ensures x % m == x
  {
  }

  lemma NegativeMod(v: int, m: nat)
    requires v < 0 <= v + m
    ensures v % m == v + m
  {
    var q := v / m;
    assert v == q * m + v % m;
    if q >= 0 {
      MulMonotone(0, q, m);
    } else if q <= -2 {
      MulMonotone(q, -2, m);
    }
  }

  /** Non-negative values stand for themselves, negative ones for their distance to the next power. */
  lemma TwosComplement(v: int, width: nat)
    requires 0 <= v + Pow256(width) && v < Pow256(width)
    ensures Unsigned(v, width) == if v >= 0 then v else v + Pow256(width)
  {
    if v >= 0 {
      SmallMod(v, Pow256(width));
    } else {
      NegativeMod(v, Pow256(width));
    }
  }

  // ---- the checksum as octets ----

  function Byte3(c: bv32): (x: bv8) { ((c >> 24) & 0xFF) as bv8 }

  function Byte2(c: bv32): (x: bv8) { ((c >> 16) & 0xFF) as bv8 }

  function Byte1(c: bv32): (x: bv8) { ((c >> 8) & 0xFF) as bv8 }

  function Byte0(c: bv32): (x: bv8) { (c & 0xFF) as bv8 }

  /** A checksum most significant octet first. */
  function CrcOctets(c: bv32): (b: seq<byte>)
    ensures |b| == 4
  {
    [Octet(Byte3(c)), Octet(Byte2(c)), Octet(Byte1(c)), Octet(Byte0(c))]
  }

  function Bit32(c: bv32, mask: bv32): (b: bool) {
    c & mask != 0
  }

  /** The number a checksum is: the sum of the powers of two whose bits are set. */
  function Number(c: bv32): (n: nat) {
    Part3(c) + Part2(c) + Part1(c) + Part0(c)
  }

  function Part3(c: bv32): (n: nat) {
    Weight(Bit32(c, 0x80000000), 0x80000000) + Weight(Bit32(c, 0x40000000), 0x40000000) +
    Weight(Bit32(c, 0x20000000), 0x20000000) + Weight(Bit32(c, 0x10000000), 0x10000000) +
    Weight(Bit32(c, 0x08000000), 0x8000000) + Weight(Bit32(c, 0x04000000), 0x4000000) +
    Weight(Bit32(c, 0x02000000), 0x2000000) + Weight(Bit32(c, 0x01000000), 0x1000000)
  }

  function Part2(c: bv32): (n: nat) {
    Weight(Bit32(c, 0x00800000), 0x800000) + Weight(Bit32(c, 0x00400000), 0x400000) +
    Weight(Bit32(c, 0x00200000), 0x200000) + Weight(Bit32(c, 0x00100000), 0x100000) +
    Weight(Bit32(c, 0x00080000), 0x80000) + Weight(Bit32(c, 0x00040000), 0x40000) +
    Weight(Bit32(c, 0x00020000), 0x20000) + Weight(Bit32(c, 0x00010000), 0x10000)
  }

  function Part1(c: bv32): (n: nat) {
    Weight(Bit32(c, 0x00008000), 0x8000) + Weight(Bit32(c, 0x00004000), 0x4000) +
    Weight(Bit32(c, 0x00002000), 0x2000) + Weight(Bit32(c, 0x00001000), 0x1000) +
    Weight(Bit32(c, 0x00000800), 0x800) + Weight(Bit32(c, 0x00000400), 0x400) +
    Weight(Bit32(c, 0x00000200), 0x200) + Weight(Bit32(c, 0x00000100), 0x100)
  }

  function Part0(c: bv32): (n: nat) {
    Weight(Bit32(c, 0x00000080), 0x80) + Weight(Bit32(c, 0x00000040), 0x40) +
    Weight(Bit32(c, 0x00000020), 0x20) + Weight(Bit32(c, 0x00000010), 0x10) +
    Weight(Bit32(c, 0x00000008), 0x8) + Weight(Bit32(c, 0x00000004), 0x4) +
    Weight(Bit32(c, 0x00000002), 0x2) + Weight(Bit32(c, 0x00000001), 0x1)
  }

  lemma Byte3Bits(c: bv32)
    ensures var x := Byte3(c);
            && Bit(x, 0x80) == Bit32(c, 0x80000000) && Bit(x, 0x40) == Bit32(c, 0x40000000)
            && Bit(x, 0x20) == Bit32(c, 0x20000000) && Bit(x, 0x10) == Bit32(c, 0x10000000)
            && Bit(x, 0x08) == Bit32(c, 0x08000000) && Bit(x, 0x04) == Bit32(c, 0x04000000)
            && Bit(x, 0x02) == Bit32(c, 0x02000000) && Bit(x, 0x01) == Bit32(c, 0x01000000)
  {
  }

  lemma Byte3IsPart(c: bv32)
    ensures 0x1000000 * Octet(Byte3(c)) == Part3(c)
  {
    Byte3Bits(c);
    hide Byte3, Bit, Bit32;
  }

  lemma Byte2Bits(c: bv32)
    ensures var x := Byte2(c);
            && Bit(x, 0x80) == Bit32(c, 0x00800000) && Bit(x, 0x40) == Bit32(c, 0x00400000)
            && Bit(x, 0x20) == Bit32(c, 0x00200000) && Bit(x, 0x10) == Bit32(c, 0x00100000)
            && Bit(x, 0x08) == Bit32(c, 0x00080000) && Bit(x, 0x04) == Bit32(c, 0x00040000)
            && Bit(x, 0x02) == Bit32(c, 0x00020000) && Bit(x, 0x01) == Bit32(c, 0x00010000)
  {
  }

  lemma Byte2IsPart(c: bv32)
    ensures 0x10000 * Octet(Byte2(c)) == Part2(c)
  {
    Byte2Bits(c);
    hide Byte2, Bit, Bit32;
  }

  lemma Byte1Bits(c: bv32)
    ensures var x := Byte1(c);
            && Bit(x, 0x80) == Bit32(c, 0x00008000) && Bit(x, 0x40) == Bit32(c, 0x00004000)
            && Bit(x, 0x20) == Bit32(c, 0x00002000) && Bit(x, 0x10) == Bit32(c, 0x00001000)
            && Bit(x, 0x08) == Bit32(c, 0x00000800) && Bit(x, 0x04) == Bit32(c, 0x00000400)
            && Bit(x, 0x02) == Bit32(c, 0x00000200) && Bit(x, 0x01) == Bit32(c, 0x00000100)
  {
  }

  lemma Byte1IsPart(c: bv32)
    ensures 0x100 * Octet(Byte1(c)) == Part1(c)
  {
    Byte1Bits(c);
    hide Byte1, Bit, Bit32;
  }

  lemma Byte0Bits(c: bv32)
    ensures var x := Byte0(c);
            && Bit(x, 0x80) == Bit32(c, 0x00000080) && Bit(x, 0x40) == Bit32(c, 0x00000040)
            && Bit(x, 0x20) == Bit32(c, 0x00000020) && Bit(x, 0x10) == Bit32(c, 0x00000010)
            && Bit(x, 0x08) == Bit32(c, 0x00000008) && Bit(x, 0x04) == Bit32(c, 0x00000004)
            && Bit(x, 0x02) == Bit32(c, 0x00000002) && Bit(x, 0x01) == Bit32(c, 0x00000001)
  {
  }

  lemma Byte0IsPart(c: bv32)
    ensures 0x1 * Octet(Byte0(c)) == Part0(c)
  {
    Byte0Bits(c);
    hide Byte0, Bit, Bit32;
  }

  lemma BigValueOfFour(a: byte, b: byte, c: byte, d: byte)
    ensures BigValue([a, b, c, d]) == a as int * 0x100_0000 + b as int * 0x1_0000 + c as int * 0x100 + d
  {
    assert [a, b, c, d][..3] == [a, b, c] && [a, b, c][..2] == [a, b] && [a, b][..1] == [a] && [a][..0] == [];
    assert BigValue([a]) == a;
    assert BigValue([a, b]) == a as int * 0x100 + b;
    assert BigValue([a, b, c]) == (a as int * 0x100 + b) * 0x100 + c;
  }

  /** The octets of a checksum, most significant first, are its number. */
  lemma CrcOctetsAreTheNumber(c: bv32)
    ensures BigValue(CrcOctets(c)) == Number(c)
  {
    Byte3IsPart(c);
    Byte2IsPart(c);
    Byte1IsPart(c);
    Byte0IsPart(c);
    hide BigValue, Octet, Byte3, Byte2, Byte1, Byte0, Part3, Part2, Part1, Part0;
    BigValueOfFour(Octet(Byte3(c)), Octet(Byte2(c)), Octet(Byte1(c)), Octet(Byte0(c)));
  }

  lemma FourDigits(a: byte, b: byte, c: byte, d: byte, p: byte, q: byte, r: byte, s: byte)
    requires a as int * 0x100_0000 + b as int * 0x1_0000 + c as int * 0x100 + d
          == p as int * 0x100_0000 + q as int * 0x1_0000 + r as int * 0x100 + s
    ensures a == p && b == q && c == r && d == s
  {
    assert a == p;
    assert b == q;
  }

  lemma BigValueOfFourInjective(x: seq<byte>, y: seq<byte>)
    requires |x| == |y| == 4 && BigValue(x) == BigValue(y)
    ensures x == y
  {
    assert x == [x[0], x[1], x[2], x[3]] && y == [y[0], y[1], y[2], y[3]];
    BigValueOfFour(x[0], x[1], x[2], x[3]);
    BigValueOfFour(y[0], y[1], y[2], y[3]);
    hide BigValue;
    FourDigits(x[0], x[1], x[2], x[3], y[0], y[1], y[2], y[3]);
  }

  lemma NumberInjective(c: bv32, d: bv32)
    requires Number(c) == Number(d)
    ensures c == d
  {
    CrcOctetsAreTheNumber(c);
    CrcOctetsAreTheNumber(d);
    hide BigValue, CrcOctets, Number;
    BigValueOfFourInjective(CrcOctets(c), CrcOctets(d));
    CrcOctetsInjective(c, d);
  }

  lemma BytesDetermine(c: bv32, d: bv32)
    requires Byte3(c) == Byte3(d) && Byte2(c) == Byte2(d) && Byte1(c) == Byte1(d) && Byte0(c) == Byte0(d)
    ensures c == d
  {
  }

  lemma CrcOctetsInjective(c: bv32, d: bv32)
    requires CrcOctets(c) == CrcOctets(d)
    ensures c == d
  {
    var x, y := CrcOctets(c), CrcOctets(d);
    assert x[0] == y[0] && x[1] == y[1] && x[2] == y[2] && x[3] == y[3];
    hide Octet, Byte3, Byte2, Byte1, Byte0, CrcOctets;
    OctetInjective(Byte3(c), Byte3(d));
    OctetInjective(Byte2(c), Byte2(d));
    OctetInjective(Byte1(c), Byte1(d));
    OctetInjective(Byte0(c), Byte0(d));
    BytesDetermine(c, d);
  }

  // ---- packets ----

  /** The covered fields, their checksum, and the tail octet. */
  function Packet(fs: seq<Field>): (p: seq<byte>) {
    Body(fs) + CrcOctets(Divide(0, Body(fs))) + [TAIL]
  }

  /** What a receiver checks: head, tail, the length field, and that the four octets before the tail are the
      number of the checksum of all before them. */
  ghost predicate Accepted(p: seq<byte>) {
    && |p| >= 9
    && p[0] == HEAD && p[|p| - 1] == TAIL
    && BigValue(p[2..4]) == |p| - 7
    && BigValue(p[|p| - 5..|p| - 1]) == Number(Divide(0, p[..|p| - 5]))
  }

  function Clamped(velocity: int32): (v: uint32) {
    if velocity < 0 then 0 else velocity
  }

  function MaxPosition(pos: int): (m: int) { if pos > 1000 then pos + 1000 else pos }

  function MinPosition(pos: int): (m: int) { if pos > 1000 then pos - 1000 else pos }

  function MaxVelocity(v: nat): (m: nat) { if v > 100 then v + 100 else v }

  function MinVelocity(v: nat): (m: nat) { if v > 100 then v - 100 else v }

  function HeaderFields(kind: byte, length: nat, time: uint32): (fs: seq<Field>) {
    [Field(1, HEAD), Field(1, kind), Field(2, length), Field(4, time)]
  }

  function SecureFields(s: Sample, time: uint32, length: nat): (fs: seq<Field>) {
    var v := Clamped(s.velocity);
    HeaderFields(SECURE_TYPE, length, time) +
    [Field(8, Unsigned(s.position, 8)), Field(8, Unsigned(MaxPosition(s.position), 8)),
      Field(8, Unsigned(MinPosition(s.position), 8)),
     Field(4, v), Field(4, MaxVelocity(v)), Field(4, MinVelocity(v)), Field(2, Unsigned(s.acceleration, 2)),
     Field(1, s.direction), Field(1, s.motion)]
  }

  /** A wheel's state octet is one from the first wheel with a zero pulse state on. */
  function WheelState(states: seq<byte>): (w: byte)
    ensures w == 1 || w == 0
  {
    if 0 in states then 1 else 0
  }

  function WheelFields(timeMs: uint32, count: int32, state: byte): (fs: seq<Field>) {
    [Field(8, timeMs * 1000), Field(2, WHEEL_DIAMETER), Field(2, TEETH), Field(4, Unsigned(count, 4)), Field(1, state),
      Field(1, 0)]
  }

  function AccurateFields(s: Sample, time: uint32, length: nat): (fs: seq<Field>) {
    HeaderFields(ACCURATE_TYPE, length, time) +
    [Field(4, Unsigned(s.position, 4)), Field(4, Clamped(s.velocity)), Field(2, Unsigned(s.acceleration, 2))] +
    WheelFields(s.timeMs, s.count1, WheelState([s.state1])) +
    WheelFields(s.timeMs, s.count2, WheelState([s.state1, s.state2])) +
    WheelFields(s.timeMs, s.count3, WheelState([s.state1, s.state2, s.state3])) +
    [Field(1, 0), Field(1, 0)]
  }

  const SECURE_LENGTH := 46
  const ACCURATE_LENGTH := 72

  lemma Pow256s()
    ensures Pow256(1) == 0x100 && Pow256(2) == 0x10000 && Pow256(4) == 0x1_0000_0000
            && Pow256(8) == 0x1_0000_0000_0000_0000
  {
    assert Pow256(3) == 0x100_0000;
    assert Pow256(5) == 0x100_0000_0000;
    assert Pow256(6) == 0x1_0000_0000_0000;
    assert Pow256(7) == 0x100_0000_0000_0000;
  }

  /** No field is cut off, no bound wraps, and the bounds enclose the estimates. */
  lemma SecureFieldsFit(s: Sample, time: uint32)
    ensures forall f :: f in SecureFields(s, time, SECURE_LENGTH) ==> f.Fits()
    ensures MinPosition(s.position) <= s.position <= MaxPosition(s.position)
    ensures MaxPosition(s.position) - s.position == s.position - MinPosition(s.position)
    ensures MaxVelocity(Clamped(s.velocity)) - Clamped(s.velocity)
            == Clamped(s.velocity) - MinVelocity(Clamped(s.velocity))
    ensures MinVelocity(Clamped(s.velocity)) <= Clamped(s.velocity) <= MaxVelocity(Clamped(s.velocity)) < 0x1_0000_0000
    ensures Signed(Unsigned(s.position, 8), 8) == s.position
    ensures Signed(Unsigned(MaxPosition(s.position), 8), 8) == MaxPosition(s.position)
    ensures Signed(Unsigned(MinPosition(s.position), 8), 8) == MinPosition(s.position)
  {
    Pow256s();
    SignedRoundTripIff(s.position, 8);
    SignedRoundTripIff(MaxPosition(s.position), 8);
    SignedRoundTripIff(MinPosition(s.position), 8);
    hide Unsigned, Signed, Pow256;
  }

  lemma AccurateFieldsFit(s: Sample, time: uint32)
    ensures forall f :: f in AccurateFields(s, time, ACCURATE_LENGTH) ==> f.Fits()
    ensures Signed(Unsigned(s.position, 4), 4) == s.position
    ensures Signed(Unsigned(s.count1, 4), 4) == s.count1
    ensures Signed(Unsigned(s.count2, 4), 4) == s.count2
    ensures Signed(Unsigned(s.count3, 4), 4) == s.count3
  {
    Pow256s();
    SignedRoundTripIff(s.position, 4);
    SignedRoundTripIff(s.count1, 4);
    SignedRoundTripIff(s.count2, 4);
    SignedRoundTripIff(s.count3, 4);
    hide Unsigned, Signed, Pow256;
  }

  // ---- what a receiver recovers ----

  lemma {:induction false} BodyHead(a: Field, b: Field, c: Field, rest: seq<Field>)
    requires a.width == 1 && b.width == 1 && c.width == 2 && a.Fits()
    ensures var body := Body([a, b, c] + rest);
            |body| >= 4 && body[0] == a.value && body[2..4] == Big(c.value, 2)
    ensures Body([a, b, c] + rest) == Big(a.value, 1) + Big(b.value, 1) + Big(c.value, 2) + Body(rest)
  {
    Pow256s();
    assert [a, b, c] + rest == [a] + ([b] + ([c] + rest));
    BodyCons(a, [b] + ([c] + rest));
    BodyCons(b, [c] + rest);
    BodyCons(c, rest);
    assert Big(a.value, 1)[0] == a.value;
    hide Big;
    var x, y, z, w := Big(a.value, 1), Big(b.value, 1), Big(c.value, 2), Body(rest);
    assert x + (y + (z + w)) == x + y + z + w;
    assert (x + y + z + w)[2..4] == z;
  }

  /** A packet whose length field is right is accepted. */
  lemma PacketIsAccepted(kind: Field, length: nat, rest: seq<Field>)
    requires kind.width == 1 && length < 0x10000
    requires |Body([Field(1, HEAD), kind, Field(2, length)] + rest)| == length + 2
    ensures Accepted(Packet([Field(1, HEAD), kind, Field(2, length)] + rest))
  {
    Pow256s();
    BodyHead(Field(1, HEAD), kind, Field(2, length), rest);
    BigRoundTrip(length, 2);
    hide Divide, CrcOctets, Body, Big, BigValue, Pow256;
    FrameIsAccepted(Body([Field(1, HEAD), kind, Field(2, length)] + rest));
  }

  lemma FrameIsAccepted(body: seq<byte>)
    requires |body| >= 4 && body[0] == HEAD && BigValue(body[2..4]) == |body| - 2
    ensures Accepted(body + CrcOctets(Divide(0, body)) + [TAIL])
  {
    CrcOctetsAreTheNumber(Divide(0, body));
    hide Divide, CrcOctets, BigValue, Number;
    var p := body + CrcOctets(Divide(0, body)) + [TAIL];
    assert p[..|p| - 5] == body && p[|p| - 5..|p| - 1] == CrcOctets(Divide(0, body)) && p[2..4] == body[2..4];
  }

  /** Any one octet of an accepted packet changed, wherever it is, makes it unacceptable. */
  lemma AnySingleOctetErrorIsRejected(p: seq<byte>, i: nat, x: byte)
    requires Accepted(p) && i < |p| && x != p[i]
    ensures !Accepted(p[i := x])
  {
    hide Divide, CrcOctets, BigValue, Number;
    var q := p[i := x];
    if i < |p| - 5 {
      assert q[..|q| - 5] == p[..|p| - 5][i := x];
      assert q[|q| - 5..|q| - 1] == p[|p| - 5..|p| - 1];
      OneOctetIsDetected(p[..|p| - 5], i, x);
      if Number(Divide(0, q[..|q| - 5])) == Number(Divide(0, p[..|p| - 5])) {
        NumberInjective(Divide(0, q[..|q| - 5]), Divide(0, p[..|p| - 5]));
      }
    } else if i < |p| - 1 {
      assert q[..|q| - 5] == p[..|p| - 5];
      var was, now := p[|p| - 5..|p| - 1], q[|q| - 5..|q| - 1];
      assert now[i - (|p| - 5)] == x && was[i - (|p| - 5)] == p[i];
      if BigValue(now) == BigValue(was) {
        BigValueOfFourInjective(now, was);
      }
    }
  }

  /** Any change of up to four consecutive covered octets of an accepted packet makes it unacceptable. */
  lemma BurstIsRejected(p: seq<byte>, i: nat, ys: seq<byte>)
    requires Accepted(p) && |ys| <= 4 && i + |ys| <= |p| - 5 && ys != p[i..i + |ys|]
    ensures !Accepted(p[..i] + ys + p[i + |ys|..])
  {
    hide Divide, CrcOctets, BigValue, Number;
    var n := |ys|;
    var q := p[..i] + ys + p[i + n..];
    var before, xs, after := p[..i], p[i..i + n], p[i + n..|p| - 5];
    assert p[..|p| - 5] == before + xs + after;
    assert q[..|q| - 5] == before + ys + after;
    assert q[|q| - 5..|q| - 1] == p[|p| - 5..|p| - 1];
    BurstIsDetected(before, xs, ys, after);
    if Number(Divide(0, q[..|q| - 5])) == Number(Divide(0, p[..|p| - 5])) {
      NumberInjective(Divide(0, q[..|q| - 5]), Divide(0, p[..|p| - 5]));
    }
  }

  // ---- widths of whole packets ----

  lemma {:induction false} TotalAppend(a: seq<nat>, b: seq<nat>)
    ensures Total(a + b) == Total(a) + Total(b)
  {
    if a == [] {
      assert a + b == b;
    } else {
      assert (a + b)[1..] == a[1..] + b;
      TotalAppend(a[1..], b);
    }
  }

  lemma TotalTwo(a: nat, b: nat)
    ensures Total([a, b]) == a + b
  {
    assert [a, b] == [a] + [b];
    TotalAppend([a], [b]);
    TotalOne(a);
    TotalOne(b);
  }

  lemma TotalFour(a: nat, b: nat, c: nat, d: nat)
    ensures Total([a, b, c, d]) == a + b + c + d
  {
    assert [a, b, c, d] == [a, b] + [c, d];
    TotalAppend([a, b], [c, d]);
    TotalTwo(a, b);
    TotalTwo(c, d);
  }

  lemma TotalSix(a: nat, b: nat, c: nat, d: nat, e: nat, f: nat)
    ensures Total([a, b, c, d, e, f]) == a + b + c + d + e + f
  {
    assert [a, b, c, d, e, f] == [a, b] + [c, d, e, f];
    TotalAppend([a, b], [c, d, e, f]);
    TotalTwo(a, b);
    TotalFour(c, d, e, f);
  }

  const HEADER_WIDTHS: seq<nat> := [1, 1, 2, 4]
  const WHEEL_WIDTHS: seq<nat> := [8, 2, 2, 4, 1, 1]
  const SECURE_WIDTHS: seq<nat> := HEADER_WIDTHS + ([8, 8, 8, 4, 4, 4] + ([2, 1] + [1]))
  const ACCURATE_WIDTHS: seq<nat> := HEADER_WIDTHS
      + ([4, 4] + ([2] + (WHEEL_WIDTHS + (WHEEL_WIDTHS + (WHEEL_WIDTHS + [1, 1])))))

  lemma SecureTotal()
    ensures Total(SECURE_WIDTHS) == SECURE_LENGTH + 2
  {
    hide Total;
    TotalFour(1, 1, 2, 4);
    TotalSix(8, 8, 8, 4, 4, 4);
    TotalThree(2, 1, 1);
    assert [2, 1] + [1] == [2, 1, 1];
    TotalAppend([8, 8, 8, 4, 4, 4], [2, 1] + [1]);
    TotalAppend(HEADER_WIDTHS, [8, 8, 8, 4, 4, 4] + ([2, 1] + [1]));
  }

  lemma TotalOne(a: nat)
    ensures Total([a]) == a
  {
    assert [a][1..] == [];
  }

  lemma TotalThree(a: nat, b: nat, c: nat)
    ensures Total([a, b, c]) == a + b + c
  {
    assert [a, b, c] == [a, b] + [c];
    TotalAppend([a, b], [c]);
    TotalTwo(a, b);
    TotalOne(c);
  }

  lemma AccurateTotal()
    ensures Total(ACCURATE_WIDTHS) == ACCURATE_LENGTH + 2
  {
    hide Total;
    TotalFour(1, 1, 2, 4);
    TotalTwo(4, 4);
    TotalOne(2);
    TotalTwo(1, 1);
    TotalSix(8, 2, 2, 4, 1, 1);
    var w := WHEEL_WIDTHS;
    TotalAppend(w, [1, 1]);
    TotalAppend(w, w + [1, 1]);
    TotalAppend(w, w + (w + [1, 1]));
    TotalAppend([2], w + (w + (w + [1, 1])));
    TotalAppend([4, 4], [2] + (w + (w + (w + [1, 1]))));
    TotalAppend(HEADER_WIDTHS, [4, 4] + ([2] + (w + (w + (w + [1, 1])))));
  }

  lemma SecureShape(s: Sample, time: uint32, length: nat)
    ensures Widths(SecureFields(s, time, length)) == SECURE_WIDTHS
    ensures |Body(SecureFields(s, time, length))| == SECURE_LENGTH + 2
  {
    hide Total, Body, Unsigned, MaxPosition, MinPosition, MaxVelocity, MinVelocity, Clamped;
    SecureTotal();
    BodySize(SecureFields(s, time, length));
  }

  lemma AccurateShape(s: Sample, time: uint32, length: nat)
    ensures Widths(AccurateFields(s, time, length)) == ACCURATE_WIDTHS
    ensures |Body(AccurateFields(s, time, length))| == ACCURATE_LENGTH + 2
  {
    hide Total, Body, Unsigned, Clamped, WheelState;
    AccurateTotal();
    BodySize(AccurateFields(s, time, length));
  }

  /** What a receiver reads out of an intact packet. */
  lemma PacketReadsBack(fs: seq<Field>)
    requires forall f :: f in fs ==> f.Fits()
    ensures |Packet(fs)| == Total(Widths(fs)) + 5 && Packet(fs)[|Packet(fs)| - 1] == TAIL
    ensures ReadFields(Packet(fs), Widths(fs)) == Values(fs)
  {
    hide Divide, CrcOctets, Body, Pow256, ReadFields, Total, Widths, Values;
    BodySize(fs);
    var after := CrcOctets(Divide(0, Body(fs))) + [TAIL];
    assert Packet(fs) == Body(fs) + after;
    FieldsRoundTrip(fs, after);
  }

  lemma SecureValues(s: Sample, time: uint32)
    ensures var v := Values(SecureFields(s, time, SECURE_LENGTH));
            && |v| == 13
            && v[0] == HEAD && v[1] == SECURE_TYPE && v[2] == SECURE_LENGTH && v[3] == time
            && v[4] == Unsigned(s.position, 8) && v[5] == Unsigned(MaxPosition(s.position), 8)
            && v[6] == Unsigned(MinPosition(s.position), 8)
            && v[7] == Clamped(s.velocity) && v[8] == MaxVelocity(v[7]) && v[9] == MinVelocity(v[7])
            && v[10] == Unsigned(s.acceleration, 2) && v[11] == s.direction && v[12] == s.motion
  {
    hide Unsigned, MaxPosition, MinPosition, MaxVelocity, MinVelocity, Clamped;
  }

  /** Every sample is recovered from its secure packet, which is accepted; the acceleration exactly if it
      fits sixteen bits; and the reported bounds enclose the reported estimates symmetrically. */
  lemma SecureRoundTrip(s: Sample, time: uint32)
    ensures var p, ws := Packet(SecureFields(s, time, SECURE_LENGTH)), [1, 1, 2, 4, 8, 8, 8, 4, 4, 4, 2, 1, 1];
            && |p| == 53 && p[52] == 0x03 && Accepted(p) && |p| >= Total(ws)
            && var v := ReadFields(p, ws);
               && |v| == 13
               && v[0] == 0x02 && v[1] == 0x33 && v[2] == 46 && v[3] == time
               && Signed(v[4], 8) == s.position && v[7] == (if s.velocity < 0 then 0 else s.velocity)
               && (Signed(v[10], 2) == s.acceleration <==> -0x8000 <= s.acceleration < 0x8000)
               && v[11] == s.direction && v[12] == s.motion
               && Signed(v[5], 8) == s.position + (if s.position > 1000 then 1000 else 0)
               && Signed(v[6], 8) == s.position - (if s.position > 1000 then 1000 else 0)
               && v[8] == v[7] + (if v[7] > 100 then 100 else 0) && v[9] == v[7] - (if v[7] > 100 then 100 else 0)
  {
    var fs := SecureFields(s, time, SECURE_LENGTH);
    Pow256s();
    SecureTotal();
    SecureShape(s, time, SECURE_LENGTH);
    SecureFieldsFit(s, time);
    SecureValues(s, time);
    SecureBounds(s);
    PacketReadsBack(fs);
    SignedRoundTripIff(s.acceleration, 2);
    SecureHead(s, time);
    SecureWidths();
    hide *;
  }

  lemma SecureWidths()
    ensures SECURE_WIDTHS == [1, 1, 2, 4, 8, 8, 8, 4, 4, 4, 2, 1, 1] && SECURE_LENGTH == 46
    ensures HEAD == 0x02 && SECURE_TYPE == 0x33 && ACCURATE_TYPE == 0x39 && TAIL == 0x03
  {
  }

  lemma SecureBounds(s: Sample)
    ensures MaxPosition(s.position) == s.position + (if s.position > 1000 then 1000 else 0)
    ensures MinPosition(s.position) == s.position - (if s.position > 1000 then 1000 else 0)
    ensures var v := Clamped(s.velocity);
            && v == (if s.velocity < 0 then 0 else s.velocity)
            && MaxVelocity(v) == v + (if v > 100 then 100 else 0) && MinVelocity(v) == v - (if v > 100 then 100 else 0)
  {
  }

  lemma SecureHead(s: Sample, time: uint32)
    ensures Accepted(Packet(SecureFields(s, time, SECURE_LENGTH)))
  {
    var fs := SecureFields(s, time, SECURE_LENGTH);
    SecureShape(s, time, SECURE_LENGTH);
    SplitHeader(SECURE_TYPE, SECURE_LENGTH, time, fs, fs[4..]);
    hide Widths, Body, Packet, Accepted, SecureFields, HeaderFields;
    PacketIsAccepted(Field(1, SECURE_TYPE), SECURE_LENGTH, [Field(4, time)] + fs[4..]);
  }

  lemma SplitHeader(kind: byte, length: nat, time: uint32, fs: seq<Field>, rest: seq<Field>)
    requires fs == HeaderFields(kind, length, time) + rest
    ensures fs == [Field(1, HEAD), Field(1, kind), Field(2, length)] + ([Field(4, time)] + rest)
  {
  }

  lemma AccurateHead(s: Sample, time: uint32)
    ensures Accepted(Packet(AccurateFields(s, time, ACCURATE_LENGTH)))
  {
    var fs := AccurateFields(s, time, ACCURATE_LENGTH);
    AccurateShape(s, time, ACCURATE_LENGTH);
    SplitHeader(ACCURATE_TYPE, ACCURATE_LENGTH, time, fs, fs[4..]);
    hide Widths, Body, Packet, Accepted, AccurateFields, HeaderFields;
    PacketIsAccepted(Field(1, ACCURATE_TYPE), ACCURATE_LENGTH, [Field(4, time)] + fs[4..]);
  }

  lemma AccurateValues(s: Sample, time: uint32)
    ensures var v := Values(AccurateFields(s, time, ACCURATE_LENGTH));
            && |v| == 27
            && v[0] == HEAD && v[1] == ACCURATE_TYPE && v[2] == ACCURATE_LENGTH && v[3] == time
            && v[4] == Unsigned(s.position, 4) && v[5] == Clamped(s.velocity) && v[6] == Unsigned(s.acceleration, 2)
            && v[7] == v[13] == v[19] == s.timeMs * 1000
            && v[10] == Unsigned(s.count1, 4) && v[16] == Unsigned(s.count2, 4) && v[22] == Unsigned(s.count3, 4)
            && v[11] == WheelState([s.state1]) && v[17] == WheelState([s.state1, s.state2])
            && v[23] == WheelState([s.state1, s.state2, s.state3])
            && v[8] == v[14] == v[20] == WHEEL_DIAMETER && v[9] == v[15] == v[21] == TEETH
            && v[12] == v[18] == v[24] == v[25] == v[26] == 0
  {
    hide Unsigned, Clamped, WheelState;
  }

  /** The same for the accurate packet, with its three wheels. */
  lemma AccurateRoundTrip(s: Sample, time: uint32)
    ensures var p := Packet(AccurateFields(s, time, ACCURATE_LENGTH));
            var ws := [1, 1, 2, 4, 4, 4, 2, 8, 2, 2, 4, 1, 1, 8, 2, 2, 4, 1, 1, 8, 2, 2, 4, 1, 1, 1, 1];
            && |p| == 79 && p[78] == 0x03 && Accepted(p) && |p| >= Total(ws)
            && var v := ReadFields(p, ws);
               && |v| == 27
               && v[0] == 0x02 && v[1] == 0x39 && v[2] == 72 && v[3] == time
               && Signed(v[4], 4) == s.position && v[5] == (if s.velocity < 0 then 0 else s.velocity)
               && (Signed(v[6], 2) == s.acceleration <==> -0x8000 <= s.acceleration < 0x8000)
               && v[7] == v[13] == v[19] == s.timeMs * 1000
               && v[8] == v[14] == v[20] == 1050 && v[9] == v[15] == v[21] == 200
               && Signed(v[10], 4) == s.count1 && Signed(v[16], 4) == s.count2 && Signed(v[22], 4) == s.count3
               && v[11] == (if s.state1 == 0 then 1 else 0)
               && v[17] == (if s.state1 == 0 || s.state2 == 0 then 1 else 0)
               && v[23] == (if s.state1 == 0 || s.state2 == 0 || s.state3 == 0 then 1 else 0)
               && v[12] == v[18] == v[24] == v[25] == v[26] == 0
  {
    var fs := AccurateFields(s, time, ACCURATE_LENGTH);
    Pow256s();
    AccurateTotal();
    AccurateShape(s, time, ACCURATE_LENGTH);
    AccurateFieldsFit(s, time);
    AccurateValues(s, time);
    SecureBounds(s);
    PacketReadsBack(fs);
    SignedRoundTripIff(s.acceleration, 2);
    AccurateHead(s, time);
    WheelStates(s);
    AccurateWidths();
    hide *;
  }

  lemma AccurateWidths()
    ensures ACCURATE_WIDTHS == [1, 1, 2, 4, 4, 4, 2, 8, 2, 2, 4, 1, 1, 8, 2, 2, 4, 1, 1, 8, 2, 2, 4, 1, 1, 1, 1]
    ensures ACCURATE_LENGTH == 72 && HEAD == 0x02 && ACCURATE_TYPE == 0x39 && WHEEL_DIAMETER == 1050 && TEETH == 200
  {
  }

  lemma WheelStates(s: Sample)
    ensures WheelState([s.state1]) == (if s.state1 == 0 then 1 else 0)
    ensures WheelState([s.state1, s.state2]) == (if s.state1 == 0 || s.state2 == 0 then 1 else 0)
    ensures WheelState([s.state1, s.state2, s.state3])
         == (if s.state1 == 0 || s.state2 == 0 || s.state3 == 0 then 1 else 0)
  {
  }

  // ---- the assemblers ----

  // Each writes the field `fs[k]` after those before it.

  method AppendU8(dest: array<byte>, at: nat, value: byte, ghost fs: seq<Field>, ghost k: nat) returns (next: nat)
    requires at + 1 <= dest.Length && k < |fs| && dest[..at] == Body(fs[..k]) && fs[k] == Field(1, value)
    modifies dest
    ensures next == at + 1 && dest[..next] == Body(fs[..k + 1])
  {
    dest[at] := value;
    next := at + 1;
    assert Big(value, 1) == [value];
    BodyStep(fs, k);
    hide Body;
  }

  method AppendU16(dest: array<byte>, at: nat, value: nat, ghost fs: seq<Field>, ghost k: nat) returns (next: nat)
    requires at + 2 <= dest.Length && k < |fs| && dest[..at] == Body(fs[..k]) && fs[k] == Field(2, value)
            && value < 0x10000
    modifies dest
    ensures next == at + 2 && dest[..next] == Body(fs[..k + 1])
  {
    dest[at] := value / 0x100;
    dest[at + 1] := value % 0x100;
    next := at + 2;
    BigTwo(value);
    BodyStep(fs, k);
    hide Body, Big;
  }

  method AppendI16(dest: array<byte>, at: nat, value: int32, ghost fs: seq<Field>, ghost k: nat) returns (next: nat)
    requires at + 2 <= dest.Length && k < |fs| && dest[..at] == Body(fs[..k]) && fs[k] == Field(2, Unsigned(value, 2))
    modifies dest
    ensures next == at + 2 && dest[..next] == Body(fs[..k + 1])
  {
    Pow256s();
    hide Body;
    next := AppendU16(dest, at, value % 0x10000, fs, k);
  }

  method AppendU32(dest: array<byte>, at: nat, value: uint32, ghost fs: seq<Field>, ghost k: nat) returns (next: nat)
    requires at + 4 <= dest.Length && k < |fs| && dest[..at] == Body(fs[..k]) && fs[k] == Field(4, value)
    modifies dest
    ensures next == at + 4 && dest[..next] == Body(fs[..k + 1])
  {
    dest[at] := value / 0x100_0000 % 0x100;
    dest[at + 1] := value / 0x1_0000 % 0x100;
    dest[at + 2] := value / 0x100 % 0x100;
    dest[at + 3] := value % 0x100;
    next := at + 4;
    BigFour(value);
    BodyStep(fs, k);
    hide Body, Big;
    assert dest[..next] == old(dest[..at]) + Big(value, 4);
  }

  method AppendI32(dest: array<byte>, at: nat, value: int32, ghost fs: seq<Field>, ghost k: nat) returns (next: nat)
    requires at + 4 <= dest.Length && k < |fs| && dest[..at] == Body(fs[..k]) && fs[k] == Field(4, Unsigned(value, 4))
    modifies dest
    ensures next == at + 4 && dest[..next] == Body(fs[..k + 1])
  {
    Pow256s();
    hide Body;
    next := AppendU32(dest, at, value % 0x1_0000_0000, fs, k);
  }

  method AppendU64(dest: array<byte>, at: nat, value: nat, ghost fs: seq<Field>, ghost k: nat) returns (next: nat)
    requires at + 8 <= dest.Length && k < |fs| && dest[..at] == Body(fs[..k]) && fs[k] == Field(8, value)
            && value < 0x1_0000_0000_0000_0000
    modifies dest
    ensures next == at + 8 && dest[..next] == Body(fs[..k + 1])
  {
    hide Body, Big;
    ghost var before, high, low := fs[..k], value / 0x1_0000_0000, value % 0x1_0000_0000;
    ghost var halves := before + [Field(4, high), Field(4, low)];
    assert halves[..k] == before && halves[..k + 1] == before + [Field(4, high)] && halves[..k + 2] == halves;
    BodyStep(fs, k);
    BodyStep(halves, k);
    BodyStep(halves, k + 1);
    BigEight(value);
    next := AppendU32(dest, at, value / 0x1_0000_0000, halves, k);
    next := AppendU32(dest, next, value % 0x1_0000_0000, halves, k + 1);
    assert Body(before) + Big(high, 4) + Big(low, 4) == Body(before) + (Big(high, 4) + Big(low, 4));
  }

  method AppendI64(dest: array<byte>, at: nat, value: int, ghost fs: seq<Field>, ghost k: nat) returns (next: nat)
    requires at + 8 <= dest.Length && k < |fs| && dest[..at] == Body(fs[..k]) && fs[k] == Field(8, Unsigned(value, 8))
            && -0x8000_0000_0000_0000 <= value < 0x8000_0000_0000_0000
    modifies dest
    ensures next == at + 8 && dest[..next] == Body(fs[..k + 1])
  {
    Pow256s();
    hide Body;
    next := AppendU64(dest, at, value % 0x1_0000_0000_0000_0000, fs, k);
  }

  lemma BodyStep(fs: seq<Field>, k: nat)
    requires k < |fs|
    ensures Body(fs[..k + 1]) == Body(fs[..k]) + Big(fs[k].value, fs[k].width)
  {
    assert fs[..k + 1][..k] == fs[..k];
  }

  lemma BigTwo(value: nat)
    requires value < 0x10000
    ensures Big(value, 2) == [value / 0x100, value % 0x100]
  {
    assert Big(value / 0x100, 1) == [value / 0x100];
  }

  lemma BigFour(value: uint32)
    ensures Big(value, 4)
            == [value / 0x100_0000 % 0x100, value / 0x1_0000 % 0x100, value / 0x100 % 0x100, value % 0x100]
  {
    var h := value / 0x100;
    assert h / 0x100 == value / 0x1_0000 && h / 0x1_0000 == value / 0x100_0000;
    assert Big(value, 4) == Big(h, 3) + [value % 0x100];
    assert Big(h, 3) == Big(h / 0x100, 2) + [h % 0x100];
    BigTwo(h / 0x100);
  }

  lemma BigEight(value: nat)
    ensures Big(value, 8) == Big(value / 0x1_0000_0000, 4) + Big(value % 0x1_0000_0000, 4)
  {
    Pow256s();
    BigSplit(value, 4, 4, value / 0x1_0000_0000, value % 0x1_0000_0000);
  }

  /** A wide number is its high part followed by its low part. */
  lemma {:induction false} BigSplit(value: nat, high: nat, low: nat, q: nat, r: nat)
    requires value == q * Pow256(low) + r && r < Pow256(low)
    ensures Big(value, high + low) == Big(q, high) + Big(r, low)
    decreases low
  {
    if low != 0 {
      var m := Pow256(low - 1);
      assert Pow256(low) == 0x100 * m;
      hide Pow256;
      ShiftSplit(value, m, q, r);
      BigSplit(value / 0x100, high, low - 1, q, r / 0x100);
      assert Big(value, high + low) == Big(value / 0x100, high + low - 1) + [value % 0x100];
      assert Big(r, low) == Big(r / 0x100, low - 1) + [r % 0x100];
    }
  }

  lemma ShiftSplit(value: nat, m: nat, q: nat, r: nat)
    requires value == q * (0x100 * m) + r && r < 0x100 * m
    ensures value / 0x100 == q * m + r / 0x100 && r / 0x100 < m && value % 0x100 == r % 0x100
  {
    var k := q * m;
    assert q * (0x100 * m) == 0x100 * k;
  }

  method StoreU16(dest: array<byte>, at: nat, value: nat)
    requires at + 2 <= dest.Length && value < 0x10000
    modifies dest
    ensures dest[..] == old(dest[..at]) + Big(value, 2) + old(dest[at + 2..])
  {
    dest[at] := value / 0x100;
    dest[at + 1] := value % 0x100;
    BigTwo(value);
  }

  method StoreU32(dest: array<byte>, at: nat, value: bv32)
    requires at + 4 <= dest.Length
    modifies dest
    ensures dest[..] == old(dest[..at]) + CrcOctets(value) + old(dest[at + 4..])
  {
    hide Octet, Byte3, Byte2, Byte1, Byte0;
    dest[at] := Octet(Byte3(value));
    dest[at + 1] := Octet(Byte2(value));
    dest[at + 2] := Octet(Byte1(value));
    dest[at + 3] := Octet(Byte0(value));
  }

  /** A body whose length field is patched afterwards is the body with that length. */
  lemma PatchedLength(kind: Field, rest: seq<Field>, length: nat)
    requires kind.width == 1 && length < 0x10000
    ensures var body := Body([Field(1, HEAD), kind, Field(2, 0)] + rest);
            |body| >= 4 && Body([Field(1, HEAD), kind, Field(2, length)] + rest)
              == body[..2] + Big(length, 2) + body[4..]
  {
    Pow256s();
    BodyHead(Field(1, HEAD), kind, Field(2, 0), rest);
    BodyHead(Field(1, HEAD), kind, Field(2, length), rest);
    hide Body, Big, Pow256;
  }

  lemma PatchedPrefix(was: seq<byte>, now: seq<byte>, n: nat, x: seq<byte>)
    requires |x| == 2 && 4 <= n <= |was| && now == was[..2] + x + was[4..]
    ensures now[..n] == was[..n][..2] + x + was[..n][4..]
  {
  }

  /** The end of both assemblers: room for the checksum, the tail, then the length and the checksum patched in. */
  method Seal(output: array<byte>, crcAddr: nat, ghost kind: Field, ghost rest: seq<Field>) returns (packet: seq<byte>)
    requires kind.width == 1 && 4 <= crcAddr <= output.Length - 5 && output.Length <= 0x10000
    requires output[..crcAddr] == Body([Field(1, HEAD), kind, Field(2, 0)] + rest)
    modifies output
    ensures packet == Packet([Field(1, HEAD), kind, Field(2, crcAddr - 2)] + rest)
  {
    hide Body, Divide, CrcOctets, Big;
    ghost var body := output[..crcAddr];
    output[crcAddr + 4] := TAIL;
    var dataLen := crcAddr - 2;
    ghost var was := output[..];
    assert was[..crcAddr] == body;
    StoreU16(output, 2, dataLen);
    PatchedLength(kind, rest, dataLen);
    PatchedPrefix(was, output[..], crcAddr, Big(dataLen, 2));
    ghost var covered := output[..dataLen + 2];
    var crc := Crc32(output[..dataLen + 2]);
    StoreU32(output, crcAddr, crc);
    packet := output[..dataLen + 7];
    assert packet == covered + CrcOctets(crc) + [TAIL];
  }

  method AssembleSecure(s: Sample, time: uint32) returns (packet: seq<byte>)
    ensures packet == Packet(SecureFields(s, time, SECURE_LENGTH))
  {
    hide Body, Unsigned, Packet, MaxPosition, MinPosition, MaxVelocity, MinVelocity;
    SecureInRange(s);
    var velocity := Clamped(s.velocity);
    var output := new byte[PACKET_BUFFER](_ => 0);
    ghost var fs := SecureFields(s, time, 0);
    EmptyBody();
    assert output[..0] == Body(fs[..0]);
    var at := AppendHeader(output, SECURE_TYPE, time, fs);
    at := AppendI64(output, at, s.position, fs, 4);
    at := AppendI64(output, at, MaxPosition(s.position), fs, 5);
    at := AppendI64(output, at, MinPosition(s.position), fs, 6);
    at := AppendU32(output, at, velocity, fs, 7);
    at := AppendU32(output, at, MaxVelocity(velocity), fs, 8);
    at := AppendU32(output, at, MinVelocity(velocity), fs, 9);
    at := AppendI16(output, at, s.acceleration, fs, 10);
    at := AppendU8(output, at, s.direction, fs, 11);
    at := AppendU8(output, at, s.motion, fs, 12);
    SplitHeader(SECURE_TYPE, 0, time, fs, fs[4..]);
    SplitHeader(SECURE_TYPE, SECURE_LENGTH, time, SecureFields(s, time, SECURE_LENGTH), fs[4..]);
    assert fs[..13] == fs;
    packet := Seal(output, at, Field(1, SECURE_TYPE), [Field(4, time)] + fs[4..]);
  }

  method AssembleAccurate(s: Sample, time: uint32) returns (packet: seq<byte>)
    ensures packet == Packet(AccurateFields(s, time, ACCURATE_LENGTH))
  {
    ghost var fs := AccurateFields(s, time, 0);
    AccurateLayout(s, time, 0);
    AccurateLayout(s, time, ACCURATE_LENGTH);
    SplitHeader(ACCURATE_TYPE, 0, time, fs, fs[4..]);
    SplitHeader(ACCURATE_TYPE, ACCURATE_LENGTH, time, AccurateFields(s, time, ACCURATE_LENGTH), fs[4..]);
    hide *;
    var output := new byte[PACKET_BUFFER](_ => 0);
    EmptyBody();
    assert output[..0] == Body(fs[..0]);
    var at := AppendHeader(output, ACCURATE_TYPE, time, fs);
    at := AppendEstimates(output, at, s, fs);
    at := AppendWheels(output, at, s, fs, time);
    at := AppendSensors(output, at, fs);
    packet := Seal(output, at, Field(1, ACCURATE_TYPE), [Field(4, time)] + fs[4..]);
  }

  method AppendSensors(output: array<byte>, at: nat, ghost fs: seq<Field>) returns (next: nat)
    requires at + 2 <= output.Length && |fs| == 27 && output[..at] == Body(fs[..25])
    requires fs[25] == Field(1, 0) && fs[26] == Field(1, 0)
    modifies output
    ensures next == at + 2 && output[..next] == Body(fs)
  {
    hide *;
    next := AppendU8(output, at, 0, fs, 25);
    next := AppendU8(output, next, 0, fs, 26);
    assert fs[..27] == fs;
  }

  method AppendEstimates(output: array<byte>, at: nat, s: Sample, ghost fs: seq<Field>) returns (next: nat)
    requires at + 10 <= output.Length && |fs| >= 7 && output[..at] == Body(fs[..4])
    requires fs[4] == Field(4, Unsigned(s.position, 4)) && fs[5] == Field(4, Clamped(s.velocity))
    requires fs[6] == Field(2, Unsigned(s.acceleration, 2))
    modifies output
    ensures next == at + 10 && output[..next] == Body(fs[..7])
  {
    hide *;
    next := AppendI32(output, at, s.position, fs, 4);
    next := AppendU32(output, next, Clamped(s.velocity), fs, 5);
    next := AppendI16(output, next, s.acceleration, fs, 6);
  }

  lemma AccurateCount(s: Sample, time: uint32, length: nat)
    ensures |AccurateFields(s, time, length)| == 27
  {
    AccurateLayout(s, time, length);
  }

  lemma AccurateLayout(s: Sample, time: uint32, length: nat)
    ensures var fs := AccurateFields(s, time, length);
            && |fs| == 27 && fs == HeaderFields(ACCURATE_TYPE, length, time) + fs[4..]
            && fs[4..] == AccurateFields(s, time, 0)[4..]
            && fs[4] == Field(4, Unsigned(s.position, 4)) && fs[5] == Field(4, Clamped(s.velocity))
            && fs[6] == Field(2, Unsigned(s.acceleration, 2))
            && fs[25] == Field(1, 0) && fs[26] == Field(1, 0)
  {
    hide Unsigned, WheelState, Clamped;
    WheelFieldsSize();
    hide WheelFields;
  }

  method AppendHeader(output: array<byte>, kind: byte, time: uint32, ghost fs: seq<Field>) returns (at: nat)
    requires output.Length == PACKET_BUFFER && output[..0] == Body(fs[..0])
    requires |fs| >= 4 && fs == HeaderFields(kind, 0, time) + fs[4..]
    modifies output
    ensures at == 8 && output[..8] == Body(fs[..4])
  {
    hide Body;
    assert fs[0] == Field(1, HEAD) && fs[1] == Field(1, kind) && fs[2] == Field(2, 0) && fs[3] == Field(4, time);
    at := AppendU8(output, 0, HEAD, fs, 0);
    at := AppendU8(output, at, kind, fs, 1);
    at := AppendU16(output, at, 0, fs, 2);
    at := AppendU32(output, at, time, fs, 3);
  }

  /** The loop over the three wheels. */
  method AppendWheels(output: array<byte>, at: nat, s: Sample, ghost fs: seq<Field>, ghost time: uint32)
    returns (next: nat)
    requires at + 54 <= output.Length && fs == AccurateFields(s, time, 0) && output[..at] == Body(fs[..7])
    modifies output
    ensures next == at + 54 && output[..next] == Body(fs[..25])
  {
    AccurateCount(s, time, 0);
    hide *;
    var states, counts := [s.state1, s.state2, s.state3], [s.count1, s.count2, s.count3];
    var cumulative: byte, index := 0, 0;
    next := at;
    NoWheelYet();
    while index < 3
      invariant 0 <= index <= 3 && |fs| == 27 && next == at + 18 * index && output[..next] == Body(fs[..7 + 6 * index])
      invariant cumulative == WheelState(states[..index])
    {
      NextWheelState(states, index);
      WheelsInOrder(s, time, 0, index);
      assert 13 + 6 * index == 7 + 6 * index + 6;
      if states[index] == 0 {
        cumulative := 1;
      }
      next := AppendWheel(output, next, s.timeMs, counts[index], cumulative, fs, 7 + 6 * index);
      index := index + 1;
    }
  }

  method AppendWheel(dest: array<byte>, at: nat, timeMs: uint32, count: int32, state: byte, ghost fs: seq<Field>,
      ghost k: nat)
    returns (next: nat)
    requires at + 18 <= dest.Length && k + 6 <= |fs| && dest[..at] == Body(fs[..k])
    requires fs[k..k + 6] == WheelFields(timeMs, count, state)
    modifies dest
    ensures next == at + 18 && dest[..next] == Body(fs[..k + 6])
  {
    hide Body, Unsigned;
    ghost var wheel := fs[k..k + 6];
    assert wheel[0] == fs[k] && wheel[1] == fs[k + 1] && wheel[2] == fs[k + 2];
    assert wheel[3] == fs[k + 3] && wheel[4] == fs[k + 4] && wheel[5] == fs[k + 5];
    next := AppendU64(dest, at, timeMs * 1000, fs, k);
    next := AppendU16(dest, next, WHEEL_DIAMETER, fs, k + 1);
    next := AppendU16(dest, next, TEETH, fs, k + 2);
    next := AppendI32(dest, next, count, fs, k + 3);
    next := AppendU8(dest, next, state, fs, k + 4);
    next := AppendU8(dest, next, 0, fs, k + 5);
  }

  lemma NoWheelYet()
    ensures forall states: seq<byte> :: WheelState(states[..0]) == 0
  {
  }

  lemma WheelsInOrder(s: Sample, time: uint32, length: nat, index: nat)
    requires index < 3
    ensures var fs, states, counts := AccurateFields(s, time, length), [s.state1, s.state2, s.state3],
            [s.count1, s.count2, s.count3];
            && |fs| == 27
            && fs[7 + 6 * index..13 + 6 * index]
               == WheelFields(s.timeMs, counts[index], WheelState(states[..index + 1]))
  {
    hide WheelState, Unsigned, Clamped;
    var states := [s.state1, s.state2, s.state3];
    assert states[..1] == [s.state1] && states[..2] == [s.state1, s.state2] && states[..3] == states;
    WheelFieldsSize();
    hide WheelFields;
  }

  lemma WheelFieldsSize()
    ensures forall timeMs, count, state :: |WheelFields(timeMs, count, state)| == 6
  {
  }

  lemma NextWheelState(states: seq<byte>, index: nat)
    requires index < |states|
    ensures WheelState(states[..index + 1]) == if states[index] == 0 then 1 else WheelState(states[..index])
  {
    assert states[..index + 1] == states[..index] + [states[index]];
  }

  lemma EmptyBody()
    ensures Body([]) == []
  {
  }

  lemma SecureInRange(s: Sample)
    ensures var v := Clamped(s.velocity);
            MaxVelocity(v) < 0x1_0000_0000 && MinVelocity(v) < 0x1_0000_0000
    ensures -0x8000_0000_0000_0000 <= MinPosition(s.position) <= MaxPosition(s.position) < 0x8000_0000_0000_0000
  {
  }
}
