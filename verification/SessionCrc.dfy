/** The session checksum: a table-driven CRC-32 with initial value zero and no final complement. */
module SessionCrc {
  import opened Bytes

  const POLYNOMIAL: bv32 := 0xEDB88320

  // ---- octets as bits ----

  predicate Odd(n: nat) {
    n % 2 == 1
  }

  function Pack(b7: bool, b6: bool, b5: bool, b4: bool, b3: bool, b2: bool, b1: bool, b0: bool): (x: bv8) {
    (if b7 then 0x80 else 0) | (if b6 then 0x40 else 0) | (if b5 then 0x20 else 0) | (if b4 then 0x10 else 0) |
    (if b3 then 0x08 else 0) | (if b2 then 0x04 else 0) | (if b1 then 0x02 else 0) | (if b0 then 0x01 else 0)
  }

  /** `n` halved `k` times. */
  function Halved(n: nat, k: nat): (h: nat) {
    if k == 0 then n else Halved(n, k - 1) / 2
  }

  /** An octet as eight bits. */
  function Bits(b: byte): (x: bv8) {
    Pack(Odd(Halved(b, 7)), Odd(Halved(b, 6)), Odd(Halved(b, 5)), Odd(Halved(b, 4)),
         Odd(Halved(b, 3)), Odd(Halved(b, 2)), Odd(Halved(b, 1)), Odd(Halved(b, 0)))
  }

  lemma PackInjective(a7: bool, a6: bool, a5: bool, a4: bool, a3: bool, a2: bool, a1: bool, a0: bool,
                      b7: bool, b6: bool, b5: bool, b4: bool, b3: bool, b2: bool, b1: bool, b0: bool)
    requires Pack(a7, a6, a5, a4, a3, a2, a1, a0) == Pack(b7, b6, b5, b4, b3, b2, b1, b0)
    ensures a7 == b7 && a6 == b6 && a5 == b5 && a4 == b4 && a3 == b3 && a2 == b2 && a1 == b1 && a0 == b0
  {
  }

  /** Equal from the `k`th bit up and with equal lower bits is equal. */
  lemma {:induction false} HalvedInjective(x: nat, y: nat, k: nat)
    requires Halved(x, k) == Halved(y, k)
    requires forall j :: 0 <= j < k ==> Odd(Halved(x, j)) == Odd(Halved(y, j))
    ensures x == y
  {
    if k > 0 {
      var h, g := Halved(x, k - 1), Halved(y, k - 1);
      assert Odd(h) == Odd(g);
      HalvedInjective(x, y, k - 1);
    }
  }

  lemma HalvedToZero(b: byte)
    ensures Halved(b, 8) == 0
  {
    assert Halved(b, 0) < 256;
    assert Halved(b, 1) < 128;
    assert Halved(b, 2) < 64;
    assert Halved(b, 3) < 32;
    assert Halved(b, 4) < 16;
    assert Halved(b, 5) < 8;
    assert Halved(b, 6) < 4;
    assert Halved(b, 7) < 2;
  }

  lemma BitsInjective(x: byte, y: byte)
    requires Bits(x) == Bits(y)
    ensures x == y
  {
    hide Pack, Odd, Halved;
    PackInjective(Odd(Halved(x, 7)), Odd(Halved(x, 6)), Odd(Halved(x, 5)), Odd(Halved(x, 4)),
                  Odd(Halved(x, 3)), Odd(Halved(x, 2)), Odd(Halved(x, 1)), Odd(Halved(x, 0)),
                  Odd(Halved(y, 7)), Odd(Halved(y, 6)), Odd(Halved(y, 5)), Odd(Halved(y, 4)),
                  Odd(Halved(y, 3)), Odd(Halved(y, 2)), Odd(Halved(y, 1)), Odd(Halved(y, 0)));
    HalvedToZero(x);
    HalvedToZero(y);
    HalvedInjective(x, y, 8);
  }

  // ---- the numbers that bits stand for ----

  /** Whether a bit of an octet is set. */
  function Bit(x: bv8, mask: bv8): (b: bool) {
    x & mask != 0
  }

  function Weight(b: bool, w: nat): (n: nat) {
    if b then w else 0
  }

  /** The value of eight bits: the sum of the powers of two whose bits are set. */
  function Octet(x: bv8): (b: byte) {
    Weight(Bit(x, 0x80), 0x80) + Weight(Bit(x, 0x40), 0x40) + Weight(Bit(x, 0x20), 0x20) + Weight(Bit(x, 0x10), 0x10) +
    Weight(Bit(x, 0x08), 0x08) + Weight(Bit(x, 0x04), 0x04) + Weight(Bit(x, 0x02), 0x02) + Weight(Bit(x, 0x01), 0x01)
  }

  lemma PackBits(b7: bool, b6: bool, b5: bool, b4: bool, b3: bool, b2: bool, b1: bool, b0: bool)
    ensures var x := Pack(b7, b6, b5, b4, b3, b2, b1, b0);
            && Bit(x, 0x80) == b7 && Bit(x, 0x40) == b6 && Bit(x, 0x20) == b5 && Bit(x, 0x10) == b4
            && Bit(x, 0x08) == b3 && Bit(x, 0x04) == b2 && Bit(x, 0x02) == b1 && Bit(x, 0x01) == b0
  {
  }

  lemma HalfAndOdd(n: nat, k: nat)
    ensures Halved(n, k) == 2 * Halved(n, k + 1) + Weight(Odd(Halved(n, k)), 1)
  {
  }

  lemma OddsAddUp(b: byte)
    ensures b == Weight(Odd(Halved(b, 7)), 0x80) + Weight(Odd(Halved(b, 6)), 0x40)
               + Weight(Odd(Halved(b, 5)), 0x20) + Weight(Odd(Halved(b, 4)), 0x10)
               + Weight(Odd(Halved(b, 3)), 0x08) + Weight(Odd(Halved(b, 2)), 0x04)
               + Weight(Odd(Halved(b, 1)), 0x02) + Weight(Odd(Halved(b, 0)), 0x01)
  {
    hide *;
    HalvedToZero(b);
    HalvedNone(b);
    FourHalves(b, 4);
    FourHalves(b, 0);
    SixteenTimes(Odd(Halved(b, 4)), Odd(Halved(b, 5)), Odd(Halved(b, 6)), Odd(Halved(b, 7)));
  }

  lemma HalvedNone(b: byte)
    ensures Halved(b, 0) == b
  {
  }

  lemma FourHalves(n: nat, k: nat)
    ensures Halved(n, k) == 16 * Halved(n, k + 4) + Weight(Odd(Halved(n, k + 3)), 8) + Weight(Odd(Halved(n, k + 2)), 4)
                            + Weight(Odd(Halved(n, k + 1)), 2) + Weight(Odd(Halved(n, k)), 1)
  {
    hide *;
    HalfAndOdd(n, k);
    HalfAndOdd(n, k + 1);
    HalfAndOdd(n, k + 2);
    HalfAndOdd(n, k + 3);
    FourBits(Halved(n, k), Halved(n, k + 1), Halved(n, k + 2), Halved(n, k + 3), Halved(n, k + 4),
             Odd(Halved(n, k)), Odd(Halved(n, k + 1)), Odd(Halved(n, k + 2)), Odd(Halved(n, k + 3)));
  }

  lemma FourBits(h0: nat, h1: nat, h2: nat, h3: nat, h4: nat, b0: bool, b1: bool, b2: bool, b3: bool)
    requires h0 == 2 * h1 + Weight(b0, 1) && h1 == 2 * h2 + Weight(b1, 1)
    requires h2 == 2 * h3 + Weight(b2, 1) && h3 == 2 * h4 + Weight(b3, 1)
    ensures h0 == 16 * h4 + Weight(b3, 8) + Weight(b2, 4) + Weight(b1, 2) + Weight(b0, 1)
  {
  }

  lemma SixteenTimes(b0: bool, b1: bool, b2: bool, b3: bool)
    ensures 16 * (Weight(b3, 8) + Weight(b2, 4) + Weight(b1, 2) + Weight(b0, 1))
         == Weight(b3, 0x80) + Weight(b2, 0x40) + Weight(b1, 0x20) + Weight(b0, 0x10)
  {
  }

  /** An octet and its bits are the same number. */
  lemma BitsAreTheNumber(b: byte)
    ensures Octet(Bits(b)) == b
  {
    hide Pack, Bit, Weight, Odd, Halved;
    PackBits(Odd(Halved(b, 7)), Odd(Halved(b, 6)), Odd(Halved(b, 5)), Odd(Halved(b, 4)),
             Odd(Halved(b, 3)), Odd(Halved(b, 2)), Odd(Halved(b, 1)), Odd(Halved(b, 0)));
    OddsAddUp(b);
  }

  lemma OctetInjective(x: bv8, y: bv8)
    requires Octet(x) == Octet(y)
    ensures x == y
  {
    OctetBits(x, y);
    SameBits(x, y);
  }

  lemma OctetBits(x: bv8, y: bv8)
    requires Octet(x) == Octet(y)
    ensures Bit(x, 0x80) == Bit(y, 0x80)
    ensures Bit(x, 0x40) == Bit(y, 0x40)
    ensures Bit(x, 0x20) == Bit(y, 0x20)
    ensures Bit(x, 0x10) == Bit(y, 0x10)
    ensures Bit(x, 0x08) == Bit(y, 0x08)
    ensures Bit(x, 0x04) == Bit(y, 0x04)
    ensures Bit(x, 0x02) == Bit(y, 0x02)
    ensures Bit(x, 0x01) == Bit(y, 0x01)
  {
    hide Bit, Weight;
    OctetBitsEqual(Bit(x, 0x80), Bit(x, 0x40), Bit(x, 0x20), Bit(x, 0x10),
                   Bit(x, 0x08), Bit(x, 0x04), Bit(x, 0x02), Bit(x, 0x01),
                   Bit(y, 0x80), Bit(y, 0x40), Bit(y, 0x20), Bit(y, 0x10),
                   Bit(y, 0x08), Bit(y, 0x04), Bit(y, 0x02), Bit(y, 0x01));
  }

  lemma OctetBitsEqual(a7: bool, a6: bool, a5: bool, a4: bool, a3: bool, a2: bool, a1: bool, a0: bool,
                       b7: bool, b6: bool, b5: bool, b4: bool, b3: bool, b2: bool, b1: bool, b0: bool)
    requires Weight(a7, 0x80) + Weight(a6, 0x40) + Weight(a5, 0x20) + Weight(a4, 0x10)
           + Weight(a3, 0x08) + Weight(a2, 0x04) + Weight(a1, 0x02) + Weight(a0, 0x01)
          == Weight(b7, 0x80) + Weight(b6, 0x40) + Weight(b5, 0x20) + Weight(b4, 0x10)
           + Weight(b3, 0x08) + Weight(b2, 0x04) + Weight(b1, 0x02) + Weight(b0, 0x01)
    ensures a7 == b7 && a6 == b6 && a5 == b5 && a4 == b4 && a3 == b3 && a2 == b2 && a1 == b1 && a0 == b0
  {
    assert a7 == b7;
    assert a6 == b6;
    assert a5 == b5;
    assert a4 == b4;
    assert a3 == b3;
  }

  lemma SameBits(x: bv8, y: bv8)
    requires Bit(x, 0x80) == Bit(y, 0x80)
    requires Bit(x, 0x40) == Bit(y, 0x40)
    requires Bit(x, 0x20) == Bit(y, 0x20)
    requires Bit(x, 0x10) == Bit(y, 0x10)
    requires Bit(x, 0x08) == Bit(y, 0x08)
    requires Bit(x, 0x04) == Bit(y, 0x04)
    requires Bit(x, 0x02) == Bit(y, 0x02)
    requires Bit(x, 0x01) == Bit(y, 0x01)
    ensures x == y
  {
  }

  // ---- the reference: reflected polynomial division, one bit at a time ----

  function Xor(c: bv32, d: bv32): (r: bv32) {
    c ^ d
  }

  function Halve(c: bv32): (r: bv32) {
    c >> 1
  }

  function LowBit(c: bv32): (b: bv32) {
    c & 1
  }

  /** The polynomial if a bit has been shifted out. */
  function Reduce(bit: bv32): (r: bv32) {
    if bit == 1 then POLYNOMIAL else 0
  }

  function DivideBit(c: bv32): (r: bv32) {
    Xor(Halve(c), Reduce(LowBit(c)))
  }

  function DivideOctet(c: bv32): (r: bv32) {
    DivideBit(DivideBit(DivideBit(DivideBit(DivideBit(DivideBit(DivideBit(DivideBit(c))))))))
  }

  function Widen(x: bv8): (w: bv32) {
    x as bv32
  }

  /** The state after one more octet. */
  function Absorb(c: bv32, b: byte): (r: bv32) {
    DivideOctet(Xor(c, Widen(Bits(b))))
  }

  /** The remainder of a whole message, starting from `c`. */
  function Divide(c: bv32, data: seq<byte>): (r: bv32)
    decreases |data|
  {
    if data == [] then c else Absorb(Divide(c, data[..|data| - 1]), data[|data| - 1])
  }

  // ---- division is linear ----

  lemma XorParts(c: bv32, d: bv32)
    ensures Halve(Xor(c, d)) == Xor(Halve(c), Halve(d))
    ensures LowBit(Xor(c, d)) == Xor(LowBit(c), LowBit(d))
  {
  }

  lemma LowBitIsBit(c: bv32)
    ensures LowBit(c) == 0 || LowBit(c) == 1
  {
  }

  lemma XorCommutes(c: bv32, d: bv32)
    ensures Xor(c, d) == Xor(d, c)
  {
  }

  lemma XorAssociates(c: bv32, d: bv32, e: bv32)
    ensures Xor(Xor(c, d), e) == Xor(c, Xor(d, e))
  {
  }

  lemma XorRegroup(c: bv32, d: bv32, r: bv32, t: bv32)
    ensures Xor(Xor(c, d), Xor(r, t)) == Xor(Xor(c, r), Xor(d, t))
  {
    hide Xor;
    XorAssociates(c, d, Xor(r, t));
    XorAssociates(d, r, t);
    XorCommutes(d, r);
    XorAssociates(r, d, t);
    XorAssociates(c, r, Xor(d, t));
  }

  lemma ReduceLinear(p: bv32, q: bv32)
    requires (p == 0 || p == 1) && (q == 0 || q == 1)
    ensures Reduce(Xor(p, q)) == Xor(Reduce(p), Reduce(q))
  {
  }

  lemma DivideBitLinear(c: bv32, d: bv32)
    ensures DivideBit(Xor(c, d)) == Xor(DivideBit(c), DivideBit(d))
  {
    hide Xor, Halve, LowBit, Reduce;
    XorParts(c, d);
    LowBitIsBit(c);
    LowBitIsBit(d);
    ReduceLinear(LowBit(c), LowBit(d));
    XorRegroup(Halve(c), Halve(d), Reduce(LowBit(c)), Reduce(LowBit(d)));
  }

  lemma DivideOctetLinear(c: bv32, d: bv32)
    ensures DivideOctet(Xor(c, d)) == Xor(DivideOctet(c), DivideOctet(d))
  {
    hide DivideBit, Xor;
    var c1, d1 := DivideBit(c), DivideBit(d);
    var c2, d2 := DivideBit(c1), DivideBit(d1);
    var c3, d3 := DivideBit(c2), DivideBit(d2);
    var c4, d4 := DivideBit(c3), DivideBit(d3);
    var c5, d5 := DivideBit(c4), DivideBit(d4);
    var c6, d6 := DivideBit(c5), DivideBit(d5);
    var c7, d7 := DivideBit(c6), DivideBit(d6);
    DivideBitLinear(c, d);
    DivideBitLinear(c1, d1);
    DivideBitLinear(c2, d2);
    DivideBitLinear(c3, d3);
    DivideBitLinear(c4, d4);
    DivideBitLinear(c5, d5);
    DivideBitLinear(c6, d6);
    DivideBitLinear(c7, d7);
  }

  // ---- the table ----

  /** One of the eight entries of a row of the table. */
  function Entry(i: bv8, e0: bv32, e1: bv32, e2: bv32, e3: bv32, e4: bv32, e5: bv32, e6: bv32, e7: bv32): (e: bv32) {
    match i & 7
    case 0 => e0 case 1 => e1 case 2 => e2 case 3 => e3
    case 4 => e4 case 5 => e5 case 6 => e6 case _ => e7
  }

  /** The table's entry for `i`, laid out eight to a row as in the source, in four quarters. */
  function Table(i: bv8): (e: bv32) {
    match i >> 6
    case 0 => Quarter0(i) case 1 => Quarter1(i) case 2 => Quarter2(i) case _ => Quarter3(i)
  }

  function Quarter0(i: bv8): (e: bv32) {
    match i >> 3
    case 0x00 => Entry(i, 0x00000000, 0x77073096, 0xEE0E612C, 0x990951BA,
                       0x076DC419, 0x706AF48F, 0xE963A535, 0x9E6495A3)
    case 0x01 => Entry(i, 0x0EDB8832, 0x79DCB8A4, 0xE0D5E91E, 0x97D2D988,
                       0x09B64C2B, 0x7EB17CBD, 0xE7B82D07, 0x90BF1D91)
    case 0x02 => Entry(i, 0x1DB71064, 0x6AB020F2, 0xF3B97148, 0x84BE41DE,
                       0x1ADAD47D, 0x6DDDE4EB, 0xF4D4B551, 0x83D385C7)
    case 0x03 => Entry(i, 0x136C9856, 0x646BA8C0, 0xFD62F97A, 0x8A65C9EC,
                       0x14015C4F, 0x63066CD9, 0xFA0F3D63, 0x8D080DF5)
    case 0x04 => Entry(i, 0x3B6E20C8, 0x4C69105E, 0xD56041E4, 0xA2677172,
                       0x3C03E4D1, 0x4B04D447, 0xD20D85FD, 0xA50AB56B)
    case 0x05 => Entry(i, 0x35B5A8FA, 0x42B2986C, 0xDBBBC9D6, 0xACBCF940,
                       0x32D86CE3, 0x45DF5C75, 0xDCD60DCF, 0xABD13D59)
    case 0x06 => Entry(i, 0x26D930AC, 0x51DE003A, 0xC8D75180, 0xBFD06116,
                       0x21B4F4B5, 0x56B3C423, 0xCFBA9599, 0xB8BDA50F)
    case _ => Entry(i, 0x2802B89E, 0x5F058808, 0xC60CD9B2, 0xB10BE924,
                       0x2F6F7C87, 0x58684C11, 0xC1611DAB, 0xB6662D3D)
  }

  function Quarter1(i: bv8): (e: bv32) {
    match i >> 3
    case 0x08 => Entry(i, 0x76DC4190, 0x01DB7106, 0x98D220BC, 0xEFD5102A,
                       0x71B18589, 0x06B6B51F, 0x9FBFE4A5, 0xE8B8D433)
    case 0x09 => Entry(i, 0x7807C9A2, 0x0F00F934, 0x9609A88E, 0xE10E9818,
                       0x7F6A0DBB, 0x086D3D2D, 0x91646C97, 0xE6635C01)
    case 0x0A => Entry(i, 0x6B6B51F4, 0x1C6C6162, 0x856530D8, 0xF262004E,
                       0x6C0695ED, 0x1B01A57B, 0x8208F4C1, 0xF50FC457)
    case 0x0B => Entry(i, 0x65B0D9C6, 0x12B7E950, 0x8BBEB8EA, 0xFCB9887C,
                       0x62DD1DDF, 0x15DA2D49, 0x8CD37CF3, 0xFBD44C65)
    case 0x0C => Entry(i, 0x4DB26158, 0x3AB551CE, 0xA3BC0074, 0xD4BB30E2,
                       0x4ADFA541, 0x3DD895D7, 0xA4D1C46D, 0xD3D6F4FB)
    case 0x0D => Entry(i, 0x4369E96A, 0x346ED9FC, 0xAD678846, 0xDA60B8D0,
                       0x44042D73, 0x33031DE5, 0xAA0A4C5F, 0xDD0D7CC9)
    case 0x0E => Entry(i, 0x5005713C, 0x270241AA, 0xBE0B1010, 0xC90C2086,
                       0x5768B525, 0x206F85B3, 0xB966D409, 0xCE61E49F)
    case _ => Entry(i, 0x5EDEF90E, 0x29D9C998, 0xB0D09822, 0xC7D7A8B4,
                       0x59B33D17, 0x2EB40D81, 0xB7BD5C3B, 0xC0BA6CAD)
  }

  function Quarter2(i: bv8): (e: bv32) {
    match i >> 3
    case 0x10 => Entry(i, 0xEDB88320, 0x9ABFB3B6, 0x03B6E20C, 0x74B1D29A,
                       0xEAD54739, 0x9DD277AF, 0x04DB2615, 0x73DC1683)
    case 0x11 => Entry(i, 0xE3630B12, 0x94643B84, 0x0D6D6A3E, 0x7A6A5AA8,
                       0xE40ECF0B, 0x9309FF9D, 0x0A00AE27, 0x7D079EB1)
    case 0x12 => Entry(i, 0xF00F9344, 0x8708A3D2, 0x1E01F268, 0x6906C2FE,
                       0xF762575D, 0x806567CB, 0x196C3671, 0x6E6B06E7)
    case 0x13 => Entry(i, 0xFED41B76, 0x89D32BE0, 0x10DA7A5A, 0x67DD4ACC,
                       0xF9B9DF6F, 0x8EBEEFF9, 0x17B7BE43, 0x60B08ED5)
    case 0x14 => Entry(i, 0xD6D6A3E8, 0xA1D1937E, 0x38D8C2C4, 0x4FDFF252,
                       0xD1BB67F1, 0xA6BC5767, 0x3FB506DD, 0x48B2364B)
    case 0x15 => Entry(i, 0xD80D2BDA, 0xAF0A1B4C, 0x36034AF6, 0x41047A60,
                       0xDF60EFC3, 0xA867DF55, 0x316E8EEF, 0x4669BE79)
    case 0x16 => Entry(i, 0xCB61B38C, 0xBC66831A, 0x256FD2A0, 0x5268E236,
                       0xCC0C7795, 0xBB0B4703, 0x220216B9, 0x5505262F)
    case _ => Entry(i, 0xC5BA3BBE, 0xB2BD0B28, 0x2BB45A92, 0x5CB36A04,
                       0xC2D7FFA7, 0xB5D0CF31, 0x2CD99E8B, 0x5BDEAE1D)
  }

  function Quarter3(i: bv8): (e: bv32) {
    match i >> 3
    case 0x18 => Entry(i, 0x9B64C2B0, 0xEC63F226, 0x756AA39C, 0x026D930A,
                       0x9C0906A9, 0xEB0E363F, 0x72076785, 0x05005713)
    case 0x19 => Entry(i, 0x95BF4A82, 0xE2B87A14, 0x7BB12BAE, 0x0CB61B38,
                       0x92D28E9B, 0xE5D5BE0D, 0x7CDCEFB7, 0x0BDBDF21)
    case 0x1A => Entry(i, 0x86D3D2D4, 0xF1D4E242, 0x68DDB3F8, 0x1FDA836E,
                       0x81BE16CD, 0xF6B9265B, 0x6FB077E1, 0x18B74777)
    case 0x1B => Entry(i, 0x88085AE6, 0xFF0F6A70, 0x66063BCA, 0x11010B5C,
                       0x8F659EFF, 0xF862AE69, 0x616BFFD3, 0x166CCF45)
    case 0x1C => Entry(i, 0xA00AE278, 0xD70DD2EE, 0x4E048354, 0x3903B3C2,
                       0xA7672661, 0xD06016F7, 0x4969474D, 0x3E6E77DB)
    case 0x1D => Entry(i, 0xAED16A4A, 0xD9D65ADC, 0x40DF0B66, 0x37D83BF0,
                       0xA9BCAE53, 0xDEBB9EC5, 0x47B2CF7F, 0x30B5FFE9)
    case 0x1E => Entry(i, 0xBDBDF21C, 0xCABAC28A, 0x53B39330, 0x24B4A3A6,
                       0xBAD03605, 0xCDD70693, 0x54DE5729, 0x23D967BF)
    case _ => Entry(i, 0xB3667A2E, 0xC4614AB8, 0x5D681B02, 0x2A6F2B94,
                       0xB40BBE37, 0xC30C8EA1, 0x5A05DF1B, 0x2D02EF8D)
  }

  /** What linearity makes of an entry: the entries of the powers of two in its index, added up. */
  function Combine(i: bv8): (e: bv32) {
    Xor(Term(i, 0x01, 0x77073096),
    Xor(Term(i, 0x02, 0xEE0E612C),
    Xor(Term(i, 0x04, 0x076DC419),
    Xor(Term(i, 0x08, 0x0EDB8832),
    Xor(Term(i, 0x10, 0x1DB71064),
    Xor(Term(i, 0x20, 0x3B6E20C8),
    Xor(Term(i, 0x40, 0x76DC4190),
    Term(i, 0x80, 0xEDB88320))))))))
  }

  function Term(i: bv8, w: bv8, e: bv32): (t: bv32) {
    if i & w != 0 then e else 0
  }

  lemma Quarter0Combines(i: bv8)
    requires i >> 6 == 0
    ensures Quarter0(i) == Combine(i)
  {
  }

  lemma Quarter1Combines(i: bv8)
    requires i >> 6 == 1
    ensures Quarter1(i) == Combine(i)
  {
  }

  lemma Quarter2Combines(i: bv8)
    requires i >> 6 == 2
    ensures Quarter2(i) == Combine(i)
  {
  }

  lemma Quarter3Combines(i: bv8)
    requires i >> 6 == 3
    ensures Quarter3(i) == Combine(i)
  {
  }

  lemma TableCombines(i: bv8)
    ensures Table(i) == Combine(i)
  {
    hide Quarter0, Quarter1, Quarter2, Quarter3, Combine;
    if i >> 6 == 0 { Quarter0Combines(i); }
    else if i >> 6 == 1 { Quarter1Combines(i); }
    else if i >> 6 == 2 { Quarter2Combines(i); }
    else { LastQuarter(i); Quarter3Combines(i); }
  }

  lemma LastQuarter(i: bv8)
    requires i >> 6 != 0 && i >> 6 != 1 && i >> 6 != 2
    ensures i >> 6 == 3
  {
  }

  function Power(i: bv8, w: bv8): (c: bv32) {
    if i & w != 0 then Widen(w) else 0
  }

  lemma WidenIsSum(i: bv8)
    ensures Widen(i) == Xor(Power(i, 0x01), Xor(Power(i, 0x02), Xor(Power(i, 0x04), Xor(Power(i, 0x08),
                        Xor(Power(i, 0x10), Xor(Power(i, 0x20), Xor(Power(i, 0x40), Power(i, 0x80))))))))
  {
  }

  lemma DivideBitZero()
    ensures DivideBit(0) == 0
  {
  }

  lemma DivideZero()
    ensures DivideOctet(0) == 0
  {
    DivideBitZero();
    hide DivideBit;
  }

  lemma DivideLowPowers()
    ensures DivideOctet(Widen(0x01)) == 0x77073096
    ensures DivideOctet(Widen(0x02)) == 0xEE0E612C
    ensures DivideOctet(Widen(0x04)) == 0x076DC419
    ensures DivideOctet(Widen(0x08)) == 0x0EDB8832
  {
    BitsBeforeOne();
    BitsAfterOne();
    assert Widen(0x01) == 1 && Widen(0x02) == 2 && Widen(0x04) == 4 && Widen(0x08) == 8;
    hide DivideBit, Widen;
  }

  lemma BitsBeforeOne()
    ensures DivideBit(8) == 4 && DivideBit(4) == 2 && DivideBit(2) == 1
  {
  }

  lemma BitsAfterOne()
    ensures DivideBit(0x00000001) == 0xEDB88320
    ensures DivideBit(0xEDB88320) == 0x76DC4190
    ensures DivideBit(0x76DC4190) == 0x3B6E20C8
    ensures DivideBit(0x3B6E20C8) == 0x1DB71064
    ensures DivideBit(0x1DB71064) == 0x0EDB8832
    ensures DivideBit(0x0EDB8832) == 0x076DC419
    ensures DivideBit(0x076DC419) == 0xEE0E612C
    ensures DivideBit(0xEE0E612C) == 0x77073096
  {
  }

  lemma DividePower10()
    ensures DivideOctet(0x10) == 0x1DB71064
  {
    assert DivideBit(0x10) == 0x08;
    assert DivideBit(0x08) == 0x04;
    assert DivideBit(0x04) == 0x02;
    assert DivideBit(0x02) == 0x01;
  }

  lemma DividePower20()
    ensures DivideOctet(0x20) == 0x3B6E20C8
  {
    assert DivideBit(0x20) == 0x10;
    assert DivideBit(0x10) == 0x08;
    assert DivideBit(0x08) == 0x04;
    assert DivideBit(0x04) == 0x02;
    assert DivideBit(0x02) == 0x01;
  }

  lemma DividePower40()
    ensures DivideOctet(0x40) == 0x76DC4190
  {
    assert DivideBit(0x40) == 0x20;
    assert DivideBit(0x20) == 0x10;
    assert DivideBit(0x10) == 0x08;
    assert DivideBit(0x08) == 0x04;
    assert DivideBit(0x04) == 0x02;
    assert DivideBit(0x02) == 0x01;
  }

  lemma DividePower80()
    ensures DivideOctet(0x80) == 0xEDB88320
  {
    assert DivideBit(0x80) == 0x40;
    assert DivideBit(0x40) == 0x20;
    assert DivideBit(0x20) == 0x10;
    assert DivideBit(0x10) == 0x08;
    assert DivideBit(0x08) == 0x04;
    assert DivideBit(0x04) == 0x02;
    assert DivideBit(0x02) == 0x01;
  }

  lemma DivideHighPowers()
    ensures DivideOctet(Widen(0x10)) == 0x1DB71064
    ensures DivideOctet(Widen(0x20)) == 0x3B6E20C8
    ensures DivideOctet(Widen(0x40)) == 0x76DC4190
    ensures DivideOctet(Widen(0x80)) == 0xEDB88320
  {
    DividePower10();
    DividePower20();
    DividePower40();
    DividePower80();
    hide DivideOctet;
  }

  lemma DividedPowers(i: bv8)
    ensures DivideOctet(Power(i, 0x01)) == Term(i, 0x01, 0x77073096)
    ensures DivideOctet(Power(i, 0x02)) == Term(i, 0x02, 0xEE0E612C)
    ensures DivideOctet(Power(i, 0x04)) == Term(i, 0x04, 0x076DC419)
    ensures DivideOctet(Power(i, 0x08)) == Term(i, 0x08, 0x0EDB8832)
    ensures DivideOctet(Power(i, 0x10)) == Term(i, 0x10, 0x1DB71064)
    ensures DivideOctet(Power(i, 0x20)) == Term(i, 0x20, 0x3B6E20C8)
    ensures DivideOctet(Power(i, 0x40)) == Term(i, 0x40, 0x76DC4190)
    ensures DivideOctet(Power(i, 0x80)) == Term(i, 0x80, 0xEDB88320)
  {
    DivideZero();
    DivideLowPowers();
    DivideHighPowers();
    hide DivideOctet, Widen;
  }

  lemma DivideOctetCombines(i: bv8)
    ensures DivideOctet(Widen(i)) == Combine(i)
  {
    WidenIsSum(i);
    hide DivideOctet, Xor;
    var s6 := Xor(Power(i, 0x40), Power(i, 0x80));
    var s5 := Xor(Power(i, 0x20), s6);
    var s4 := Xor(Power(i, 0x10), s5);
    var s3 := Xor(Power(i, 0x08), s4);
    var s2 := Xor(Power(i, 0x04), s3);
    var s1 := Xor(Power(i, 0x02), s2);
    DivideOctetLinear(Power(i, 0x40), Power(i, 0x80));
    DivideOctetLinear(Power(i, 0x20), s6);
    DivideOctetLinear(Power(i, 0x10), s5);
    DivideOctetLinear(Power(i, 0x08), s4);
    DivideOctetLinear(Power(i, 0x04), s3);
    DivideOctetLinear(Power(i, 0x02), s2);
    DivideOctetLinear(Power(i, 0x01), s1);
    DividedPowers(i);
    hide Power, Term;
  }

  /** The table is right: each of its 256 entries is the division of its index. */
  lemma TableIsDivision(i: bv8)
    ensures Table(i) == DivideOctet(Widen(i))
  {
    hide Table, DivideOctet, Combine;
    TableCombines(i);
    DivideOctetCombines(i);
  }

  function ShiftOctet(c: bv32): (r: bv32) {
    c >> 8
  }

  lemma EvenShifts(h: bv32, mask: bv32)
    requires h & mask == 0 && mask & 1 == 1
    ensures DivideBit(h) == Halve(h) && Halve(h) & (mask >> 1) == 0
  {
  }

  lemma EightHalves(h: bv32)
    ensures Halve(Halve(Halve(Halve(Halve(Halve(Halve(Halve(h)))))))) == ShiftOctet(h)
  {
  }

  lemma DivideShifted(h: bv32)
    requires h & 0xFF == 0
    ensures DivideOctet(h) == ShiftOctet(h)
  {
    EightHalves(h);
    hide DivideBit, Halve, ShiftOctet;
    EvenShifts(h, 0xFF);
    var h1 := Halve(h);
    EvenShifts(h1, 0x7F);
    var h2 := Halve(h1);
    EvenShifts(h2, 0x3F);
    var h3 := Halve(h2);
    EvenShifts(h3, 0x1F);
    var h4 := Halve(h3);
    EvenShifts(h4, 0x0F);
    var h5 := Halve(h4);
    EvenShifts(h5, 0x07);
    var h6 := Halve(h5);
    EvenShifts(h6, 0x03);
    var h7 := Halve(h6);
    EvenShifts(h7, 0x01);
  }

  function High(c: bv32): (h: bv32) {
    c & 0xFFFFFF00
  }

  function Low(c: bv32): (l: bv32) {
    c & 0xFF
  }

  lemma HighAndLow(c: bv32)
    ensures Xor(High(c), Low(c)) == c && High(c) & 0xFF == 0 && ShiftOctet(High(c)) == ShiftOctet(c)
  {
  }

  /** Dividing eight bits at once: the low octet through the division, the rest shifted down. */
  lemma DivideOctetSplits(c: bv32)
    ensures DivideOctet(c) == Xor(ShiftOctet(c), DivideOctet(Low(c)))
  {
    HighAndLow(c);
    DivideShifted(High(c));
    hide DivideOctet, Xor, High, Low, ShiftOctet;
    DivideOctetLinear(High(c), Low(c));
  }

  function Index(crc: bv32, x: bv8): (i: bv8) {
    Low(crc) as bv8 ^ x
  }

  /** One step of the table loop. */
  function TableStep(crc: bv32, x: bv8): (r: bv32) {
    Xor(ShiftOctet(crc), Table(Index(crc, x)))
  }

  lemma LowOctet(crc: bv32, x: bv8)
    ensures Widen(Index(crc, x)) == Low(Xor(crc, Widen(x)))
    ensures ShiftOctet(Xor(crc, Widen(x))) == ShiftOctet(crc)
  {
  }

  lemma TableStepIsDivision(crc: bv32, x: bv8)
    ensures TableStep(crc, x) == DivideOctet(Xor(crc, Widen(x)))
  {
    hide DivideOctet, Table, Widen, Index, Low, Xor, ShiftOctet;
    TableIsDivision(Index(crc, x));
    DivideOctetSplits(Xor(crc, Widen(x)));
    LowOctet(crc, x);
  }

  /** The loop body: the low octet picks the table entry, the rest is shifted down. */
  method NextCrc(crc: bv32, x: bv8) returns (next: bv32)
    ensures next == TableStep(crc, x)
  {
    hide Table;
    var dataByte := (crc % 256) as bv8;
    next := crc >> 8;
    assert dataByte ^ x == Index(crc, x);
    next := next ^ Table(dataByte ^ x);
  }

  /** The checksum of an octet string. */
  method Crc32(data: seq<byte>) returns (crc: bv32)
    requires |data| < 0x10000
    ensures crc == Divide(0, data)
  {
    hide DivideOctet, Bits, Widen, TableStep, Xor;
    crc := 0;
    var length, at := |data|, 0;
    while length != 0
      invariant 0 <= at <= |data| && at + length == |data|
      invariant crc == Divide(0, data[..at])
      decreases length
    {
      length := length - 1;
      assert data[..at + 1][..at] == data[..at];
      TableStepIsDivision(crc, Bits(data[at]));
      crc := NextCrc(crc, Bits(data[at]));
      at := at + 1;
    }
    assert data[..at] == data;
  }

  // ---- known checksums ----

  lemma OneStep(c: bv32, x: byte, bits: bv8)
    requires Octet(bits) == x
    ensures Absorb(c, x) == TableStep(c, bits)
  {
    BitsAreTheNumber(x);
    OctetInjective(Bits(x), bits);
    hide Bits, Widen, DivideOctet, TableStep;
    TableStepIsDivision(c, bits);
  }

  lemma DivideSnoc(c: bv32, data: seq<byte>, x: byte)
    ensures Divide(c, data + [x]) == Absorb(Divide(c, data), x)
  {
    assert (data + [x])[..|data|] == data;
    hide Absorb;
  }

  lemma SingleOctet(x: byte, bits: bv8)
    requires Octet(bits) == x
    ensures Divide(0, [x]) == Table(bits)
  {
    OneStep(0, x, bits);
    DivideSnoc(0, [], x);
    assert [] + [x] == [x];
    TableFromZero(bits);
    hide Absorb, TableStep, Table;
  }

  lemma TableFromZero(bits: bv8)
    ensures TableStep(0, bits) == Table(bits)
  {
    hide Table;
    ZeroIndex(bits);
  }

  lemma ZeroIndex(bits: bv8)
    ensures Index(0, bits) == bits && ShiftOctet(0) == 0
  {
  }

  /** The checksums of the single octets 1 and 128. */
  lemma ChecksumOfOneOctet()
    ensures Divide(0, [0x01]) == 0x77073096 && Divide(0, [0x80]) == 0xEDB88320
  {
    SingleOctet(0x01, 0x01);
    SingleOctet(0x80, 0x80);
    hide Divide;
  }

  lemma DivideThree(c: bv32, x: byte, y: byte, z: byte)
    ensures Divide(c, [x, y, z]) == Absorb(Absorb(Absorb(c, x), y), z)
  {
    DivideSnoc(c, [], x);
    DivideSnoc(c, [x], y);
    DivideSnoc(c, [x, y], z);
    assert [] + [x] == [x] && [x] + [y] == [x, y] && [x, y] + [z] == [x, y, z];
    assert Divide(c, []) == c;
    hide Absorb, Divide;
  }

  /** The checksum of the digits one to nine, in ASCII. */
  lemma ChecksumOfDigits()
    ensures Divide(0, [0x31, 0x32, 0x33, 0x34, 0x35, 0x36, 0x37, 0x38, 0x39]) == 0x2DFD2D88
  {
    var x, y, z := [0x31, 0x32, 0x33], [0x34, 0x35, 0x36], [0x37, 0x38, 0x39];
    assert [0x31, 0x32, 0x33, 0x34, 0x35, 0x36, 0x37, 0x38, 0x39] == x + y + z;
    hide Absorb, Divide;
    FirstDigits();
    MiddleDigits();
    LastDigits();
    DivideAppend(0, x + y, z);
    DivideAppend(0, x, y);
  }

  lemma FirstDigits()
    ensures Divide(0x00000000, [0x31, 0x32, 0x33]) == 0x7709BAC0
  {
    DigitStep1();
    DigitStep2();
    DigitStep3();
    hide *;
    DivideThree(0x00000000, 0x31, 0x32, 0x33);
  }

  lemma MiddleDigits()
    ensures Divide(0x7709BAC0, [0x34, 0x35, 0x36]) == 0xB8B072C2
  {
    DigitStep4();
    DigitStep5();
    DigitStep6();
    hide *;
    DivideThree(0x7709BAC0, 0x34, 0x35, 0x36);
  }

  lemma LastDigits()
    ensures Divide(0xB8B072C2, [0x37, 0x38, 0x39]) == 0x2DFD2D88
  {
    DigitStep7();
    DigitStep8();
    DigitStep9();
    hide *;
    DivideThree(0xB8B072C2, 0x37, 0x38, 0x39);
  }

  lemma DigitStep1()
    ensures Absorb(0x00000000, 0x31) == 0x51DE003A
  {
    assert TableStep(0x00000000, 0x31) == 0x51DE003A;
    DigitBits();
    hide *;
    OneStep(0x00000000, 0x31, 0x31);
  }

  lemma DigitStep2()
    ensures Absorb(0x51DE003A, 0x32) == 0x0E8A5632
  {
    assert TableStep(0x51DE003A, 0x32) == 0x0E8A5632;
    DigitBits();
    hide *;
    OneStep(0x51DE003A, 0x32, 0x32);
  }

  lemma DigitStep3()
    ensures Absorb(0x0E8A5632, 0x33) == 0x7709BAC0
  {
    assert TableStep(0x0E8A5632, 0x33) == 0x7709BAC0;
    DigitBits();
    hide *;
    OneStep(0x0E8A5632, 0x33, 0x33);
  }

  lemma DigitStep4()
    ensures Absorb(0x7709BAC0, 0x34) == 0xBAA73FBF
  {
    assert TableStep(0x7709BAC0, 0x34) == 0xBAA73FBF;
    DigitBits();
    hide *;
    OneStep(0x7709BAC0, 0x34, 0x34);
  }

  lemma DigitStep5()
    ensures Absorb(0xBAA73FBF, 0x35) == 0x0DD7CD01
  {
    assert TableStep(0xBAA73FBF, 0x35) == 0x0DD7CD01;
    DigitBits();
    hide *;
    OneStep(0xBAA73FBF, 0x35, 0x35);
  }

  lemma DigitStep6()
    ensures Absorb(0x0DD7CD01, 0x36) == 0xB8B072C2
  {
    assert TableStep(0x0DD7CD01, 0x36) == 0xB8B072C2;
    DigitBits();
    hide *;
    OneStep(0x0DD7CD01, 0x36, 0x36);
  }

  lemma DigitStep7()
    ensures Absorb(0xB8B072C2, 0x37) == 0xCD6FB6E1
  {
    assert TableStep(0xB8B072C2, 0x37) == 0xCD6FB6E1;
    DigitBits();
    hide *;
    OneStep(0xB8B072C2, 0x37, 0x37);
  }

  lemma DigitStep8()
    ensures Absorb(0xCD6FB6E1, 0x38) == 0xFFC205C6
  {
    assert TableStep(0xCD6FB6E1, 0x38) == 0xFFC205C6;
    DigitBits();
    hide *;
    OneStep(0xCD6FB6E1, 0x38, 0x38);
  }

  lemma DigitStep9()
    ensures Absorb(0xFFC205C6, 0x39) == 0x2DFD2D88
  {
    assert TableStep(0xFFC205C6, 0x39) == 0x2DFD2D88;
    DigitBits();
    hide *;
    OneStep(0xFFC205C6, 0x39, 0x39);
  }

  lemma DigitBits()
    ensures Octet(0x31) == 0x31 && Octet(0x32) == 0x32 && Octet(0x33) == 0x33
    ensures Octet(0x34) == 0x34 && Octet(0x35) == 0x35 && Octet(0x36) == 0x36
    ensures Octet(0x37) == 0x37 && Octet(0x38) == 0x38 && Octet(0x39) == 0x39
  {
  }

  // ---- error detection ----

  lemma DivideBitInjective(c: bv32, d: bv32)
    requires DivideBit(c) == DivideBit(d)
    ensures c == d
  {
  }

  lemma DivideOctetInjective(c: bv32, d: bv32)
    requires DivideOctet(c) == DivideOctet(d)
    ensures c == d
  {
    hide DivideBit;
    var c1, d1 := DivideBit(c), DivideBit(d);
    var c2, d2 := DivideBit(c1), DivideBit(d1);
    var c3, d3 := DivideBit(c2), DivideBit(d2);
    var c4, d4 := DivideBit(c3), DivideBit(d3);
    var c5, d5 := DivideBit(c4), DivideBit(d4);
    var c6, d6 := DivideBit(c5), DivideBit(d5);
    var c7, d7 := DivideBit(c6), DivideBit(d6);
    DivideBitInjective(c7, d7);
    DivideBitInjective(c6, d6);
    DivideBitInjective(c5, d5);
    DivideBitInjective(c4, d4);
    DivideBitInjective(c3, d3);
    DivideBitInjective(c2, d2);
    DivideBitInjective(c1, d1);
    DivideBitInjective(c, d);
  }

  lemma WidenInjective(x: bv8, y: bv8)
    requires Widen(x) == Widen(y)
    ensures x == y
  {
  }

  lemma XorLeft(c: bv32, x: bv32, y: bv32)
    requires Xor(c, x) == Xor(c, y)
    ensures x == y
  {
  }

  lemma XorRight(c: bv32, d: bv32, x: bv32)
    requires Xor(c, x) == Xor(d, x)
    ensures c == d
  {
  }

  /** For a fixed octet the step is injective in the state. */
  lemma AbsorbInjectiveInState(c: bv32, d: bv32, x: byte)
    requires Absorb(c, x) == Absorb(d, x)
    ensures c == d
  {
    hide DivideOctet, Widen, Bits, Xor;
    var w := Widen(Bits(x));
    DivideOctetInjective(Xor(c, w), Xor(d, w));
    XorRight(c, d, w);
  }

  /** For a fixed state the step is injective in the octet. */
  lemma AbsorbInjectiveInOctet(c: bv32, x: byte, y: byte)
    requires Absorb(c, x) == Absorb(c, y)
    ensures x == y
  {
    hide DivideOctet, Widen, Bits, Xor;
    var v, w := Widen(Bits(x)), Widen(Bits(y));
    DivideOctetInjective(Xor(c, v), Xor(c, w));
    XorLeft(c, v, w);
    WidenInjective(Bits(x), Bits(y));
    BitsInjective(x, y);
  }

  /** Different remainders stay different through any common continuation. */
  lemma {:induction false} DifferenceSurvives(c: bv32, d: bv32, data: seq<byte>)
    requires c != d
    ensures Divide(c, data) != Divide(d, data)
    decreases |data|
  {
    hide Absorb;
    if data != [] {
      var init, last := data[..|data| - 1], data[|data| - 1];
      DifferenceSurvives(c, d, init);
      if Divide(c, data) == Divide(d, data) {
        AbsorbInjectiveInState(Divide(c, init), Divide(d, init), last);
      }
    }
  }

  /** The division of a concatenation. */
  lemma {:induction false} DivideAppend(c: bv32, xs: seq<byte>, ys: seq<byte>)
    ensures Divide(c, xs + ys) == Divide(Divide(c, xs), ys)
    decreases |ys|
  {
    hide Absorb;
    if ys == [] {
      assert xs + ys == xs;
    } else {
      assert (xs + ys)[..|xs + ys| - 1] == xs + ys[..|ys| - 1];
      DivideAppend(c, xs, ys[..|ys| - 1]);
    }
  }

  lemma DivideAround(c: bv32, before: seq<byte>, x: byte, after: seq<byte>)
    ensures Divide(c, before + [x] + after) == Divide(Absorb(Divide(c, before), x), after)
  {
    hide Absorb;
    DivideAppend(c, before + [x], after);
    DivideAppend(c, before, [x]);
    assert [x][..0] == [];
  }

  /** Any two messages of equal length that differ in exactly one octet have different checksums. */
  lemma OneOctetIsDetected(data: seq<byte>, i: nat, x: byte)
    requires i < |data| && x != data[i]
    ensures Divide(0, data[i := x]) != Divide(0, data)
  {
    hide Absorb, Divide;
    var before, after := data[..i], data[i + 1..];
    assert data == before + [data[i]] + after;
    assert data[i := x] == before + [x] + after;
    var c := Divide(0, before);
    DivideAround(0, before, data[i], after);
    DivideAround(0, before, x, after);
    if Absorb(c, x) == Absorb(c, data[i]) {
      AbsorbInjectiveInOctet(c, x, data[i]);
    }
    DifferenceSurvives(Absorb(c, x), Absorb(c, data[i]), after);
  }

  // ---- bursts ----

  /** The bits above the lowest `n` octets. */
  function Above(n: nat): (mask: bv32) {
    match n
    case 0 => 0xFFFFFFFF
    case 1 => 0xFFFFFF00
    case 2 => 0xFFFF0000
    case 3 => 0xFF000000
    case _ => 0
  }

  predicate NoneOf(c: bv32, mask: bv32) {
    c & mask == 0
  }

  function Raise(mask: bv32): (m: bv32) {
    (mask << 1) | 1
  }

  /** The bit divided out shows as the highest bit of the remainder, so it can be read back. */
  lemma BackBit(c: bv32, mask: bv32)
    requires mask & 0x80000000 != 0 && NoneOf(DivideBit(c), mask)
    ensures NoneOf(c, Raise(mask))
  {
  }

  lemma BackTwo(c: bv32, mask: bv32)
    requires mask & 0xC0000000 == 0xC0000000 && NoneOf(DivideBit(DivideBit(c)), mask)
    ensures NoneOf(c, Raise(Raise(mask)))
  {
    var m := Raise(mask);
    assert mask & 0x80000000 != 0 && m & 0x80000000 != 0;
    hide DivideBit, NoneOf, Raise;
    BackBit(DivideBit(c), mask);
    BackBit(c, m);
  }

  lemma BackFour(c: bv32, mask: bv32)
    requires mask & 0xF0000000 == 0xF0000000 && NoneOf(DivideBit(DivideBit(DivideBit(DivideBit(c)))), mask)
    ensures NoneOf(c, Raise(Raise(Raise(Raise(mask)))))
  {
    var m := Raise(Raise(mask));
    assert mask & 0xC0000000 == 0xC0000000 && m & 0xC0000000 == 0xC0000000;
    hide DivideBit, NoneOf, Raise;
    BackTwo(DivideBit(DivideBit(c)), mask);
    BackTwo(c, m);
  }

  lemma RaiseEight(n: nat)
    requires n < 4
    ensures var m := Raise(Raise(Raise(Raise(Above(n)))));
            && Above(n) & 0xF0000000 == 0xF0000000 && m & 0xF0000000 == 0xF0000000
            && Raise(Raise(Raise(Raise(m)))) == Above(n + 1) | 0xFF
  {
  }

  lemma MaskParts(c: bv32, n: nat)
    requires NoneOf(c, Above(n) | 0xFF)
    ensures NoneOf(c, Above(n)) && Low(c) == 0
  {
  }

  /** If the remainder of an octet has only its lowest `n` octets, what was divided had one more, and its
      lowest was zero. */
  lemma BackOctet(c: bv32, n: nat)
    requires n < 4 && NoneOf(DivideOctet(c), Above(n))
    ensures NoneOf(c, Above(n + 1)) && Low(c) == 0
  {
    var m := Raise(Raise(Raise(Raise(Above(n)))));
    RaiseEight(n);
    BackFourTwice(c, Above(n), m);
    MaskParts(c, n + 1);
  }

  lemma BackFourTwice(c: bv32, mask: bv32, m: bv32)
    requires mask & 0xF0000000 == 0xF0000000 && m & 0xF0000000 == 0xF0000000
    requires m == Raise(Raise(Raise(Raise(mask)))) && NoneOf(DivideOctet(c), mask)
    ensures NoneOf(c, Raise(Raise(Raise(Raise(m)))))
  {
    hide DivideBit, NoneOf, Raise;
    BackFour(DivideBit(DivideBit(DivideBit(DivideBit(c)))), mask);
    BackFour(c, m);
  }

  /** A difference of octets does not reach above them. */
  lemma OctetDifference(d: bv32, v: bv8, w: bv8, n: nat)
    requires NoneOf(Xor(d, Xor(Widen(v), Widen(w))), Above(n + 1)) && Low(Xor(d, Xor(Widen(v), Widen(w)))) == 0
    ensures NoneOf(d, Above(n + 1))
    ensures d == 0 ==> v == w
  {
  }

  lemma XorSelf(c: bv32)
    ensures Xor(c, c) == 0
  {
  }

  lemma XorIsZero(c: bv32, d: bv32)
    requires c == d
    ensures NoneOf(Xor(c, d), Above(0))
  {
  }

  lemma AbsorbDifference(c: bv32, d: bv32, x: byte, y: byte)
    ensures Xor(Absorb(c, x), Absorb(d, y))
         == DivideOctet(Xor(Xor(c, d), Xor(Widen(Bits(x)), Widen(Bits(y)))))
  {
    hide DivideOctet, Bits, Widen, Xor;
    var v, w := Widen(Bits(x)), Widen(Bits(y));
    DivideOctetLinear(Xor(c, v), Xor(d, w));
    XorRegroup(c, d, v, w);
    XorRegroup(c, v, d, w);
  }

  lemma DivideFirst(c: bv32, x: byte, rest: seq<byte>)
    ensures Divide(c, [x] + rest) == Divide(Absorb(c, x), rest)
  {
    hide Absorb;
    DivideAround(c, [], x, rest);
    assert [] + [x] + rest == [x] + rest;
  }

  /** Up to four octets that lead to the same remainder: the states before them differ at most in as many
      low octets, and from the same state the octets are the same. */
  lemma {:induction false} FewOctetsAreDetermined(c: bv32, d: bv32, xs: seq<byte>, ys: seq<byte>)
    requires |xs| == |ys| <= 4 && Divide(c, xs) == Divide(d, ys)
    ensures NoneOf(Xor(c, d), Above(|xs|))
    ensures c == d ==> xs == ys
    decreases |xs|
  {
    XorSelf(c);
    if xs == [] {
      XorIsZero(c, d);
    } else {
      hide Divide, Absorb, Above, NoneOf, Xor, Widen, Bits, DivideOctet, Low;
      var x, y, n := xs[0], ys[0], |xs| - 1;
      assert xs == [x] + xs[1..] && ys == [y] + ys[1..];
      DivideFirst(c, x, xs[1..]);
      DivideFirst(d, y, ys[1..]);
      FewOctetsAreDetermined(Absorb(c, x), Absorb(d, y), xs[1..], ys[1..]);
      AbsorbDifference(c, d, x, y);
      BackOctet(Xor(Xor(c, d), Xor(Widen(Bits(x)), Widen(Bits(y)))), n);
      OctetDifference(Xor(c, d), Bits(x), Bits(y), n);
      if c == d {
        BitsInjective(x, y);
      }
    }
  }

  /** Any change confined to four consecutive octets changes the checksum. */
  lemma BurstIsDetected(before: seq<byte>, xs: seq<byte>, ys: seq<byte>, after: seq<byte>)
    requires |xs| == |ys| <= 4 && xs != ys
    ensures Divide(0, before + xs + after) != Divide(0, before + ys + after)
  {
    hide Absorb, Divide, NoneOf, Xor;
    var c := Divide(0, before);
    DivideAppend(0, before + xs, after);
    DivideAppend(0, before + ys, after);
    DivideAppend(0, before, xs);
    DivideAppend(0, before, ys);
    if Divide(c, xs) == Divide(c, ys) {
      FewOctetsAreDetermined(c, c, xs, ys);
    }
    DifferenceSurvives(Divide(c, xs), Divide(c, ys), after);
  }
}
