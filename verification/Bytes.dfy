/** Octets, octet strings and the fixed-width integer encodings shared by the other modules. */
module Bytes {
  type byte = x: int | 0 <= x < 0x100

  function Zeros(n: nat): (z: seq<byte>)
    ensures |z| == n && forall i :: 0 <= i < n ==> z[i] == 0
  {
    seq(n, _ => 0)
  }

  /** The concatenation of a list of lists. */
  function Flatten<T>(parts: seq<seq<T>>): (whole: seq<T>)
  {
    if parts == [] then [] else parts[0] + Flatten(parts[1..])
  }

  lemma {:induction false} FlattenAppend<T>(xs: seq<seq<T>>, ys: seq<seq<T>>)
    ensures Flatten(xs + ys) == Flatten(xs) + Flatten(ys)
  {
    if xs == [] {
      assert xs + ys == ys;
    } else {
      assert (xs + ys)[1..] == xs[1..] + ys;
      FlattenAppend(xs[1..], ys);
    }
  }

  lemma FlattenSnoc<T>(xs: seq<seq<T>>, y: seq<T>)
    ensures Flatten(xs + [y]) == Flatten(xs) + y
  {
    FlattenAppend(xs, [y]);
    assert Flatten([y]) == y + Flatten<T>([]);
  }

  /** The big-endian value of an octet string. */
  function BigValue(b: seq<byte>): (v: nat)
  {
    if b == [] then 0 else BigValue(b[..|b| - 1]) * 0x100 + b[|b| - 1]
  }

  /** The low `width` octets of `v`, most significant first. */
  function Big(v: nat, width: nat): (b: seq<byte>)
    ensures |b| == width
  {
    if width == 0 then [] else Big(v / 0x100, width - 1) + [v % 0x100]
  }

  /** The low `width` octets of `v`, least significant first. */
  function Little(v: nat, width: nat): (b: seq<byte>)
    ensures |b| == width
  {
    if width == 0 then [] else [v % 0x100] + Little(v / 0x100, width - 1)
  }

  function LittleValue(b: seq<byte>): (v: nat)
  {
    if b == [] then 0 else b[0] + 0x100 * LittleValue(b[1..])
  }

  function Pow256(n: nat): (p: nat)
    ensures p > 0
  {
    if n == 0 then 1 else 0x100 * Pow256(n - 1)
  }

  lemma {:induction false} BigRoundTrip(v: nat, width: nat)
    requires v < Pow256(width)
    ensures BigValue(Big(v, width)) == v
  {
    if width > 0 {
      BigRoundTrip(v / 0x100, width - 1);
      assert Big(v, width)[..width - 1] == Big(v / 0x100, width - 1);
    }
  }

  lemma {:induction false} LittleRoundTrip(v: nat, width: nat)
    requires v < Pow256(width)
    ensures LittleValue(Little(v, width)) == v
  {
    if width > 0 {
      LittleRoundTrip(v / 0x100, width - 1);
      assert Little(v, width)[1..] == Little(v / 0x100, width - 1);
    }
  }

  /** Two octets and their values in both orders. */
  lemma TwoOctetValues(a: byte, b: byte)
    ensures BigValue([a, b]) == a as int * 0x100 + b && LittleValue([a, b]) == b as int * 0x100 + a
  {
    assert [a][..0] == [];
    assert BigValue([a]) == a;
    assert [a, b][..1] == [a];
    assert [b][1..] == [];
    assert LittleValue([b]) == b;
    assert [a, b][1..] == [b];
  }

  /** The octets of a number in both orders. */
  lemma TwoOctetsOf(v: nat)
    requires v < 0x10000
    ensures Big(v, 2) == [v / 0x100, v % 0x100] && Little(v, 2) == [v % 0x100, v / 0x100]
  {
    var h := v / 0x100;
    OneOctetOf(h);
    assert Big(v, 2) == Big(h, 1) + [v % 0x100];
    assert Little(v, 2) == [v % 0x100] + Little(h, 1);
  }

  lemma OneOctetOf(v: nat)
    requires v < 0x100
    ensures Big(v, 1) == [v] && Little(v, 1) == [v]
  {
    assert v % 0x100 == v;
    assert Big(v / 0x100, 0) == [] && Little(v / 0x100, 0) == [];
  }

  lemma LittleFour(v: nat)
    requires v < 0x1_0000_0000
    ensures Little(v, 4) == Little(v % 0x10000, 2) + Little(v / 0x10000, 2)
  {
    var w := v / 0x100;
    assert Little(v, 4) == [v % 0x100] + Little(w, 3) && Little(w, 3) == [w % 0x100] + Little(w / 0x100, 2);
    assert w / 0x100 == v / 0x10000;
    TwoOctetsOf(v % 0x10000);
    assert v % 0x10000 / 0x100 == w % 0x100 && v % 0x10000 % 0x100 == v % 0x100;
  }

  /** For a value in a window of two periods, the remainder is one conditional subtraction. */
  lemma ModWindow(x: int, m: int)
    requires 0 <= x < 2 * m
    ensures x % m == if x < m then x else x - m
  {
    var q := x / m;
    assert x == q * m + x % m;
    if q <= 0 {
      MulMonotone(q, 0, m);
    } else if q >= 2 {
      MulMonotone(2, q, m);
    }
  }

  lemma MulMonotone(a: int, b: int, m: nat)
    requires a <= b
    ensures a * m <= b * m
  {
    assert (b - a) * m >= 0;
  }

  /** A plain copy between distinct buffers. */
  method CopyAt(dest: array<byte>, at: nat, data: seq<byte>)
    requires at + |data| <= dest.Length
    modifies dest
    ensures dest[..] == old(dest[..])[..at] + data + old(dest[..])[at + |data|..]
  {
    forall i | 0 <= i < |data| {
      dest[at + i] := data[i];
    }
  }
}
