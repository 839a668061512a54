/** The maintenance session: frames are found in a message, and their data is sent octet-stuffed. */
module MaintenanceSession {
  import opened Wrappers
  import opened Bytes

  const START: byte := 0x7E
  const END: byte := 0x7F
  const ESCAPE: byte := 0x7D
  const ESCAPED_START: byte := 0x5E
  const ESCAPED_ESCAPE: byte := 0x5D
  const MAX_MESSAGE := 1200
  const MINIMUM_FRAME := 7
  const CRC_SIZE := 2

  // ---- octet stuffing ----

  function StuffOctet(v: byte): (s: seq<byte>) {
    if v == START then [ESCAPE, ESCAPED_START]
    else if v == ESCAPE then [ESCAPE, ESCAPED_ESCAPE]
    else [v]
  }

  function Stuff(data: seq<byte>): (s: seq<byte>)
    decreases |data|
  {
    if data == [] then [] else Stuff(data[..|data| - 1]) + StuffOctet(data[|data| - 1])
  }

  /** What goes on the line for one data field. */
  function Packet(data: seq<byte>): (p: seq<byte>) {
    [START] + Stuff(data) + [START]
  }

  /** The receiver's reading of a stuffed body; none if it is not one. */
  function Unstuff(s: seq<byte>): (data: Option<seq<byte>>)
    decreases |s|
  {
    if s == [] then Some([])
    else if s[0] == START then None
    else if s[0] != ESCAPE then
      match Unstuff(s[1..]) case None => None case Some(d) => Some([s[0]] + d)
    else if |s| > 1 && s[1] == ESCAPED_START then
      match Unstuff(s[2..]) case None => None case Some(d) => Some([START] + d)
    else if |s| > 1 && s[1] == ESCAPED_ESCAPE then
      match Unstuff(s[2..]) case None => None case Some(d) => Some([ESCAPE] + d)
    else None
  }

  lemma {:induction false} StuffAppend(x: seq<byte>, y: seq<byte>)
    ensures Stuff(x + y) == Stuff(x) + Stuff(y)
    decreases |y|
  {
    hide StuffOctet;
    if y == [] {
      assert x + y == x;
    } else {
      assert (x + y)[..|x + y| - 1] == x + y[..|y| - 1];
      StuffAppend(x, y[..|y| - 1]);
    }
  }

  lemma StuffCons(v: byte, rest: seq<byte>)
    ensures Stuff([v] + rest) == StuffOctet(v) + Stuff(rest)
  {
    StuffAppend([v], rest);
    StuffOne(v);
    hide Stuff, StuffOctet;
  }

  lemma StuffOne(v: byte)
    ensures Stuff([v]) == StuffOctet(v)
  {
    hide StuffOctet;
    assert [v][..0] == [];
  }

  lemma UnstuffCons(v: byte, s: seq<byte>)
    ensures Unstuff(StuffOctet(v) + s) == match Unstuff(s) case None => None case Some(d) => Some([v] + d)
  {
    var w := StuffOctet(v) + s;
    if v == START || v == ESCAPE {
      assert w[2..] == s;
    } else {
      assert w[1..] == s;
    }
  }

  /** On the line: two octets for each of the two that are escaped, one for every other, and a delimiter at
      either end. */
  lemma OctetsOnTheLine(v: byte, data: seq<byte>)
    ensures Stuff([0x7E]) == [0x7D, 0x5E] && Stuff([0x7D]) == [0x7D, 0x5D]
    ensures v != 0x7E && v != 0x7D ==> Stuff([v]) == [v]
    ensures Packet(data) == [0x7E] + Stuff(data) + [0x7E]
  {
    StuffOne(0x7E);
    StuffOne(0x7D);
    StuffOne(v);
    hide Stuff;
  }

  /** Stuffing undoes: every octet string comes back. */
  lemma {:induction false} StuffRoundTrip(data: seq<byte>)
    ensures Unstuff(Stuff(data)) == Some(data)
    decreases |data|
  {
    if data != [] {
      assert data == [data[0]] + data[1..];
      StuffCons(data[0], data[1..]);
      UnstuffCons(data[0], Stuff(data[1..]));
      StuffRoundTrip(data[1..]);
    }
  }

  /** The delimiter never appears in a body, and a body is at most twice its data. */
  lemma {:induction false} StuffedBody(data: seq<byte>)
    ensures START !in Stuff(data) && |data| <= |Stuff(data)| <= 2 * |data|
    decreases |data|
  {
    if data != [] { StuffedBody(data[..|data| - 1]); }
  }

  function LineOf(fields: seq<seq<byte>>): (line: seq<byte>) {
    if fields == [] then [] else Packet(fields[0]) + LineOf(fields[1..])
  }

  /** The receiver's reading of a whole line: bodies between pairs of delimiters. */
  function ReadLine(line: seq<byte>): (fields: Option<seq<seq<byte>>>)
    decreases |line|
  {
    if line == [] then Some([])
    else if line[0] != START then None
    else
      var k := NextStart(line[1..]);
      if k == |line| - 1 then None
      else
        match Unstuff(line[1..][..k])
        case None => None
        case Some(d) => match ReadLine(line[1..][k + 1..]) case None => None case Some(ds) => Some([d] + ds)
  }

  function NextStart(s: seq<byte>): (k: nat)
    ensures k <= |s| && START !in s[..k] && (k < |s| ==> s[k] == START)
  {
    if |s| == 0 || s[0] == START then 0 else 1 + NextStart(s[1..])
  }

  lemma NextStartIs(s: seq<byte>, k: nat)
    requires k < |s| && START !in s[..k] && s[k] == START
    ensures NextStart(s) == k
  {
  }

  lemma ReadOnePacket(data: seq<byte>, rest: seq<byte>)
    ensures ReadLine(Packet(data) + rest) ==
            match ReadLine(rest) case None => None case Some(ds) => Some([data] + ds)
  {
    hide Stuff, Unstuff;
    var body := Stuff(data);
    var line := Packet(data) + rest;
    assert line[1..] == body + ([START] + rest);
    StuffedBody(data);
    StuffRoundTrip(data);
    assert line[1..][..|body|] == body;
    NextStartIs(line[1..], |body|);
    assert line[1..][|body| + 1..] == rest;
  }

  /** Packets sent one after the other are read as the data fields they were made from. */
  lemma {:induction false} LineRoundTrip(fields: seq<seq<byte>>)
    ensures ReadLine(LineOf(fields)) == Some(fields)
  {
    if fields != [] {
      ReadOnePacket(fields[0], LineOf(fields[1..]));
      LineRoundTrip(fields[1..]);
      assert [fields[0]] + fields[1..] == fields;
    }
  }

  datatype Result = Ok | InvalidArgument | WouldBlock | NotConnected | SendFailed

  /** Write one octet, escaped if need be, at the cursor. */
  method PutStuffed(framed: array<byte>, at: nat, value: byte) returns (size: nat)
    requires at + 2 <= framed.Length
    modifies framed
    ensures size == at + |StuffOctet(value)|
    ensures framed[..size] == old(framed[..at]) + StuffOctet(value)
  {
    size := at;
    if value == START {
      framed[size] := ESCAPE;
      framed[size + 1] := ESCAPED_START;
      size := size + 2;
    } else if value == ESCAPE {
      framed[size] := ESCAPE;
      framed[size + 1] := ESCAPED_ESCAPE;
      size := size + 2;
    } else {
      framed[size] := value;
      size := size + 1;
    }
  }

  /** Stuff one data field into the fixed buffer and give the octets to the connection. */
  method FramePacket(data: seq<byte>) returns (sent: seq<byte>)
    requires 0 < |data| <= MAX_MESSAGE
    ensures sent == Packet(data)
  {
    hide StuffOctet;
    var framed := new byte[MAX_MESSAGE * 2 + 2](_ => 0);
    var size := 1;
    framed[0] := START;
    var index := 0;
    while index < |data|
      invariant 0 <= index <= |data|
      invariant 1 <= size <= 1 + 2 * index
      invariant framed[..size] == [START] + Stuff(data[..index])
    {
      StuffedBody(data[..index + 1]);
      StuffSnoc(data, index);
      ghost var body := Stuff(data[..index]);
      size := PutStuffed(framed, size, data[index]);
      assert [START] + body + StuffOctet(data[index]) == [START] + (body + StuffOctet(data[index]));
      assert size == 1 + |Stuff(data[..index + 1])|;
      index := index + 1;
    }
    assert data[..index] == data;
    framed[size] := START;
    size := size + 1;
    sent := framed[..size];
  }

  lemma StuffSnoc(data: seq<byte>, i: nat)
    requires i < |data|
    ensures Stuff(data[..i + 1]) == Stuff(data[..i]) + StuffOctet(data[i])
  {
    assert data[..i + 1][..i] == data[..i];
  }

  // ---- scanning ----

  /** The data length in a frame's field, as a sixteen-bit value.  The subtraction is made on the low
      octet before the high octet is added, so it goes wrong when the low octet is less than two. */
  function DataLength(high: byte, low: byte): (n: nat)
    ensures n < 0x10000
  {
    if low >= 2 then high as int * 0x100 + (low - 2) else 0xFFFE + low
  }

  /** Scanning from `i`: the data fields found, in order, and whether the message was acceptable. */
  datatype Scan = Scan(fields: seq<seq<byte>>, ok: bool)

  function ScanFrom(b: seq<byte>, i: nat): (s: Scan)
    requires i <= |b|
    decreases |b| - i
  {
    if i == |b| then Scan([], true)
    else if b[i] != START then ScanFrom(b, i + 1)
    else if |b| - i < MINIMUM_FRAME then Scan([], false)
    else
      var n := DataLength(b[i + 2], b[i + 3]);
      var end := i + 4 + n + CRC_SIZE;
      if end >= |b| || b[end] != END then Scan([], false)
      else
        var s := ScanFrom(b, end + 1);
        Scan((if n > 0 then [b[i + 4..i + 4 + n]] else []) + s.fields, s.ok)
  }

  /** One round of the scan. */
  lemma ScanRound(b: seq<byte>, i: nat)
    requires i < |b| && b[i] == START && |b| - i >= MINIMUM_FRAME
    ensures var n := DataLength(b[i + 2], b[i + 3]);
            var end := i + 4 + n + CRC_SIZE;
            if end >= |b| || b[end] != END then ScanFrom(b, i) == Scan([], false)
            else
              var s := ScanFrom(b, end + 1);
              if n == 0 then ScanFrom(b, i) == s
              else ScanFrom(b, i) == Scan([b[i + 4..i + 4 + n]] + s.fields, s.ok)
  {
  }

  // ---- scanning undoes an encoder ----

  datatype Item = Gap(octets: seq<byte>) | DataFrame(address: byte, data: seq<byte>, crc1: byte, crc2: byte)

  /** A gap holds no frame start; a frame's length field holds its data length plus two. */
  predicate Valid(item: Item) {
    match item
    case Gap(g) => START !in g
    case DataFrame(_, data, _, _) => |data| + 2 < 0x10000
  }

  function Encode(item: Item): (b: seq<byte>)
    requires Valid(item)
  {
    match item
    case Gap(g) => g
    case DataFrame(address, data, crc1, crc2) =>
      var field := |data| + 2;
      [START, address, field / 0x100, field % 0x100] + data + [crc1, crc2, END]
  }

  ghost predicate AllValid(items: seq<Item>) {
    forall item :: item in items ==> Valid(item)
  }

  ghost function EncodeAll(items: seq<Item>): (b: seq<byte>)
    requires AllValid(items)
  {
    if items == [] then [] else assert items[0] in items; Encode(items[0]) + EncodeAll(items[1..])
  }

  /** The frames whose length the scanner computes rightly. */
  predicate Scannable(item: Item) {
    item.DataFrame? ==> (|item.data| + 2) % 0x100 >= 2
  }

  /** The data fields up to the first frame whose length is computed wrongly. */
  function Expected(items: seq<Item>): (s: Scan) {
    if items == [] then Scan([], true)
    else if !Scannable(items[0]) then Scan([], false)
    else
      var s := Expected(items[1..]);
      Scan(OwnField(items[0]) + s.fields, s.ok)
  }

  lemma {:induction false} SkipGap(b: seq<byte>, i: nat, n: nat)
    requires i + n <= |b| && START !in b[i..i + n]
    ensures ScanFrom(b, i) == ScanFrom(b, i + n)
    decreases n
  {
    if n > 0 {
      assert b[i..i + n][0] == b[i] && b[i..i + n][1..] == b[i + 1..i + n];
      SkipGap(b, i + 1, n - 1);
    }
  }

  lemma GapAt(b: seq<byte>, i: nat, g: seq<byte>, rest: seq<byte>)
    requires i <= |b| && b[i..] == g + rest
    ensures i + |g| <= |b| && b[i..i + |g|] == g && b[i + |g|..] == rest
  {
    assert b[i..i + |g|] == b[i..][..|g|];
    assert b[i + |g|..] == b[i..][|g|..];
  }

  lemma FrameAt(b: seq<byte>, i: nat, f: Item, rest: seq<byte>)
    requires f.DataFrame? && Valid(f) && i <= |b| <= MAX_MESSAGE && b[i..] == Encode(f) + rest
    ensures i < |b| && b[i] == START && |b| - i >= MINIMUM_FRAME
    ensures var n := DataLength(b[i + 2], b[i + 3]);
            if Scannable(f) then
              var end := i + 4 + n + CRC_SIZE;
              n == |f.data| && end < |b| && b[end] == END && b[i + 4..i + 4 + n] == f.data && b[end + 1..] == rest
            else n >= |b|
  {
    var w := Encode(f);
    var n := |f.data|;
    assert |w| == n + 7;
    forall k | 0 <= k < |w| ensures b[i + k] == w[k] { assert b[i..][k] == w[k]; }
    assert b[i + 4 + n + 2] == END;
    assert b[i + 4..i + 4 + n] == f.data;
    assert b[i + n + 7..] == b[i..][n + 7..] == rest;
  }

  /** What one item contributes. */
  function OwnField(item: Item): (fields: seq<seq<byte>>) {
    if item.DataFrame? && item.data != [] then [item.data] else []
  }

  /** Scanning one item: it is passed as a whole, or the message is rejected there. */
  lemma ScanItem(b: seq<byte>, i: nat, item: Item, rest: seq<byte>)
    requires Valid(item) && i <= |b| <= MAX_MESSAGE && b[i..] == Encode(item) + rest
    ensures if !Scannable(item) then ScanFrom(b, i) == Scan([], false)
            else
              var j := i + |Encode(item)|;
              && j <= |b| && b[j..] == rest
              && ScanFrom(b, i) == Scan(OwnField(item) + ScanFrom(b, j).fields, ScanFrom(b, j).ok)
  {
    if item.Gap? {
      hide ScanFrom;
      GapAt(b, i, item.octets, rest);
      SkipGap(b, i, |item.octets|);
      assert [] + ScanFrom(b, i + |item.octets|).fields == ScanFrom(b, i + |item.octets|).fields;
    } else {
      ScanFrame(b, i, item, rest);
    }
  }

  lemma ScanFrame(b: seq<byte>, i: nat, f: Item, rest: seq<byte>)
    requires f.DataFrame? && Valid(f) && i <= |b| <= MAX_MESSAGE && b[i..] == Encode(f) + rest
    ensures if !Scannable(f) then ScanFrom(b, i) == Scan([], false)
            else
              var j := i + |Encode(f)|;
              && j <= |b| && b[j..] == rest
              && ScanFrom(b, i) == Scan(OwnField(f) + ScanFrom(b, j).fields, ScanFrom(b, j).ok)
  {
    FrameAt(b, i, f, rest);
    ScanRound(b, i);
    assert |Encode(f)| == 7 + |f.data|;
    assert OwnField(f) == if f.data == [] then [] else [f.data];
    hide *;
    if Scannable(f) {
      var s := ScanFrom(b, i + 7 + |f.data|);
      assert [] + s.fields == s.fields;
      assert Scan(s.fields, s.ok) == s;
    }
  }

  /** Scanning inverts the encoder: it finds exactly the non-empty data fields, in order, up to the first
      frame whose length field has a low octet below two, where the message is rejected. */
  lemma {:induction false} ScanInverts(b: seq<byte>, i: nat, items: seq<Item>)
    requires AllValid(items) && i <= |b| <= MAX_MESSAGE && b[i..] == EncodeAll(items)
    ensures ScanFrom(b, i) == Expected(items)
    decreases |items|
  {
    if items == [] {
      assert i == |b|;
    } else {
      hide ScanFrom, Encode, Scannable, OwnField, Valid;
      assert items[0] in items;
      ScanItem(b, i, items[0], EncodeAll(items[1..]));
      if Scannable(items[0]) { ScanInverts(b, i + |Encode(items[0])|, items[1..]); }
    }
  }

  function DataFields(items: seq<Item>): (fields: seq<seq<byte>>) {
    if items == [] then []
    else OwnField(items[0]) + DataFields(items[1..])
  }

  lemma {:induction false} ExpectedOk(items: seq<Item>)
    ensures Expected(items).ok <==> forall i :: 0 <= i < |items| ==> Scannable(items[i])
    ensures Expected(items).ok ==> Expected(items).fields == DataFields(items)
  {
    if items != [] {
      ExpectedOk(items[1..]);
      assert forall i :: 1 <= i < |items| ==> items[i] == items[1..][i - 1];
      assert forall i :: 0 <= i < |items| - 1 ==> items[1..][i] == items[i + 1];
    }
  }

  /** The scanner accepts a message of gaps and frames exactly if the low octet of every length field is at
      least two; and then it finds every non-empty data field. */
  lemma AcceptedIff(items: seq<Item>)
    requires AllValid(items) && |EncodeAll(items)| <= MAX_MESSAGE
    ensures var s := ScanFrom(EncodeAll(items), 0);
            && (s.ok <==> forall i :: 0 <= i < |items| ==> Scannable(items[i]))
            && (s.ok ==> s.fields == DataFields(items))
  {
    var b := EncodeAll(items);
    assert b[0..] == b;
    ScanInverts(b, 0, items);
    ExpectedOk(items);
  }

  /** What the scanner accepts from `i` on is made of gaps and frames, and it finds their data. */
  lemma {:induction false} AcceptedIsMadeOf(b: seq<byte>, i: nat) returns (items: seq<Item>)
    requires i <= |b| <= MAX_MESSAGE && ScanFrom(b, i).ok
    ensures AllValid(items) && EncodeAll(items) == b[i..] && forall k :: 0 <= k < |items| ==> Scannable(items[k])
    decreases |b| - i
  {
    if i == |b| {
      items := [];
      return;
    }
    var first := AcceptedFirst(b, i);
    hide *;
    var j := i + |Encode(first)|;
    var rest := AcceptedIsMadeOf(b, j);
    items := [first] + rest;
    assert items[1..] == rest;
    MadeOfFirst(first, rest);
    assert b[i..] == b[i..j] + b[j..];
  }

  lemma MadeOfFirst(first: Item, rest: seq<Item>)
    requires Valid(first) && Scannable(first) && AllValid(rest) && forall k :: 0 <= k < |rest| ==> Scannable(rest[k])
    ensures var items := [first] + rest;
            && AllValid(items) && EncodeAll(items) == Encode(first) + EncodeAll(rest)
            && forall k :: 0 <= k < |items| ==> Scannable(items[k])
  {
    hide Encode, Scannable, Valid;
    assert ([first] + rest)[1..] == rest;
  }

  lemma AcceptedFirst(b: seq<byte>, i: nat) returns (f: Item)
    requires i < |b| <= MAX_MESSAGE && ScanFrom(b, i).ok
    ensures Valid(f) && Scannable(f)
    ensures var j := i + |Encode(f)|;
            i < j <= |b| && b[i..j] == Encode(f) && ScanFrom(b, j).ok
  {
    if b[i] != START {
      f := Gap([b[i]]);
    } else {
      f := AcceptedFrame(b, i);
    }
  }

  lemma AcceptedFrame(b: seq<byte>, i: nat) returns (f: Item)
    requires i < |b| <= MAX_MESSAGE && b[i] == START && ScanFrom(b, i).ok
    ensures f.DataFrame? && Valid(f) && Scannable(f)
    ensures var j := i + |Encode(f)|;
            j <= |b| && b[i..j] == Encode(f) && ScanFrom(b, j).ok
  {
    var high, low := b[i + 2], b[i + 3];
    var n := DataLength(high, low);
    ScanRound(b, i);
    hide ScanFrom;
    FieldOf(high, low);
    var data := b[i + 4..i + 4 + n];
    f := DataFrame(b[i + 1], data, b[i + 4 + n], b[i + 5 + n]);
    assert Encode(f) == [START, b[i + 1], high, low] + data + [b[i + 4 + n], b[i + 5 + n], END];
  }

  lemma FieldOf(high: byte, low: byte)
    ensures var n := DataLength(high, low);
            n <= MAX_MESSAGE ==> (n + 2) / 0x100 == high && (n + 2) % 0x100 == low && low >= 2
  {
  }

  /** A message is accepted if and only if it is made of gaps without a start octet and frames whose length
      field, at least two in its low octet, is the size of their data and two; and then what is found are
      the non-empty data fields, in order. */
  lemma AcceptsExactly(b: seq<byte>)
    requires |b| <= MAX_MESSAGE
    ensures ScanFrom(b, 0).ok <==> exists items: seq<Item> ::
              AllValid(items) && EncodeAll(items) == b && forall k :: 0 <= k < |items| ==> Scannable(items[k])
    ensures forall items: seq<Item> :: AllValid(items) && EncodeAll(items) == b && ScanFrom(b, 0).ok ==>
              ScanFrom(b, 0).fields == DataFields(items)
  {
    forall items: seq<Item> | AllValid(items) && EncodeAll(items) == b
      ensures ScanFrom(b, 0).ok <==> forall k :: 0 <= k < |items| ==> Scannable(items[k])
      ensures ScanFrom(b, 0).ok ==> ScanFrom(b, 0).fields == DataFields(items)
    {
      AcceptedIff(items);
    }
    hide ScanFrom, EncodeAll, AllValid, Scannable;
    if ScanFrom(b, 0).ok {
      var items := AcceptedIsMadeOf(b, 0);
      assert b[0..] == b;
    }
  }

  lemma EncodeAllHead(items: seq<Item>)
    requires AllValid(items) && items != []
    ensures Valid(items[0]) && AllValid(items[1..]) && EncodeAll(items) == Encode(items[0]) + EncodeAll(items[1..])
  {
    hide Encode, Valid;
    assert items[0] in items;
  }

  ghost predicate AllScannable(items: seq<Item>) {
    forall k :: 0 <= k < |items| ==> Scannable(items[k])
  }

  lemma ScannableTail(items: seq<Item>)
    requires AllScannable(items) && items != []
    ensures Scannable(items[0]) && AllScannable(items[1..])
  {
    hide Scannable;
  }

  /** Behind scannable items the scan goes on with what follows them. */
  lemma {:induction false} ScanReaches(b: seq<byte>, i: nat, items: seq<Item>, rest: seq<byte>)
    requires AllValid(items) && AllScannable(items) && i <= |b| <= MAX_MESSAGE && b[i..] == EncodeAll(items) + rest
    ensures |rest| <= |b| && b[|b| - |rest|..] == rest && ScanFrom(b, i).ok == ScanFrom(b, |b| - |rest|).ok
    decreases |items|
  {
    if items == [] {
      assert EncodeAll(items) + rest == rest;
    } else {
      EncodeAllHead(items);
      ScannableTail(items);
      hide *;
      Reassociate(Encode(items[0]), EncodeAll(items[1..]), rest);
      var j := ScanOne(b, i, items[0], EncodeAll(items[1..]) + rest);
      ScanReaches(b, j, items[1..], rest);
    }
  }

  lemma ScanOne(b: seq<byte>, i: nat, item: Item, more: seq<byte>) returns (j: nat)
    requires Valid(item) && Scannable(item) && i <= |b| <= MAX_MESSAGE && b[i..] == Encode(item) + more
    ensures j <= |b| && b[j..] == more && ScanFrom(b, i).ok == ScanFrom(b, j).ok
  {
    hide *;
    j := i + |Encode(item)|;
    ScanItem(b, i, item, more);
  }

  lemma Reassociate(x: seq<byte>, y: seq<byte>, z: seq<byte>)
    ensures x + y + z == x + (y + z)
  {
  }

  /** A message that ends in a start octet with fewer than six behind it is refused. */
  lemma TruncatedIsRefused(items: seq<Item>, rest: seq<byte>, answers: nat -> Result)
    requires AllValid(items) && AllScannable(items)
    requires 0 < |rest| < 7 && rest[0] == 0x7E && |EncodeAll(items)| + |rest| <= MAX_MESSAGE
    ensures var b := EncodeAll(items) + rest;
            !ScanFrom(b, 0).ok && Handled(b, false, true, answers).result != Ok
  {
    var b := EncodeAll(items) + rest;
    assert b[0..] == b;
    ScanReaches(b, 0, items, rest);
    assert b[|b| - |rest|] == rest[0];
    assert !ScanFrom(b, |b| - |rest|).ok;
    hide ScanFrom, EncodeAll, Deliver;
    RefusedIsNotOk(ScanFrom(b, 0), answers, 0);
  }

  lemma {:induction false} RefusedIsNotOk(s: Scan, answers: nat -> Result, k: nat)
    requires !s.ok
    ensures Deliver(s, answers, k).result != Ok
    decreases |s.fields|
  {
    if s.fields != [] && answers(k) == Ok {
      RefusedIsNotOk(Scan(s.fields[1..], s.ok), answers, k + 1);
    }
  }

  /** A well-formed frame that is refused: 254 octets of data, so that the length field is 256. */
  lemma FrameRefused()
    ensures var f := DataFrame(0, Zeros(254), 0, 0);
            Valid(f) && !Scannable(f) && ScanFrom(Encode(f), 0) == Scan([], false)
  {
    var f := DataFrame(0, Zeros(254), 0, 0);
    var b := Encode(f);
    assert b[0..] == b + [];
    ScanItem(b, 0, f, []);
  }

  // ---- the session ----

  /** What handing over the fields found comes to: the packets given to the connection, up to the first
      it does not take, and the result. */
  datatype Delivery = Delivery(packets: seq<seq<byte>>, result: Result)

  function Deliver(s: Scan, answers: nat -> Result, k: nat): (d: Delivery)
    decreases |s.fields|
  {
    if s.fields == [] then Delivery([], if s.ok then Ok else InvalidArgument)
    else
      var p := Packet(s.fields[0]);
      if answers(k) != Ok then Delivery([p], answers(k))
      else
        var d := Deliver(Scan(s.fields[1..], s.ok), answers, k + 1);
        Delivery([p] + d.packets, d.result)
  }

  /** The whole delivery, when some packets have been taken and `s` is still to be handed over. */
  function Remaining(packets: seq<seq<byte>>, s: Scan, answers: nat -> Result): (d: Delivery) {
    var d := Deliver(s, answers, |packets|);
    Delivery(packets + d.packets, d.result)
  }

  lemma RemainingStep(packets: seq<seq<byte>>, f: seq<byte>, s: Scan, answers: nat -> Result)
    ensures Remaining(packets, Scan([f] + s.fields, s.ok), answers) ==
            if answers(|packets|) != Ok then Delivery(packets + [Packet(f)], answers(|packets|))
            else Remaining(packets + [Packet(f)], s, answers)
  {
    hide Packet;
    assert ([f] + s.fields)[1..] == s.fields;
    var d := Deliver(s, answers, |packets| + 1);
    assert packets + ([Packet(f)] + d.packets) == packets + [Packet(f)] + d.packets;
  }

  lemma RemainingNone(packets: seq<seq<byte>>, ok: bool, answers: nat -> Result)
    ensures Remaining(packets, Scan([], ok), answers) == Delivery(packets, if ok then Ok else InvalidArgument)
  {
  }

  /** What a session makes of a message.  `answers(k)` is what the connection says to the packet number `k`. */
  function Handled(buffer: seq<byte>, skip: bool, hasConnection: bool, answers: nat -> Result): (d: Delivery) {
    if skip then Delivery([], Ok)
    else if !hasConnection || |buffer| == 0 || |buffer| > MAX_MESSAGE then Delivery([], InvalidArgument)
    else Deliver(ScanFrom(buffer, 0), answers, 0)
  }

  /** Scan a message and send the data of its frames. */
  method Output(buffer: seq<byte>, skip: bool, hasConnection: bool, answers: nat -> Result)
    returns (result: Result, packets: seq<seq<byte>>)
    ensures Delivery(packets, result) == Handled(buffer, skip, hasConnection, answers)
  {
    if skip {
      return Ok, [];
    }
    if !hasConnection || |buffer| == 0 || |buffer| > MAX_MESSAGE {
      return InvalidArgument, [];
    }
    result, packets := ScanAndSend(buffer, answers);
    var d := Deliver(ScanFrom(buffer, 0), answers, 0);
    assert [] + d.packets == d.packets;
  }

  /** The scanning loop. */
  method ScanAndSend(buffer: seq<byte>, answers: nat -> Result) returns (result: Result, packets: seq<seq<byte>>)
    requires |buffer| <= MAX_MESSAGE
    ensures Delivery(packets, result) == Remaining([], ScanFrom(buffer, 0), answers)
  {
    hide DataLength, Remaining, Packet;
    packets := [];
    var index := 0;
    while index < |buffer|
      invariant 0 <= index <= |buffer|
      invariant Remaining(packets, ScanFrom(buffer, index), answers) == Remaining([], ScanFrom(buffer, 0), answers)
      decreases |buffer| - index
    {
      RemainingNone(packets, false, answers);
      if buffer[index] == START {
        if |buffer| - index < MINIMUM_FRAME {
          return InvalidArgument, packets;
        }
        ScanRound(buffer, index);
        var dataLength := DataLength(buffer[index + 2], buffer[index + 3]);
        var dataStart := index + 4;
        var frameEnd := dataStart + dataLength + CRC_SIZE;
        if frameEnd >= |buffer| {
          return InvalidArgument, packets;
        }
        if buffer[frameEnd] != END {
          return InvalidArgument, packets;
        }
        if dataLength > 0 {
          var data := buffer[dataStart..dataStart + dataLength];
          RemainingStep(packets, data, ScanFrom(buffer, frameEnd + 1), answers);
          var packet := FramePacket(data);
          var answer := answers(|packets|);
          packets := packets + [packet];
          if answer != Ok {
            return answer, packets;
          }
        }
        index := frameEnd + 1;
        continue;
      }
      index := index + 1;
    }
    RemainingNone(packets, true, answers);
    return Ok, packets;
  }

  /** With a connection that takes everything, sending a message of gaps and frames succeeds exactly if it
      has an octet and not more than allowed and the low octet of every length field is at least two. */
  lemma SendingSucceedsIff(items: seq<Item>, answers: nat -> Result)
    requires AllValid(items) && forall k :: answers(k) == Ok
    ensures var b := EncodeAll(items);
            Handled(b, false, true, answers).result == Ok
            <==> 0 < |b| <= MAX_MESSAGE && forall i :: 0 <= i < |items| ==> Scannable(items[i])
  {
    if |EncodeAll(items)| <= MAX_MESSAGE {
      AcceptedIff(items);
      hide ScanFrom, Deliver, EncodeAll, Scannable;
      DeliverAll(ScanFrom(EncodeAll(items), 0), answers, 0);
    }
  }

  /** A frame on the way in: 7E, an address, the size of the data and two, the data, two octets of checksum, 7F. */
  lemma FrameLayout(f: Item)
    requires f.DataFrame? && Valid(f)
    ensures var field := |f.data| + 2;
            Encode(f) == [0x7E, f.address, field / 256, field % 256] + f.data + [f.crc1, f.crc2, 0x7F]
  {
  }

  /** Skipped sessions take everything; others refuse what is empty, longer than 1200 octets or has nowhere to go. */
  lemma Guards(b: seq<byte>, hasConnection: bool, answers: nat -> Result)
    ensures Handled(b, true, hasConnection, answers) == Delivery([], Ok)
    ensures !hasConnection || |b| == 0 || |b| > 1200 ==>
              Handled(b, false, hasConnection, answers) == Delivery([], InvalidArgument)
    ensures 0 < |b| <= 1200 ==> Handled(b, false, true, answers) == Deliver(ScanFrom(b, 0), answers, 0)
  {
  }

  /** Packets go out in order up to the first the connection does not take, which is the last one tried and
      whose answer is the result; if it takes all, they are all sent and the scan decides. */
  lemma {:induction false} DeliveredUpTo(s: Scan, answers: nat -> Result, k: nat, n: nat)
    requires n <= |s.fields| && forall j :: k <= j < k + n ==> answers(j) == Ok
    ensures var d := Deliver(s, answers, k);
            && (n < |s.fields| && answers(k + n) != Ok ==> |d.packets| == n + 1 && d.result == answers(k + n))
            && (n == |s.fields| ==> |d.packets| == n && d.result == if s.ok then Ok else InvalidArgument)
            && n <= |d.packets| <= |s.fields|
            && forall j :: 0 <= j < |d.packets| ==> d.packets[j] == Packet(s.fields[j])
    decreases |s.fields|
  {
    hide Packet;
    if n > 0 {
      assert answers(k) == Ok;
    }
    if s.fields != [] && answers(k) == Ok {
      var d := Deliver(Scan(s.fields[1..], s.ok), answers, k + 1);
      DeliveredUpTo(Scan(s.fields[1..], s.ok), answers, k + 1, if n > 0 then n - 1 else 0);
      assert Deliver(s, answers, k).packets == [Packet(s.fields[0])] + d.packets;
    }
  }

  /** End to end: a message of gaps and scannable frames puts on the line what a receiver reads as
      exactly the non-empty data fields, in order. */
  lemma SentIsReadBack(items: seq<Item>, answers: nat -> Result)
    requires AllValid(items) && |EncodeAll(items)| <= MAX_MESSAGE
    requires forall i :: 0 <= i < |items| ==> Scannable(items[i])
    requires forall k :: answers(k) == Ok
    ensures var d := Deliver(ScanFrom(EncodeAll(items), 0), answers, 0);
            d.result == Ok && ReadLine(Flatten(d.packets)) == Some(DataFields(items))
  {
    AcceptedIff(items);
    DeliverAll(ScanFrom(EncodeAll(items), 0), answers, 0);
    LineRoundTrip(DataFields(items));
  }

  lemma {:induction false} DeliverAll(s: Scan, answers: nat -> Result, k: nat)
    requires forall k :: answers(k) == Ok
    ensures Flatten(Deliver(s, answers, k).packets) == LineOf(s.fields)
    ensures Deliver(s, answers, k).result == if s.ok then Ok else InvalidArgument
    decreases |s.fields|
  {
    hide Packet;
    if s.fields != [] {
      DeliverAll(Scan(s.fields[1..], s.ok), answers, k + 1);
      var d := Deliver(Scan(s.fields[1..], s.ok), answers, k + 1);
      assert ([Packet(s.fields[0])] + d.packets)[1..] == d.packets;
    }
  }
}
