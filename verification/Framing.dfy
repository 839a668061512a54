/** TCP receive framing and send framing: what one extraction, and any run of extractions,
    makes of a byte stream. */
module Framing {
  import opened Bytes

  const MAGIC_FIRST: byte := 0x55
  const MAGIC_SECOND: byte := 0xAA
  const LINE_FEED: byte := 0x0A
  const CARRIAGE_RETURN: byte := 0x0D
  const DMI_MINIMUM_FRAME := 6
  const DMI_MAX_PAYLOAD := 249

  datatype Mode = Dmi | TwoByteBig | TwoByteLittle | Ndjson

  /** Waiting: nothing to deliver yet.  TooLong: a complete frame that the caller's buffer cannot hold. */
  datatype Outcome = Waiting | TooLong(length: nat) | Frame(bytes: seq<byte>)

  /** One extraction: its outcome and what it leaves in the receive buffer. */
  datatype Step = Step(outcome: Outcome, rest: seq<byte>)

  // ---- DMI ----

  predicate HasMagic(b: seq<byte>, i: nat) {
    i + 1 < |b| && b[i] == MAGIC_FIRST && b[i + 1] == MAGIC_SECOND
  }

  ghost predicate MagicFree(b: seq<byte>) {
    forall i: nat :: !HasMagic(b, i)
  }

  /** The first position with the magic, or the length if there is none. */
  function FindMagic(b: seq<byte>): (k: nat)
    ensures k <= |b|
    ensures k < |b| ==> HasMagic(b, k)
    ensures forall i: nat :: i < k ==> !HasMagic(b, i)
  {
    if |b| == 0 then 0
    else if HasMagic(b, 0) then 0
    else
      var t := FindMagic(b[1..]);
      assert forall i: nat :: 0 < i ==> (HasMagic(b, i) <==> HasMagic(b[1..], i - 1));
      1 + t
  }

  function DmiStep(b: seq<byte>, capacity: nat): (s: Step)
    ensures |s.rest| <= |b|
    ensures s.outcome.Frame? ==> |s.rest| < |b|
    decreases |b|
  {
    var c := b[FindMagic(b)..];
    if |c| < 4 then Step(Waiting, c)
    else if c[3] < DMI_MINIMUM_FRAME then DmiStep(c[2..], capacity)
    else if |c| < c[3] then Step(Waiting, c)
    else if c[3] > capacity then Step(TooLong(c[3]), c)
    else Step(Frame(c[..c[3]]), c[c[3]..])
  }

  /** One round of the scan, seen from its start: skip to the magic, then look at the length octet. */
  lemma DmiRound(b: seq<byte>, capacity: nat)
    ensures var c, s := b[FindMagic(b)..], DmiStep(b, capacity);
            if |c| < 4 then s == Step(Waiting, c)
            else if c[3] < DMI_MINIMUM_FRAME then s == DmiStep(c[2..], capacity)
            else if |c| < c[3] then s == Step(Waiting, c)
            else if c[3] > capacity then s == Step(TooLong(c[3]), c)
            else s == Step(Frame(c[..c[3]]), c[c[3]..])
  {
  }

  /** Scanning again from the magic makes no difference. */
  lemma DmiRestart(b: seq<byte>, capacity: nat)
    ensures DmiStep(b[FindMagic(b)..], capacity) == DmiStep(b, capacity)
  {
    var c := b[FindMagic(b)..];
    if c != [] {
      FindMagicAtZero(c);
    }
    assert c[0..] == c;
  }

  // ---- two-byte length ----

  function FieldLength(b: seq<byte>, big: bool): (n: nat)
    requires |b| >= 2
    ensures n < 0x10000
  {
    if big then b[0] as int * 0x100 + b[1] else b[1] as int * 0x100 + b[0]
  }

  function TwoByteStep(b: seq<byte>, capacity: nat, big: bool): (s: Step)
    ensures |s.rest| <= |b|
    ensures s.outcome.Frame? ==> |s.rest| < |b|
    decreases |b|
  {
    if |b| < 2 then Step(Waiting, b)
    else
      var n := FieldLength(b, big);
      if n == 0 then TwoByteStep(b[2..], capacity, big)
      else if |b| < 2 + n then Step(Waiting, b)
      else if n > capacity then Step(TooLong(n), b)
      else Step(Frame(b[2..2 + n]), b[2 + n..])
  }

  // ---- NDJSON ----

  lemma TwoByteRound(b: seq<byte>, capacity: nat, big: bool)
    ensures var s := TwoByteStep(b, capacity, big);
            if |b| < 2 then s == Step(Waiting, b)
            else
              var n := FieldLength(b, big);
              if n == 0 then s == TwoByteStep(b[2..], capacity, big)
              else if |b| < 2 + n then s == Step(Waiting, b)
              else if n > capacity then s == Step(TooLong(n), b)
              else s == Step(Frame(b[2..2 + n]), b[2 + n..])
  {
    hide FieldLength;
  }

  /** The first position of a line feed, or the length if there is none. */
  function FindNewline(b: seq<byte>): (k: nat)
    ensures k <= |b| && LINE_FEED !in b[..k]
    ensures k < |b| ==> b[k] == LINE_FEED
  {
    if |b| == 0 || b[0] == LINE_FEED then 0 else 1 + FindNewline(b[1..])
  }

  /** A line without one trailing carriage return. */
  function Chomp(line: seq<byte>): (l: seq<byte>) {
    if |line| > 0 && line[|line| - 1] == CARRIAGE_RETURN then line[..|line| - 1] else line
  }

  function NdjsonStep(b: seq<byte>, capacity: nat): (s: Step)
    ensures |s.rest| <= |b|
    ensures s.outcome.Frame? ==> |s.rest| < |b|
    decreases |b|
  {
    var k := FindNewline(b);
    if k == |b| then Step(Waiting, b)
    else
      var line := Chomp(b[..k]);
      if 0 < |line| <= capacity then Step(Frame(line), b[k + 1..])
      else NdjsonStep(b[k + 1..], capacity)
  }

  lemma NdjsonRound(b: seq<byte>, capacity: nat)
    ensures var k, s := FindNewline(b), NdjsonStep(b, capacity);
            if k == |b| then s == Step(Waiting, b)
            else
              var line := Chomp(b[..k]);
              if 0 < |line| <= capacity then s == Step(Frame(line), b[k + 1..])
              else s == NdjsonStep(b[k + 1..], capacity)
  {
    hide Chomp, FindNewline;
  }

  // ---- all modes ----

  function Extract(mode: Mode, b: seq<byte>, capacity: nat): (s: Step)
    ensures |s.rest| <= |b|
    ensures s.outcome.Frame? ==> |s.rest| < |b|
  {
    match mode
    case Dmi => DmiStep(b, capacity)
    case TwoByteBig => TwoByteStep(b, capacity, true)
    case TwoByteLittle => TwoByteStep(b, capacity, false)
    case Ndjson => NdjsonStep(b, capacity)
  }

  /** Everything that repeated extraction delivers, and the buffer it ends with. */
  datatype Parsed = Parsed(frames: seq<seq<byte>>, rest: seq<byte>)

  /** Frames delivered earlier, in front of what a parse delivers. */
  function Prepend(frames: seq<seq<byte>>, p: Parsed): (q: Parsed) {
    Parsed(frames + p.frames, p.rest)
  }

  lemma PrependTwice(fs: seq<seq<byte>>, gs: seq<seq<byte>>, p: Parsed)
    ensures Prepend(fs, Prepend(gs, p)) == Prepend(fs + gs, p)
    ensures Prepend([], p) == p
  {
    assert fs + (gs + p.frames) == fs + gs + p.frames;
    assert [] + p.frames == p.frames;
  }

  function Parse(mode: Mode, b: seq<byte>, capacity: nat): (p: Parsed)
    decreases |b|
  {
    var s := Extract(mode, b, capacity);
    match s.outcome
    case Frame(f) => Prepend([f], Parse(mode, s.rest, capacity))
    case _ => Parsed([], s.rest)
  }

  /** Extraction after one more chunk has arrived behind what an earlier parse left. */
  function Feed(mode: Mode, p: Parsed, chunk: seq<byte>, capacity: nat): (q: Parsed) {
    Prepend(p.frames, Parse(mode, p.rest + chunk, capacity))
  }

  function FeedAll(mode: Mode, p: Parsed, chunks: seq<seq<byte>>, capacity: nat): (q: Parsed)
    decreases |chunks|
  {
    if chunks == [] then p else FeedAll(mode, Feed(mode, p, chunks[0], capacity), chunks[1..], capacity)
  }

  // ---- what is passed over ----

  /** A zero length, an empty line with or without a carriage return, and a line too long for the caller are
      passed over, and so are the two octets of a magic whose length octet is below six. */
  lemma PassedOver(b: seq<byte>, line: seq<byte>, x: byte, n: byte, capacity: nat)
    requires 0x0A !in line
    ensures Extract(TwoByteBig, [0, 0] + b, capacity) == Extract(TwoByteBig, b, capacity)
    ensures Extract(TwoByteLittle, [0, 0] + b, capacity) == Extract(TwoByteLittle, b, capacity)
    ensures line == [] || line == [0x0D] || |line| > capacity + 1 ==>
              Extract(Ndjson, line + [0x0A] + b, capacity) == Extract(Ndjson, b, capacity)
    ensures n < 6 ==> Extract(Dmi, [0x55, 0xAA, x, n] + b, capacity) == Extract(Dmi, [x, n] + b, capacity)
  {
    ZeroLengthPassed(b, capacity, true);
    ZeroLengthPassed(b, capacity, false);
    LinePassed(line, b, capacity);
    BadLengthPassed(b, x, n, capacity);
    hide DmiStep, TwoByteStep, NdjsonStep;
  }

  lemma ZeroLengthPassed(b: seq<byte>, capacity: nat, big: bool)
    ensures TwoByteStep([0, 0] + b, capacity, big) == TwoByteStep(b, capacity, big)
  {
    TwoByteRound([0, 0] + b, capacity, big);
    assert ([0, 0] + b)[2..] == b;
    hide TwoByteStep;
  }

  lemma LinePassed(line: seq<byte>, b: seq<byte>, capacity: nat)
    requires 0x0A !in line
    ensures line == [] || line == [0x0D] || |line| > capacity + 1 ==>
              NdjsonStep(line + [0x0A] + b, capacity) == NdjsonStep(b, capacity)
  {
    var all := line + [0x0A] + b;
    assert all[..|line|] == line && all[|line|] == 0x0A && all[|line| + 1..] == b;
    FindNewlineUnique(all, |line|);
    NdjsonRound(all, capacity);
    hide NdjsonStep, FindNewline;
  }

  lemma BadLengthPassed(b: seq<byte>, x: byte, n: byte, capacity: nat)
    ensures n < 6 ==> DmiStep([0x55, 0xAA, x, n] + b, capacity) == DmiStep([x, n] + b, capacity)
  {
    var all := [0x55, 0xAA, x, n] + b;
    FindMagicAtZero(all);
    assert all[0..] == all && all[2..] == [x, n] + b;
    DmiRound(all, capacity);
    hide DmiStep, FindMagic;
  }

  // ---- chunk independence ----

  /** The scan for the magic found none and threw away a last octet that could have begun one. */
  predicate DropsHalfMagic(b: seq<byte>)
    decreases |b|
  {
    var k := FindMagic(b);
    if k == |b| then |b| > 0 && b[|b| - 1] == MAGIC_FIRST
    else
      var c := b[k..];
      |c| >= 4 && c[3] < DMI_MINIMUM_FRAME && DropsHalfMagic(c[2..])
  }

  /** Parsing `b` ends by throwing away half of a magic. */
  predicate LosesBoundary(mode: Mode, b: seq<byte>, capacity: nat)
    decreases |b|
  {
    var s := Extract(mode, b, capacity);
    if s.outcome.Frame? then LosesBoundary(mode, s.rest, capacity)
    else mode.Dmi? && DropsHalfMagic(b)
  }

  lemma FindMagicUnique(b: seq<byte>, k: nat)
    requires k <= |b|
    requires k < |b| ==> HasMagic(b, k)
    requires forall i: nat :: i < k ==> !HasMagic(b, i)
    ensures FindMagic(b) == k
  {
  }

  lemma FindMagicAppend(a: seq<byte>, b: seq<byte>)
    requires FindMagic(a) == |a|
    requires |a| > 0 && |b| > 0 ==> !(a[|a| - 1] == MAGIC_FIRST && b[0] == MAGIC_SECOND)
    ensures FindMagic(a + b) == |a| + FindMagic(b)
  {
    var k := |a| + FindMagic(b);
    forall i: nat | i < k ensures !HasMagic(a + b, i) {
      if i >= |a| { assert !HasMagic(b, i - |a|); }
      else { assert !HasMagic(a, i); }
    }
    if k < |a + b| { assert HasMagic(b, k - |a|); }
    FindMagicUnique(a + b, k);
  }

  lemma FindMagicExtend(a: seq<byte>, b: seq<byte>)
    requires FindMagic(a) < |a|
    ensures FindMagic(a + b) == FindMagic(a)
    ensures (a + b)[FindMagic(a)..] == a[FindMagic(a)..] + b
  {
    var k := FindMagic(a);
    assert HasMagic(a + b, k);
    forall i: nat | i < k ensures !HasMagic(a + b, i) {
      assert !HasMagic(a, i);
    }
    FindMagicUnique(a + b, k);
  }

  /** A boundary between `a` and `b` that splits a magic after which `a`'s parse kept nothing. */
  predicate SplitMagic(dropped: bool, b: seq<byte>) {
    dropped && |b| > 0 && b[0] == MAGIC_SECOND
  }

  lemma FindMagicAtZero(c: seq<byte>)
    requires HasMagic(c, 0)
    ensures FindMagic(c) == 0
  {
  }

  lemma DmiAppendNoMagic(a: seq<byte>, b: seq<byte>, capacity: nat)
    requires FindMagic(a) == |a| && !SplitMagic(DropsHalfMagic(a), b)
    ensures DmiStep(a, capacity) == Step(Waiting, [])
    ensures DmiStep(a + b, capacity) == DmiStep([] + b, capacity)
  {
    hide DmiStep, FindMagic;
    DmiRound(a, capacity);
    DmiRestart(a + b, capacity);
    DmiRestart(b, capacity);
    FindMagicAppend(a, b);
    assert (a + b)[FindMagic(a + b)..] == b[FindMagic(b)..];
    assert [] + b == b;
  }

  /** What the round at `c` does is not changed by octets behind `c`, if the round can be decided. */
  lemma DmiRoundAppend(a: seq<byte>, b: seq<byte>, capacity: nat)
    requires FindMagic(a) < |a|
    ensures var c := a[FindMagic(a)..];
            if |c| < 4 || (c[3] >= DMI_MINIMUM_FRAME && |c| < c[3]) then
              DmiStep(a, capacity) == Step(Waiting, c) && DmiStep(a + b, capacity) == DmiStep(c + b, capacity)
            else if c[3] < DMI_MINIMUM_FRAME then
              DmiStep(a, capacity) == DmiStep(c[2..], capacity)
                && DmiStep(a + b, capacity) == DmiStep(c[2..] + b, capacity)
            else
              var s := DmiStep(a, capacity);
              !s.outcome.Waiting? && DmiStep(a + b, capacity) == Step(s.outcome, s.rest + b)
  {
    hide DmiStep, FindMagic;
    var c := a[FindMagic(a)..];
    FindMagicExtend(a, b);
    DmiRound(a, capacity);
    DmiRound(a + b, capacity);
    DmiRestart(a + b, capacity);
    if |c| >= 4 {
      if c[3] < DMI_MINIMUM_FRAME {
        assert (c + b)[2..] == c[2..] + b;
      } else if |c| >= c[3] {
        assert (c + b)[..c[3]] == c[..c[3]] && (c + b)[c[3]..] == c[c[3]..] + b;
      }
    }
  }

  lemma {:induction false} DmiAppend(a: seq<byte>, b: seq<byte>, capacity: nat)
    requires !SplitMagic(DropsHalfMagic(a), b)
    ensures var s := DmiStep(a, capacity);
            DmiStep(a + b, capacity) ==
            if s.outcome.Waiting? then DmiStep(s.rest + b, capacity) else Step(s.outcome, s.rest + b)
    decreases |a|
  {
    hide DmiStep;
    var k := FindMagic(a);
    if k == |a| {
      DmiAppendNoMagic(a, b, capacity);
    } else {
      DmiRoundAppend(a, b, capacity);
      var c := a[k..];
      if |c| >= 4 && c[3] < DMI_MINIMUM_FRAME {
        DmiAppend(c[2..], b, capacity);
      }
    }
  }

  lemma {:induction false} TwoByteAppend(a: seq<byte>, b: seq<byte>, capacity: nat, big: bool)
    ensures var s := TwoByteStep(a, capacity, big);
            TwoByteStep(a + b, capacity, big) ==
            if s.outcome.Waiting? then TwoByteStep(s.rest + b, capacity, big) else Step(s.outcome, s.rest + b)
    decreases |a|
  {
    if |a| >= 2 {
      var n := FieldLength(a, big);
      assert FieldLength(a + b, big) == n;
      if n == 0 {
        assert (a + b)[2..] == a[2..] + b;
        TwoByteAppend(a[2..], b, capacity, big);
      } else if |a| >= 2 + n {
        assert (a + b)[2..2 + n] == a[2..2 + n];
        assert (a + b)[2 + n..] == a[2 + n..] + b;
      }
    }
  }

  lemma FindNewlineUnique(b: seq<byte>, k: nat)
    requires k <= |b| && LINE_FEED !in b[..k]
    requires k < |b| ==> b[k] == LINE_FEED
    ensures FindNewline(b) == k
  {
  }

  lemma FindNewlineAppend(a: seq<byte>, b: seq<byte>)
    requires FindNewline(a) < |a|
    ensures var k := FindNewline(a);
            FindNewline(a + b) == k && (a + b)[..k] == a[..k] && (a + b)[k + 1..] == a[k + 1..] + b
  {
    var k := FindNewline(a);
    assert (a + b)[..k] == a[..k];
    FindNewlineUnique(a + b, k);
  }

  lemma {:induction false} NdjsonAppend(a: seq<byte>, b: seq<byte>, capacity: nat)
    ensures var s := NdjsonStep(a, capacity);
            NdjsonStep(a + b, capacity) ==
            if s.outcome.Waiting? then NdjsonStep(s.rest + b, capacity) else Step(s.outcome, s.rest + b)
    decreases |a|
  {
    NdjsonRound(a, capacity);
    NdjsonRound(a + b, capacity);
    hide *;
    var k := FindNewline(a);
    if k < |a| {
      FindNewlineAppend(a, b);
      NdjsonAppend(a[k + 1..], b, capacity);
    }
  }

  lemma ExtractAppend(mode: Mode, a: seq<byte>, b: seq<byte>, capacity: nat)
    requires mode.Dmi? ==> !SplitMagic(DropsHalfMagic(a), b)
    ensures var s := Extract(mode, a, capacity);
            Extract(mode, a + b, capacity) ==
            if s.outcome.Waiting? then Extract(mode, s.rest + b, capacity) else Step(s.outcome, s.rest + b)
  {
    match mode
    case Dmi => DmiAppend(a, b, capacity);
    case TwoByteBig => TwoByteAppend(a, b, capacity, true);
    case TwoByteLittle => TwoByteAppend(a, b, capacity, false);
    case Ndjson => NdjsonAppend(a, b, capacity);
  }

  /** A complete frame too long for the caller stays at the head, whatever arrives behind it. */
  lemma TooLongStays(mode: Mode, a: seq<byte>, capacity: nat)
    requires Extract(mode, a, capacity).outcome.TooLong?
    ensures var s := Extract(mode, a, capacity); Extract(mode, s.rest, capacity) == s
    ensures !mode.Ndjson? && Extract(mode, a, capacity).outcome.length > capacity
  {
    match mode
    case Dmi => DmiTooLong(a, capacity);
    case TwoByteBig => TwoByteTooLong(a, capacity, true);
    case TwoByteLittle => TwoByteTooLong(a, capacity, false);
    case Ndjson => NdjsonNeverTooLong(a, capacity);
  }

  lemma {:induction false} DmiTooLong(a: seq<byte>, capacity: nat)
    requires DmiStep(a, capacity).outcome.TooLong?
    ensures var s := DmiStep(a, capacity); DmiStep(s.rest, capacity) == s && s.outcome.length > capacity
    decreases |a|
  {
    var c := a[FindMagic(a)..];
    FindMagicAtZero(c);
    assert c[0..] == c;
    if c[3] < DMI_MINIMUM_FRAME { DmiTooLong(c[2..], capacity); }
  }

  lemma {:induction false} TwoByteTooLong(a: seq<byte>, capacity: nat, big: bool)
    requires TwoByteStep(a, capacity, big).outcome.TooLong?
    ensures var s := TwoByteStep(a, capacity, big);
            TwoByteStep(s.rest, capacity, big) == s && s.outcome.length > capacity
    decreases |a|
  {
    if FieldLength(a, big) == 0 { TwoByteTooLong(a[2..], capacity, big); }
  }

  lemma {:induction false} NdjsonNeverTooLong(a: seq<byte>, capacity: nat)
    ensures !NdjsonStep(a, capacity).outcome.TooLong?
    decreases |a|
  {
    var k := FindNewline(a);
    if k < |a| { NdjsonNeverTooLong(a[k + 1..], capacity); }
  }

  /** Parsing does not depend on where the stream was cut, unless the cut loses half of a magic. */
  lemma {:induction false} ParseAppend(mode: Mode, a: seq<byte>, b: seq<byte>, capacity: nat)
    requires !SplitMagic(LosesBoundary(mode, a, capacity), b)
    ensures Parse(mode, a + b, capacity) == Feed(mode, Parse(mode, a, capacity), b, capacity)
    decreases |a|
  {
    hide Extract, DropsHalfMagic;
    var s := Extract(mode, a, capacity);
    if s.outcome.Frame? {
      ExtractFrameAppend(mode, a, b, capacity);
      ParseAppend(mode, s.rest, b, capacity);
      var p := Parse(mode, s.rest, capacity);
      PrependTwice([s.outcome.bytes], p.frames, Parse(mode, p.rest + b, capacity));
    } else {
      ParseStuck(mode, a, b, capacity);
    }
  }

  lemma ExtractFrameAppend(mode: Mode, a: seq<byte>, b: seq<byte>, capacity: nat)
    requires Extract(mode, a, capacity).outcome.Frame?
    ensures var s := Extract(mode, a, capacity); Extract(mode, a + b, capacity) == Step(s.outcome, s.rest + b)
  {
    hide DmiStep, TwoByteStep, NdjsonStep, DropsHalfMagic;
    if mode.Dmi? { FrameKeepsTail(a, capacity); }
    ExtractAppend(mode, a, b, capacity);
  }

  lemma ParseStuck(mode: Mode, a: seq<byte>, b: seq<byte>, capacity: nat)
    requires !Extract(mode, a, capacity).outcome.Frame?
    requires mode.Dmi? ==> !SplitMagic(DropsHalfMagic(a), b)
    ensures Parse(mode, a + b, capacity) == Feed(mode, Parse(mode, a, capacity), b, capacity)
  {
    var s := Extract(mode, a, capacity);
    assert Parse(mode, a, capacity) == Parsed([], s.rest);
    assert Extract(mode, a + b, capacity) == Extract(mode, s.rest + b, capacity) by {
      ExtractStuckAppend(mode, a, b, capacity);
    }
    SameExtractSameParse(mode, a + b, s.rest + b, capacity);
    PrependTwice([], [], Parse(mode, s.rest + b, capacity));
  }

  lemma ExtractStuckAppend(mode: Mode, a: seq<byte>, b: seq<byte>, capacity: nat)
    requires !Extract(mode, a, capacity).outcome.Frame?
    requires mode.Dmi? ==> !SplitMagic(DropsHalfMagic(a), b)
    ensures Extract(mode, a + b, capacity) == Extract(mode, Extract(mode, a, capacity).rest + b, capacity)
  {
    hide DmiStep, TwoByteStep, NdjsonStep, DropsHalfMagic;
    var s := Extract(mode, a, capacity);
    ExtractAppend(mode, a, b, capacity);
    if s.outcome.TooLong? {
      TooLongStays(mode, a, capacity);
      if mode.Dmi? { TooLongKeepsTail(a, capacity); }
      ExtractAppend(mode, s.rest, b, capacity);
    }
  }

  lemma SameExtractSameParse(mode: Mode, a: seq<byte>, b: seq<byte>, capacity: nat)
    requires Extract(mode, a, capacity) == Extract(mode, b, capacity)
    ensures Parse(mode, a, capacity) == Parse(mode, b, capacity)
  {
  }

  lemma {:induction false} FrameKeepsTail(a: seq<byte>, capacity: nat)
    requires !DmiStep(a, capacity).outcome.Waiting?
    ensures !DropsHalfMagic(a)
    decreases |a|
  {
    var c := a[FindMagic(a)..];
    if |c| >= 4 && c[3] < DMI_MINIMUM_FRAME { FrameKeepsTail(c[2..], capacity); }
  }

  lemma TooLongKeepsTail(a: seq<byte>, capacity: nat)
    requires DmiStep(a, capacity).outcome.TooLong?
    ensures !DropsHalfMagic(DmiStep(a, capacity).rest)
  {
    DmiTooLong(a, capacity);
    FrameKeepsTail(DmiStep(a, capacity).rest, capacity);
  }

  /** The loss needs a stream that ends in the first magic octet. */
  lemma {:induction false} LossEndsInMagic(mode: Mode, a: seq<byte>, capacity: nat)
    requires LosesBoundary(mode, a, capacity)
    ensures mode.Dmi? && |a| > 0 && a[|a| - 1] == MAGIC_FIRST
    ensures Parse(mode, a, capacity).rest == []
    decreases |a|
  {
    var s := Extract(mode, a, capacity);
    if s.outcome.Frame? {
      LossEndsInMagic(mode, s.rest, capacity);
      DmiRestIsSuffix(a, capacity);
    } else {
      DroppedTail(a, capacity);
    }
  }

  lemma {:induction false} DmiRestIsSuffix(a: seq<byte>, capacity: nat)
    ensures var r := DmiStep(a, capacity).rest; |r| <= |a| && r == a[|a| - |r|..]
    decreases |a|
  {
    var c := a[FindMagic(a)..];
    if |c| >= 4 && c[3] < DMI_MINIMUM_FRAME { DmiRestIsSuffix(c[2..], capacity); }
  }

  lemma {:induction false} DroppedTail(a: seq<byte>, capacity: nat)
    requires DropsHalfMagic(a)
    ensures |a| > 0 && a[|a| - 1] == MAGIC_FIRST && DmiStep(a, capacity) == Step(Waiting, [])
    decreases |a|
  {
    var c := a[FindMagic(a)..];
    if FindMagic(a) < |a| { DroppedTail(c[2..], capacity); }
  }

  /** Exactly when a cut after `a` is harmless for every continuation. */
  lemma CutIsHarmlessIff(mode: Mode, a: seq<byte>, capacity: nat)
    ensures (forall b :: Parse(mode, a + b, capacity) == Feed(mode, Parse(mode, a, capacity), b, capacity))
            <==> !LosesBoundary(mode, a, capacity)
  {
    if LosesBoundary(mode, a, capacity) {
      var b := [MAGIC_SECOND];
      LostMagic(mode, a, capacity);
      LossEndsInMagic(mode, a, capacity);
      assert [] + b == b;
      assert FindMagic(b) == 1;
      assert Parse(mode, a + b, capacity) != Feed(mode, Parse(mode, a, capacity), b, capacity);
    } else {
      forall b ensures Parse(mode, a + b, capacity) == Feed(mode, Parse(mode, a, capacity), b, capacity) {
        ParseAppend(mode, a, b, capacity);
      }
    }
  }

  /** What the harmful cut costs: uncut, the half magic would have stayed in the buffer. */
  lemma {:induction false} LostMagic(mode: Mode, a: seq<byte>, capacity: nat)
    requires LosesBoundary(mode, a, capacity)
    ensures Parse(mode, a + [MAGIC_SECOND], capacity).rest == [MAGIC_FIRST, MAGIC_SECOND]
    decreases |a|
  {
    var b := [MAGIC_SECOND];
    var s := Extract(mode, a, capacity);
    LossEndsInMagic(mode, a, capacity);
    if s.outcome.Frame? {
      FrameKeepsTail(a, capacity);
      ExtractAppend(mode, a, b, capacity);
      LostMagic(mode, s.rest, capacity);
    } else {
      LostMagicStep(a, capacity);
    }
  }

  lemma {:induction false} LostMagicStep(a: seq<byte>, capacity: nat)
    requires DropsHalfMagic(a)
    ensures DmiStep(a + [MAGIC_SECOND], capacity) == Step(Waiting, [MAGIC_FIRST, MAGIC_SECOND])
    decreases |a|
  {
    var b := [MAGIC_SECOND];
    var k := FindMagic(a);
    if k == |a| {
      forall i: nat | i < |a| - 1 ensures !HasMagic(a + b, i) { assert !HasMagic(a, i); }
      FindMagicUnique(a + b, |a| - 1);
    } else {
      FindMagicExtend(a, b);
      assert (a[k..] + b)[2..] == a[k..][2..] + b;
      LostMagicStep(a[k..][2..], capacity);
    }
  }

  /** No cut splits a magic of the whole stream. */
  ghost predicate CutsSafely(mode: Mode, chunks: seq<seq<byte>>) {
    mode.Dmi? ==>
      forall i :: 0 < i < |chunks| ==>
        var before := Flatten(chunks[..i]);
        !(|before| > 0 && before[|before| - 1] == MAGIC_FIRST && |chunks[i]| > 0 && chunks[i][0] == MAGIC_SECOND)
  }

  /** Any stream in any chunks parses like the whole stream; DMI needs that no cut splits a magic. */
  lemma {:induction false} ChunkIndependence(mode: Mode, chunks: seq<seq<byte>>, capacity: nat)
    requires CutsSafely(mode, chunks)
    ensures FeedAll(mode, Parsed([], []), chunks, capacity) == Parse(mode, Flatten(chunks), capacity)
  {
    FeedAllFrom(mode, chunks, 0, capacity);
    assert chunks[..0] == [] && chunks[0..] == chunks;
    assert Parse(mode, [], capacity) == Parsed([], []);
  }

  /** The smallest frame, which carries no payload. */
  const SMALL_FRAME: seq<byte> := [MAGIC_FIRST, MAGIC_SECOND, 0, 6, 0, 0]

  /** Cut after its first octet this frame is lost; whole it is delivered. */
  lemma CutLosesFrame(capacity: nat)
    requires capacity >= |SMALL_FRAME|
    ensures LosesBoundary(Dmi, [MAGIC_FIRST], capacity)
    ensures Parse(Dmi, SMALL_FRAME, capacity) == Parsed([SMALL_FRAME], [])
    ensures FeedAll(Dmi, Parsed([], []), [[MAGIC_FIRST], SMALL_FRAME[1..]], capacity) == Parsed([], [])
  {
    FindMagicUnique([MAGIC_FIRST], 1);
    NoMagicNoFrame([MAGIC_FIRST], capacity);
    var second := SMALL_FRAME[1..];
    assert second == [MAGIC_SECOND, 0, 6, 0, 0];
    FindMagicUnique(second, 5);
    NoMagicNoFrame(second, capacity);
    WholeFrame(capacity);
    hide Parse, DmiStep;
    FeedTwo([MAGIC_FIRST], second, capacity);
  }

  lemma WholeFrame(capacity: nat)
    requires capacity >= |SMALL_FRAME|
    ensures Parse(Dmi, SMALL_FRAME, capacity) == Parsed([SMALL_FRAME], [])
  {
    var f := SMALL_FRAME;
    FindMagicUnique(f, 0);
    assert f[0..] == f && f[..6] == f && f[6..] == [];
    assert DmiStep(f, capacity) == Step(Frame(f), []);
    FindMagicUnique([], 0);
    NoMagicNoFrame([], capacity);
    hide DmiStep;
  }

  lemma FeedTwo(x: seq<byte>, y: seq<byte>, capacity: nat)
    requires Parse(Dmi, x, capacity) == Parsed([], []) && Parse(Dmi, y, capacity) == Parsed([], [])
    ensures FeedAll(Dmi, Parsed([], []), [x, y], capacity) == Parsed([], [])
  {
    hide Parse;
    var none := Parsed([], []);
    assert [] + x == x && [] + y == y;
    assert Feed(Dmi, none, x, capacity) == none && Feed(Dmi, none, y, capacity) == none;
    assert [x, y][1..] == [y] && |[y][1..]| == 0;
    assert FeedAll(Dmi, none, [y][1..], capacity) == none;
    assert FeedAll(Dmi, none, [y], capacity) == none;
  }

  lemma NoMagicNoFrame(b: seq<byte>, capacity: nat)
    requires FindMagic(b) == |b|
    ensures DmiStep(b, capacity) == Step(Waiting, []) && Parse(Dmi, b, capacity) == Parsed([], [])
  {
    assert b[|b|..] == [];
  }

  lemma {:induction false} FeedAllFrom(mode: Mode, chunks: seq<seq<byte>>, i: nat, capacity: nat)
    requires CutsSafely(mode, chunks) && i <= |chunks|
    ensures FeedAll(mode, Parse(mode, Flatten(chunks[..i]), capacity), chunks[i..], capacity)
         == Parse(mode, Flatten(chunks), capacity)
    decreases |chunks| - i
  {
    var a := Flatten(chunks[..i]);
    if i == |chunks| {
      assert chunks[..i] == chunks;
    } else {
      var b := chunks[i];
      if SplitMagic(LosesBoundary(mode, a, capacity), b) {
        LossEndsInMagic(mode, a, capacity);
        assert false;
      }
      ParseAppend(mode, a, b, capacity);
      assert chunks[..i + 1] == chunks[..i] + [b];
      FlattenSnoc(chunks[..i], b);
      assert chunks[i..][1..] == chunks[i + 1..] && chunks[i..][0] == b;
      FeedAllFrom(mode, chunks, i + 1, capacity);
    }
  }
}
