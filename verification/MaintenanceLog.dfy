/** The maintenance log: variable-length records written one after the other into a flat buffer that is
    rewound only when the last of them has been read. */
module MaintenanceLog {
  import opened Bytes

  const LOG_SIZE := 7000
  const MAX_PAYLOAD := 1200
  const MAX_RECORDS := 5
  const HEADER_SIZE := 9

  /** One record.  `cpu` and `core` are fixed when the simulator is built. */
  datatype Record = Record(peripheral: nat, kind: byte, cpu: byte, core: byte, payload: seq<byte>) {
    predicate Valid() {
      peripheral < Pow256(4) && |payload| <= MAX_PAYLOAD
    }

    /** The packed header structure, little-endian, followed by the payload. */
    function Encode(): (b: seq<byte>)
      ensures |b| == HEADER_SIZE + |payload|
    {
      Little(peripheral, 4) + Little(|payload|, 2) + [kind, cpu, core] + payload
    }
  }

  function EncodeAll(rs: seq<Record>): (b: seq<byte>) {
    if rs == [] then [] else rs[0].Encode() + EncodeAll(rs[1..])
  }

  lemma {:induction false} EncodeAllSnoc(rs: seq<Record>, r: Record)
    ensures EncodeAll(rs + [r]) == EncodeAll(rs) + r.Encode()
  {
    hide Record.Encode;
    if rs == [] {
      assert [] + [r] == [r];
      assert EncodeAll([r]) == r.Encode() + EncodeAll([]);
    } else {
      assert (rs + [r])[1..] == rs[1..] + [r];
      EncodeAllSnoc(rs[1..], r);
      assert rs[0].Encode() + (EncodeAll(rs[1..]) + r.Encode()) == rs[0].Encode() + EncodeAll(rs[1..]) + r.Encode();
    }
  }

  /** The peripheral number and size that a reader finds in the header. */
  lemma HeaderReadsBack(r: Record)
    requires r.Valid()
    ensures var b := r.Encode();
            && LittleValue(b[0..4]) == r.peripheral && LittleValue(b[4..6]) == |r.payload|
            && b[6..9] == [r.kind, r.cpu, r.core] && b[HEADER_SIZE..] == r.payload
  {
    var b := r.Encode();
    LittleRoundTrip(r.peripheral, 4);
    assert Pow256(2) == 0x10000;
    LittleRoundTrip(|r.payload|, 2);
    assert b[0..4] == Little(r.peripheral, 4) && b[4..6] == Little(|r.payload|, 2);
  }

  // ---- what the log promises ----

  /** The records to be read and how far the buffer has been written since it was last rewound. */
  datatype State = State(records: seq<Record>, used: nat)

  const EMPTY := State([], 0)

  predicate Fits(s: State, r: Record) {
    |r.payload| <= MAX_PAYLOAD && s.used + HEADER_SIZE + |r.payload| <= LOG_SIZE && |s.records| < MAX_RECORDS
  }

  function Written(s: State, r: Record): (t: State) {
    if Fits(s, r) then State(s.records + [r], s.used + HEADER_SIZE + |r.payload|) else s
  }

  function Consumed(s: State): (t: State)
    requires s.records != []
  {
    if |s.records| == 1 then EMPTY else State(s.records[1..], s.used)
  }

  datatype Op = Put(record: Record) | Get

  datatype Trace = Trace(state: State, accepted: seq<Record>, delivered: seq<Record>)

  function Run(ops: seq<Op>): (t: Trace)
    decreases |ops|
  {
    if ops == [] then Trace(EMPTY, [], [])
    else
      var before := Run(ops[..|ops| - 1]);
      match ops[|ops| - 1]
      case Put(r) =>
        Trace(Written(before.state, r),
              if Fits(before.state, r) then before.accepted + [r] else before.accepted,
              before.delivered)
      case Get =>
        if before.state.records == [] then before
        else Trace(Consumed(before.state), before.accepted, before.delivered + [before.state.records[0]])
  }

  function EncodedSize(rs: seq<Record>): (n: nat) {
    if rs == [] then 0 else EncodedSize(rs[..|rs| - 1]) + HEADER_SIZE + |rs[|rs| - 1].payload|
  }

  /** In every run the log delivers what it accepted, in order, each record once; never more than five
      records wait; and space comes back only when none does. */
  lemma {:induction false} NothingLost(ops: seq<Op>)
    ensures var t := Run(ops);
            && t.delivered + t.state.records == t.accepted
            && |t.state.records| <= MAX_RECORDS
            && (t.state.records == [] ==> t.state.used == 0)
    decreases |ops|
  {
    if ops != [] {
      NothingLost(ops[..|ops| - 1]);
      var t := Run(ops[..|ops| - 1]);
      match ops[|ops| - 1]
      case Put(r) =>
        assert t.delivered + (t.state.records + [r]) == t.delivered + t.state.records + [r];
      case Get =>
        if t.state.records != [] {
          assert t.delivered + [t.state.records[0]] + t.state.records[1..] == t.delivered + t.state.records;
        }
    }
  }

  function PutAll(s: State, rs: seq<Record>): (t: State)
    decreases |rs|
  {
    if rs == [] then s else Written(PutAll(s, rs[..|rs| - 1]), rs[|rs| - 1])
  }

  lemma {:induction false} EncodedSizeBound(rs: seq<Record>)
    requires forall r :: r in rs ==> |r.payload| <= MAX_PAYLOAD
    ensures EncodedSize(rs) <= |rs| * (HEADER_SIZE + MAX_PAYLOAD)
    decreases |rs|
  {
    if rs != [] {
      EncodedSizeBound(rs[..|rs| - 1]);
    }
  }

  /** After a drain the next five records of permitted size are always accepted. */
  lemma {:induction false} FiveAlwaysFit(rs: seq<Record>)
    requires |rs| <= MAX_RECORDS && forall r :: r in rs ==> |r.payload| <= MAX_PAYLOAD
    ensures PutAll(EMPTY, rs) == State(rs, EncodedSize(rs)) && EncodedSize(rs) <= LOG_SIZE
    decreases |rs|
  {
    EncodedSizeBound(rs);
    if rs != [] {
      var init, last := rs[..|rs| - 1], rs[|rs| - 1];
      FiveAlwaysFit(init);
      assert init + [last] == rs && last in rs;
    }
  }

  /** The limits: 1200 octets a record, 7000 with headers since the log was last empty, five records. */
  lemma Limits(r: Record, waiting: seq<Record>)
    ensures |r.payload| == 1200 ==> Fits(EMPTY, r)
    ensures |r.payload| == 1200 && |waiting| == 4 ==> Fits(State(waiting, 5791), r)
    ensures |r.payload| == 1200 ==> !Fits(State([], 5792), r)
    ensures |r.payload| > 1200 || |waiting| >= 5 ==> forall used :: !Fits(State(waiting, used), r)
  {
  }

  // ---- cycles ----

  function Puts(rs: seq<Record>): (ops: seq<Op>)
    ensures |ops| == |rs|
  {
    seq(|rs|, i requires 0 <= i < |rs| => Put(rs[i]))
  }

  function Gets(n: nat): (ops: seq<Op>)
    ensures |ops| == n
  {
    seq(n, _ => Get)
  }

  /** A drain asks how many records wait and reads as many. */
  function Drained(ops: seq<Op>): (all: seq<Op>) {
    ops + Gets(|Run(ops).state.records|)
  }

  /** Cycle after cycle the batch is written, then the log is drained. */
  function Cycles(batches: seq<seq<Record>>): (ops: seq<Op>)
    decreases |batches|
  {
    if batches == [] then [] else Drained(Cycles(batches[..|batches| - 1]) + Puts(batches[|batches| - 1]))
  }

  lemma {:induction false} RunGets(ops: seq<Op>, k: nat)
    requires k <= |Run(ops).state.records|
    ensures var t, u := Run(ops), Run(ops + Gets(k));
            u.state.records == t.state.records[k..] && u.accepted == t.accepted
  {
    if k == 0 {
      assert ops + Gets(0) == ops;
    } else {
      RunGets(ops, k - 1);
      assert (ops + Gets(k))[..|ops| + k - 1] == ops + Gets(k - 1);
    }
  }

  /** After any run a drain leaves the log empty, and everything ever accepted delivered. */
  lemma DrainEmpties(ops: seq<Op>)
    ensures var t := Run(Drained(ops));
            t.state == EMPTY && t.delivered == t.accepted == Run(ops).accepted
  {
    RunGets(ops, |Run(ops).state.records|);
    NothingLost(Drained(ops));
    var t := Run(Drained(ops));
    assert t.delivered + [] == t.delivered;
  }

  lemma {:induction false} RunPuts(ops: seq<Op>, rs: seq<Record>)
    requires Run(ops).state == EMPTY
    requires |rs| <= MAX_RECORDS && forall r :: r in rs ==> |r.payload| <= MAX_PAYLOAD
    ensures var t, u := Run(ops), Run(ops + Puts(rs));
            u.state == PutAll(EMPTY, rs) && u.accepted == t.accepted + rs
    decreases |rs|
  {
    hide *;
    if rs == [] {
      PutsNothing(ops);
    } else {
      var init, last := rs[..|rs| - 1], rs[|rs| - 1];
      RunPuts(ops, init);
      FiveAlwaysFit(init);
      FiveAlwaysFit(rs);
      PutsSnoc(ops, rs);
      RunPut(ops + Puts(init), last);
      LastFits(rs);
      assert Run(ops).accepted + init + [last] == Run(ops).accepted + rs;
    }
  }

  lemma PutsNothing(ops: seq<Op>)
    ensures ops + Puts([]) == ops && PutAll(EMPTY, []) == EMPTY
  {
  }

  lemma PutsSnoc(ops: seq<Op>, rs: seq<Record>)
    requires rs != []
    ensures ops + Puts(rs) == ops + Puts(rs[..|rs| - 1]) + [Put(rs[|rs| - 1])]
  {
  }

  lemma LastFits(rs: seq<Record>)
    requires rs != [] && |rs| <= MAX_RECORDS && forall r :: r in rs ==> |r.payload| <= MAX_PAYLOAD
    ensures var s := PutAll(EMPTY, rs[..|rs| - 1]);
            Fits(s, rs[|rs| - 1]) && Written(s, rs[|rs| - 1]) == PutAll(EMPTY, rs)
  {
    FiveAlwaysFit(rs[..|rs| - 1]);
    FiveAlwaysFit(rs);
    hide EncodedSize;
  }

  lemma RunPut(ops: seq<Op>, r: Record)
    ensures var t, u := Run(ops), Run(ops + [Put(r)]);
            u == Trace(Written(t.state, r), if Fits(t.state, r) then t.accepted + [r] else t.accepted, t.delivered)
  {
    assert (ops + [Put(r)])[..|ops|] == ops;
  }

  /** With at most five permitted records a cycle, nothing is ever refused or lost: after every drain all
      that was written in all cycles has been delivered, in order. */
  lemma {:induction false} CyclesAreLossless(batches: seq<seq<Record>>)
    requires forall b :: b in batches ==> |b| <= MAX_RECORDS && forall r :: r in b ==> |r.payload| <= MAX_PAYLOAD
    ensures var t := Run(Cycles(batches));
            t.state == EMPTY && t.delivered == t.accepted == Flatten(batches)
    decreases |batches|
  {
    hide Run, PutAll;
    if batches == [] {
      RunNothing();
    } else {
      var before, b := batches[..|batches| - 1], batches[|batches| - 1];
      CyclesAreLossless(before);
      assert b in batches;
      RunPuts(Cycles(before), b);
      DrainEmpties(Cycles(before) + Puts(b));
      FlattenSnoc(before, b);
      assert before + [b] == batches;
    }
  }

  lemma RunNothing()
    ensures Run([]) == Trace(EMPTY, [], [])
  {
  }

  lemma {:induction false} FullRecords(rs: seq<Record>)
    requires forall r :: r in rs ==> |r.payload| == MAX_PAYLOAD
    ensures EncodedSize(rs) == |rs| * (HEADER_SIZE + MAX_PAYLOAD)
    decreases |rs|
  {
    if rs != [] {
      FullRecords(rs[..|rs| - 1]);
    }
  }

  /** Reading one record of several makes no room: five full records, one read, and a sixth is refused
      although only four wait. */
  lemma ReadingOneMakesNoRoom(r: Record)
    requires |r.payload| == MAX_PAYLOAD
    ensures var s := PutAll(EMPTY, [r, r, r, r, r]);
            |s.records| == 5 && |Consumed(s).records| == 4 && !Fits(Consumed(s), r)
  {
    var rs := [r, r, r, r, r];
    FiveAlwaysFit(rs);
    FullRecords(rs);
  }

  // ---- the log itself ----

  class Log {
    const buf: array<byte>
    const cpu: byte
    const core: byte
    var readPos: nat
    var writePos: nat
    var msgNum: nat
    ghost var records: seq<Record>

    /** The octets between the cursors are the records still to be read. */
    ghost predicate Valid()
      reads this, buf
    {
      && buf.Length == LOG_SIZE
      && readPos <= writePos <= LOG_SIZE
      && msgNum == |records| <= MAX_RECORDS
      && (forall r :: r in records ==> r.Valid())
      && buf[readPos..writePos] == EncodeAll(records)
      && (records == [] ==> readPos == writePos == 0 && buf[..] == Zeros(LOG_SIZE))
    }

    ghost function Model(): (s: State)
      reads this
    {
      State(records, writePos)
    }

    constructor (cpu: byte, core: byte)
      ensures Valid() && Model() == EMPTY && fresh(buf) && this.cpu == cpu && this.core == core
    {
      this.cpu, this.core := cpu, core;
      buf := new byte[LOG_SIZE](_ => 0);
      readPos, writePos, msgNum := 0, 0, 0;
      records := [];
      new;
      assert buf[..] == Zeros(LOG_SIZE);
    }

    method Write(peripheral: nat, info: seq<byte>, kind: byte) returns (ok: bool)
      requires Valid() && peripheral < Pow256(4) && |info| < 0x10000
      modifies this, buf
      ensures Valid()
      ensures ok == Fits(old(Model()), Record(peripheral, kind, cpu, core, info))
      ensures Model() == Written(old(Model()), Record(peripheral, kind, cpu, core, info))
    {
      if |info| > MAX_PAYLOAD {
        return false;
      }
      var writeLen := (writePos + |info| + HEADER_SIZE) % 0x10000;
      if LOG_SIZE < writeLen {
        return false;
      } else if msgNum >= MAX_RECORDS {
        return false;
      }
      hide EncodeAll, Little, Zeros;
      EncodeAllSnoc(records, Record(peripheral, kind, cpu, core, info));
      Append(Little(peripheral, 4) + Little(|info|, 2) + [kind, cpu, core], info);
      msgNum := msgNum + 1;
      records := records + [Record(peripheral, kind, cpu, core, info)];
      return true;
    }

    /** Copy a header and a payload behind what has been written. */
    method Append(head: seq<byte>, info: seq<byte>)
      requires readPos <= writePos && writePos + |head| + |info| <= buf.Length
      modifies this`writePos, buf
      ensures writePos == old(writePos) + |head| + |info|
      ensures buf[readPos..writePos] == old(buf[readPos..writePos]) + (head + info)
    {
      ghost var was := buf[..];
      CopyAt(buf, writePos, head);
      writePos := writePos + |head|;
      CopyAt(buf, writePos, info);
      writePos := writePos + |info|;
      Appended(was, buf[..], readPos, old(writePos), head, info);
    }

    /** Read one record, header first.  With nothing to read nothing is copied. */
    method Read() returns (out: seq<byte>)
      requires Valid()
      modifies this, buf
      ensures Valid()
      ensures if old(records) == [] then out == [] && Model() == old(Model())
              else out == old(records)[0].Encode() && Model() == Consumed(old(Model()))
    {
      if msgNum == 0 {
        return [];
      }
      hide Record.Encode, LittleValue;
      ghost var live := buf[readPos..writePos];
      assert records[0] in records;
      FirstRecord(live, records);
      SubSlice(buf[..], readPos, writePos, 4, 6);
      var size := HEADER_SIZE + LittleValue(buf[readPos + 4..readPos + 6]);
      SubSlice(buf[..], readPos, writePos, 0, size);
      out := buf[readPos..readPos + size];
      readPos := readPos + size;
      msgNum := msgNum - 1;
      records := records[1..];
      assert buf[readPos..writePos] == live[size..];
      if msgNum == 0 {
        readPos, writePos := 0, 0;
        forall i | 0 <= i < buf.Length {
          buf[i] := 0;
        }
      }
    }

    method GetMsgNum() returns (ok: bool, num: nat)
      requires Valid()
      ensures ok == (records != []) && (ok ==> num == |records|)
    {
      if msgNum != 0 {
        return true, msgNum;
      }
      return false, 0;
    }

    /** Hand every waiting record, as peripheral number and payload, to the maintenance sessions. */
    method Drain() returns (sent: seq<(nat, seq<byte>)>)
      requires Valid()
      modifies this, buf
      ensures Valid() && Model() == EMPTY
      ensures |sent| == |old(records)|
      ensures forall i :: 0 <= i < |sent| ==> sent[i] == (old(records)[i].peripheral, old(records)[i].payload)
    {
      sent := [];
      var ok, count := GetMsgNum();
      if !ok {
        return;
      }
      ghost var all := records;
      for index := 0 to count
        invariant Valid() && records == all[index..] && |sent| == index
        invariant forall i :: 0 <= i < index ==> sent[i] == (all[i].peripheral, all[i].payload)
      {
        ghost var record := all[index];
        assert records[0] == record && record in records;
        HeaderReadsBack(record);
        var info := Read();
        var size := LittleValue(info[4..6]);
        assert info[HEADER_SIZE..HEADER_SIZE + size] == info[HEADER_SIZE..] == record.payload;
        sent := sent + [(LittleValue(info[0..4]), info[HEADER_SIZE..HEADER_SIZE + size])];
      }
    }
  }

  lemma SubSlice<T>(s: seq<T>, a: nat, b: nat, c: nat, d: nat)
    requires c <= d && a + d <= b <= |s|
    ensures s[a..b][c..d] == s[a + c..a + d]
  {
    var t := s[a..b];
    forall i | 0 <= i < d - c ensures t[c..d][i] == s[a + c..a + d][i] {
      assert t[c + i] == s[a + c + i];
    }
  }

  /** The first record at the head of the encoded ones, and what its size field says. */
  lemma FirstRecord(live: seq<byte>, rs: seq<Record>)
    requires rs != [] && rs[0].Valid() && live == EncodeAll(rs)
    ensures var size := HEADER_SIZE + |rs[0].payload|;
            && size <= |live| && LittleValue(live[4..6]) == |rs[0].payload|
            && live[0..size] == rs[0].Encode() && live[size..] == EncodeAll(rs[1..])
  {
    hide Record.Encode;
    HeaderReadsBack(rs[0]);
    assert live[4..6] == rs[0].Encode()[4..6];
  }

  lemma Appended(was: seq<byte>, now: seq<byte>, from: nat, to: nat, head: seq<byte>, body: seq<byte>)
    requires from <= to && to + |head| + |body| <= |was|
    requires now == (was[..to] + head + was[to + |head|..])[..to + |head|] + body + was[to + |head| + |body|..]
    ensures now[from..to + |head| + |body|] == was[from..to] + (head + body)
  {
  }
}
