/** The first storage area (NRNW): reads and writes whose completion is reported after a delay. */
module StorageArea {
  import opened Wrappers
  import opened Bytes

  const MAX_SIZE := 1024
  const FAILURES_ALLOWED := 3

  datatype Status = NoOperation | Succeed | Pending | Failed | NoAvailable

  datatype Armed = Nothing | Reading | Writing

  /** The configured delays and what the file holds at the start. */
  datatype Config = Config(readMs: nat, writeMs: nat, initial: seq<byte>)

  /** The operation record and the file. */
  datatype State = State(status: Status, failCount: byte, doneAt: nat, armed: Armed, file: seq<byte>) {
    function Elapsed(now: nat): (b: bool) {
      doneAt == 0 || now >= doneAt
    }

    function Arm(delay: nat, op: Armed, now: nat): (s: State) {
      this.(status := Pending, armed := op, doneAt := if delay == 0 then 0 else now + delay)
    }
  }

  /** A call, its time, and what the file system does during it: whether the file opens, and how many
      octets pass. */
  datatype Call =
    | Read(at: nat, room: nat, opens: bool, got: nat)
    | Write(at: nat, data: seq<byte>, opens: bool, put: nat)
    | GetStatus(at: nat)

  /** The answer, and what a read has put into the caller's buffer. */
  datatype Reply = Reply(status: Status, data: Option<seq<byte>>)

  function Fail(s: State): (r: (State, Reply)) {
    var n: byte := (s.failCount + 1) % 0x100;
    (s.(failCount := n), Reply(if n >= FAILURES_ALLOWED then NoAvailable else Failed, None))
  }

  function OnRead(cfg: Config, s: State, now: nat, room: nat, opens: bool, got: nat): (r: (State, Reply)) {
    if room > MAX_SIZE then (s, Reply(Failed, None))
    else if cfg.readMs > 0 && s.status == Pending && s.armed == Reading then
      if s.Elapsed(now) then (s.(status := Succeed, armed := Nothing), Reply(Succeed, None))
        else (s, Reply(Pending, None))
    else if !opens || |s.file| > room || got < |s.file| then Fail(s)
    else
      var t := s.(failCount := 0);
      if cfg.readMs > 0 then (t.Arm(cfg.readMs, Reading, now), Reply(Pending, Some(s.file)))
      else (t.(status := Succeed, armed := Nothing), Reply(Succeed, Some(s.file)))
  }

  function OnWrite(cfg: Config, s: State, now: nat, data: seq<byte>, opens: bool, put: nat): (r: (State, Reply)) {
    if |data| > MAX_SIZE then (s, Reply(Failed, None))
    else if s.status == Pending then (s, Reply(Pending, None))
    else if !opens then Fail(s)
    else if put < |data| then Fail(s.(file := data[..put]))
    else (s.(file := data).Arm(cfg.writeMs, Writing, now), Reply(Pending, None))
  }

  function OnStatus(s: State, now: nat): (r: (State, Reply)) {
    if s.status == Pending then
      if s.Elapsed(now) then (s.(status := Succeed, failCount := 0, armed := Nothing), Reply(Succeed, None))
      else (s, Reply(Pending, None))
    else (s.(status := NoOperation), Reply(s.status, None))
  }

  function Serve(cfg: Config, s: State, c: Call): (r: (State, Reply)) {
    match c
    case Read(at, room, opens, got) => OnRead(cfg, s, at, room, opens, got)
    case Write(at, data, opens, put) => OnWrite(cfg, s, at, data, opens, put)
    case GetStatus(at) => OnStatus(s, at)
  }

  // ---- runs ----

  function Before(cfg: Config, cs: seq<Call>, i: nat): (s: State)
    requires i <= |cs|
  {
    if i == 0 then State(NoOperation, 0, 0, Nothing, cfg.initial)
    else Serve(cfg, Before(cfg, cs, i - 1), cs[i - 1]).0
  }

  function Answer(cfg: Config, cs: seq<Call>, i: nat): (r: Reply)
    requires i < |cs|
  {
    Serve(cfg, Before(cfg, cs, i), cs[i]).1
  }

  ghost predicate Monotone(cs: seq<Call>) {
    forall i, j :: 0 <= i <= j < |cs| ==> cs[i].at <= cs[j].at
  }

  /** An operation is armed exactly while the area is pending, and the area never enters a failed state. */
  lemma {:induction false} ArmedIffPending(cfg: Config, cs: seq<Call>, i: nat)
    requires i <= |cs|
    ensures var s := Before(cfg, cs, i);
            && (s.armed != Nothing <==> s.status == Pending)
            && (s.status == NoOperation || s.status == Succeed || s.status == Pending)
            && (s.armed == Reading ==> cfg.readMs > 0)
  {
    if i > 0 {
      ArmedIffPending(cfg, cs, i - 1);
    }
  }

  /** So a status call never reports a failure, whatever failed before it. */
  lemma StatusHidesFailures(cfg: Config, cs: seq<Call>, i: nat)
    requires i < |cs| && cs[i].GetStatus?
    ensures Answer(cfg, cs, i).status != Failed && Answer(cfg, cs, i).status != NoAvailable
  {
    ArmedIffPending(cfg, cs, i);
  }

  // ---- which operation is waiting ----

  /** Call `j` performed an operation whose completion is still to be reported. */
  ghost predicate Started(cfg: Config, cs: seq<Call>, j: nat) {
    && j < |cs| && Answer(cfg, cs, j).status == Pending
    && match cs[j]
       case Read(_, _, _, _) => Answer(cfg, cs, j).data.Some?
       case Write(_, _, _, _) => Before(cfg, cs, j).status != Pending
       case GetStatus(_) => false
  }

  function Delay(cfg: Config, c: Call): (ms: nat) {
    match c
    case Read(_, _, _, _) => cfg.readMs
    case Write(_, _, _, _) => cfg.writeMs
    case GetStatus(_) => 0
  }

  /** Call `k` neither reports success nor starts another operation. */
  ghost predicate Idle(cfg: Config, cs: seq<Call>, k: nat) {
    k < |cs| && Answer(cfg, cs, k).status != Succeed && !Started(cfg, cs, k)
  }

  /** The operation of call `j` is the one in progress before call `i`. */
  ghost predicate Waiting(cfg: Config, cs: seq<Call>, j: nat, i: nat) {
    j < i <= |cs| && Started(cfg, cs, j) && forall k: nat :: j < k < i ==> Idle(cfg, cs, k)
  }

  /** While it waits, the record is the one it armed. */
  lemma {:induction false} WaitingIsArmed(cfg: Config, cs: seq<Call>, j: nat, i: nat)
    requires Waiting(cfg, cs, j, i)
    ensures var s := Before(cfg, cs, i);
            && s.status == Pending && s.armed == (if cs[j].Read? then Reading else Writing)
            && s.doneAt == if Delay(cfg, cs[j]) == 0 then 0 else cs[j].at + Delay(cfg, cs[j])
  {
    if i > j + 1 {
      assert Idle(cfg, cs, i - 1);
      WaitingIsArmed(cfg, cs, j, i - 1);
    }
  }

  /** The area is pending exactly while some operation waits. */
  lemma PendingIff(cfg: Config, cs: seq<Call>, i: nat)
    requires i <= |cs|
    ensures Before(cfg, cs, i).status == Pending <==> exists j: nat :: Waiting(cfg, cs, j, i)
  {
    if Before(cfg, cs, i).status == Pending {
      var j := PendingCause(cfg, cs, i);
    }
    forall j: nat | Waiting(cfg, cs, j, i) ensures Before(cfg, cs, i).status == Pending {
      WaitingIsArmed(cfg, cs, j, i);
    }
  }

  lemma {:induction false} PendingCause(cfg: Config, cs: seq<Call>, i: nat) returns (j: nat)
    requires i <= |cs| && Before(cfg, cs, i).status == Pending
    ensures Waiting(cfg, cs, j, i)
  {
    if Started(cfg, cs, i - 1) {
      j := i - 1;
    } else {
      PendingStays(cfg, cs, i - 1);
      j := PendingCause(cfg, cs, i - 1);
    }
  }

  lemma PendingStays(cfg: Config, cs: seq<Call>, i: nat)
    requires i < |cs| && Before(cfg, cs, i + 1).status == Pending && !Started(cfg, cs, i)
    ensures Before(cfg, cs, i).status == Pending && Idle(cfg, cs, i)
  {
    hide Before;
    assert Before(cfg, cs, i + 1) == Serve(cfg, Before(cfg, cs, i), cs[i]).0 by {
      BeforeNext(cfg, cs, i);
    }
  }

  lemma BeforeNext(cfg: Config, cs: seq<Call>, i: nat)
    requires i < |cs|
    ensures Before(cfg, cs, i + 1) == Serve(cfg, Before(cfg, cs, i), cs[i]).0
  {
  }

  /** A call that can report the waiting operation: a status call, or a read while a read waits. */
  predicate Asks(c: Call, waiting: Call) {
    c.GetStatus? || (c.Read? && waiting.Read? && c.room <= MAX_SIZE)
  }

  /** Asked about a waiting operation, the area says SUCCEED exactly from its delay after its start on,
      and PENDING before. */
  lemma ReportedWhenDue(cfg: Config, cs: seq<Call>, j: nat, i: nat)
    requires Monotone(cs) && i < |cs| && Waiting(cfg, cs, j, i) && Asks(cs[i], cs[j])
    ensures Answer(cfg, cs, i).status == if cs[i].at >= cs[j].at + Delay(cfg, cs[j]) then Succeed else Pending
  {
    WaitingIsArmed(cfg, cs, j, i);
    ArmedIffPending(cfg, cs, i);
    hide Before, Waiting;
    assert cs[j].at <= cs[i].at;
  }

  /** Nothing reports SUCCEED for a waiting operation before its time, except a read that supersedes it. */
  lemma NeverReportedEarly(cfg: Config, cs: seq<Call>, j: nat, i: nat)
    requires Monotone(cs) && i < |cs| && Waiting(cfg, cs, j, i) && Answer(cfg, cs, i).status == Succeed
    ensures cs[i].at >= cs[j].at + Delay(cfg, cs[j]) || (cs[i].Read? && Answer(cfg, cs, i).data.Some?)
  {
    WaitingIsArmed(cfg, cs, j, i);
    ArmedIffPending(cfg, cs, i);
    hide Before, Waiting;
    assert cs[j].at <= cs[i].at;
  }

  // ---- what a status call says ----

  /** Call `j` completes an operation: a read that succeeds, or a status call that reports one waiting. */
  ghost predicate Completes(cfg: Config, cs: seq<Call>, j: nat) {
    && j < |cs| && Answer(cfg, cs, j).status == Succeed
    && (cs[j].Read? || exists w: nat :: Waiting(cfg, cs, w, j))
  }

  ghost predicate Neutral(cfg: Config, cs: seq<Call>, k: nat) {
    k < |cs| && !cs[k].GetStatus? && !Started(cfg, cs, k) && !Completes(cfg, cs, k)
  }

  /** The completion at `j` has not been asked about since. */
  ghost predicate Unasked(cfg: Config, cs: seq<Call>, j: nat, i: nat) {
    j < i <= |cs| && Completes(cfg, cs, j) && forall k: nat :: j < k < i ==> Neutral(cfg, cs, k)
  }

  lemma SucceedStep(cfg: Config, cs: seq<Call>, i: nat)
    requires i < |cs|
    ensures Completes(cfg, cs, i) ==> Before(cfg, cs, i + 1).status == Succeed
    ensures Neutral(cfg, cs, i) && Before(cfg, cs, i).status == Succeed ==> Before(cfg, cs, i + 1).status == Succeed
    ensures Before(cfg, cs, i + 1).status == Succeed && !Completes(cfg, cs, i)
            ==> Neutral(cfg, cs, i) && Before(cfg, cs, i).status == Succeed
  {
    PendingIff(cfg, cs, i);
    BeforeNext(cfg, cs, i);
    hide Before, Waiting;
  }

  lemma SucceedIff(cfg: Config, cs: seq<Call>, i: nat)
    requires i <= |cs|
    ensures Before(cfg, cs, i).status == Succeed <==> exists j: nat :: Unasked(cfg, cs, j, i)
  {
    if Before(cfg, cs, i).status == Succeed {
      var j := SucceedCause(cfg, cs, i);
    }
    forall j: nat | Unasked(cfg, cs, j, i) ensures Before(cfg, cs, i).status == Succeed {
      UnaskedIsSucceed(cfg, cs, j, i);
    }
  }

  lemma {:induction false} SucceedCause(cfg: Config, cs: seq<Call>, i: nat) returns (j: nat)
    requires i <= |cs| && Before(cfg, cs, i).status == Succeed
    ensures Unasked(cfg, cs, j, i)
  {
    hide Completes, Neutral, Serve;
    SucceedStep(cfg, cs, i - 1);
    if Completes(cfg, cs, i - 1) {
      j := i - 1;
    } else {
      j := SucceedCause(cfg, cs, i - 1);
    }
  }

  lemma {:induction false} UnaskedIsSucceed(cfg: Config, cs: seq<Call>, j: nat, i: nat)
    requires Unasked(cfg, cs, j, i)
    ensures Before(cfg, cs, i).status == Succeed
  {
    hide Completes, Neutral, Serve;
    SucceedStep(cfg, cs, i - 1);
    if j < i - 1 {
      assert Neutral(cfg, cs, i - 1);
      UnaskedIsSucceed(cfg, cs, j, i - 1);
    }
  }

  /** What a status call answers, in every run: SUCCEED if a waiting operation is due or a completion
      has not been asked about yet, PENDING if an operation waits and is not due, otherwise NO_OPERATION. */
  lemma StatusIff(cfg: Config, cs: seq<Call>, i: nat)
    requires Monotone(cs) && i < |cs| && cs[i].GetStatus?
    ensures Answer(cfg, cs, i).status == Succeed <==>
            (exists j: nat :: Waiting(cfg, cs, j, i) && cs[i].at >= cs[j].at + Delay(cfg, cs[j])) ||
            (exists j: nat :: Unasked(cfg, cs, j, i))
    ensures Answer(cfg, cs, i).status == Pending <==>
            exists j: nat :: Waiting(cfg, cs, j, i) && cs[i].at < cs[j].at + Delay(cfg, cs[j])
    ensures Answer(cfg, cs, i).status == NoOperation <==>
            !(exists j: nat :: Waiting(cfg, cs, j, i)) && !(exists j: nat :: Unasked(cfg, cs, j, i))
  {
    PendingIff(cfg, cs, i);
    SucceedIff(cfg, cs, i);
    ArmedIffPending(cfg, cs, i);
    var s := Before(cfg, cs, i);
    if j: nat :| Waiting(cfg, cs, j, i) {
      ReportedWhenDue(cfg, cs, j, i);
      forall k: nat | Waiting(cfg, cs, k, i) ensures k == j {
        OneWaits(cfg, cs, j, k, i);
      }
    }
    hide Before, Waiting, Unasked;
  }

  lemma OneWaits(cfg: Config, cs: seq<Call>, j: nat, k: nat, i: nat)
    requires Waiting(cfg, cs, j, i) && Waiting(cfg, cs, k, i)
    ensures j == k
  {
    if j < k {
      IdleMeanwhile(cfg, cs, j, i, k);
    } else if k < j {
      IdleMeanwhile(cfg, cs, k, i, j);
    }
  }

  lemma IdleMeanwhile(cfg: Config, cs: seq<Call>, j: nat, i: nat, k: nat)
    requires Waiting(cfg, cs, j, i) && j < k < i
    ensures Idle(cfg, cs, k)
  {
  }

  /** One completion is reported once by a status call that completes it, and once more by the next. */
  lemma ReportedTwice(cfg: Config, cs: seq<Call>, i: nat)
    requires i + 2 < |cs| && cs[i].GetStatus? && cs[i + 1].GetStatus? && cs[i + 2].GetStatus?
    requires Before(cfg, cs, i).status == Pending && Answer(cfg, cs, i).status == Succeed
    ensures Answer(cfg, cs, i + 1).status == Succeed && Answer(cfg, cs, i + 2).status == NoOperation
  {
    BeforeNext(cfg, cs, i);
    BeforeNext(cfg, cs, i + 1);
    hide Before;
  }

  // ---- the file ----

  /** A write that reaches the file. */
  ghost predicate Touches(cfg: Config, cs: seq<Call>, k: nat) {
    && k < |cs| && cs[k].Write? && cs[k].opens && |cs[k].data| <= MAX_SIZE
    && Before(cfg, cs, k).status != Pending
  }

  /** A valid write while an operation is in progress changes neither the file nor the record, and is
      answered like one that was accepted. */
  lemma WriteWhilePending(cfg: Config, cs: seq<Call>, i: nat)
    requires i < |cs| && cs[i].Write? && |cs[i].data| <= MAX_SIZE && Before(cfg, cs, i).status == Pending
    ensures Before(cfg, cs, i + 1) == Before(cfg, cs, i) && Answer(cfg, cs, i).status == Pending
  {
  }

  /** So PENDING means written exactly if no operation was in progress, or the file held that already. */
  lemma PendingMeansWrittenIff(cfg: Config, cs: seq<Call>, i: nat)
    requires i < |cs| && cs[i].Write? && Answer(cfg, cs, i).status == Pending
    ensures Before(cfg, cs, i + 1).file == cs[i].data <==>
            !(exists j: nat :: Waiting(cfg, cs, j, i)) || Before(cfg, cs, i).file == cs[i].data
  {
    PendingIff(cfg, cs, i);
    BeforeNext(cfg, cs, i);
    hide Before, Waiting;
  }

  /** Only a write that reaches the file changes it. */
  lemma FileStep(cfg: Config, cs: seq<Call>, i: nat)
    requires i < |cs|
    ensures Before(cfg, cs, i + 1).file ==
            if !Touches(cfg, cs, i) then Before(cfg, cs, i).file
            else if cs[i].put < |cs[i].data| then cs[i].data[..cs[i].put] else cs[i].data
  {
    BeforeNext(cfg, cs, i);
    hide Before;
  }

  lemma {:induction false} FileStays(cfg: Config, cs: seq<Call>, j: nat, i: nat)
    requires j <= i <= |cs| && forall k: nat :: j <= k < i ==> !Touches(cfg, cs, k)
    ensures Before(cfg, cs, i).file == Before(cfg, cs, j).file
  {
    if j < i {
      FileStays(cfg, cs, j, i - 1);
      FileStep(cfg, cs, i - 1);
    }
  }

  /** What a write stored, every later read that delivers data delivers, until a write reaches the file
      again; and it does deliver unless a read is waiting, the file does not open or is cut short, or
      the buffer is too small. */
  lemma ReadsWhatWasWritten(cfg: Config, cs: seq<Call>, j: nat, i: nat)
    requires j < i < |cs| && cs[j].Write? && Started(cfg, cs, j) && cs[i].Read?
    requires forall k: nat :: j < k < i ==> !Touches(cfg, cs, k)
    ensures Answer(cfg, cs, i).data.Some? ==> Answer(cfg, cs, i).data.value == cs[j].data
    ensures Answer(cfg, cs, i).data.Some? <==>
            && |cs[j].data| <= cs[i].room <= MAX_SIZE && cs[i].opens && cs[i].got >= |cs[j].data|
            && !exists w: nat :: Waiting(cfg, cs, w, i) && cs[w].Read?
  {
    FileStep(cfg, cs, j);
    FileStays(cfg, cs, j + 1, i);
    ReadWaits(cfg, cs, i);
    hide Before, Waiting;
  }

  lemma ReadWaits(cfg: Config, cs: seq<Call>, i: nat)
    requires i < |cs|
    ensures Before(cfg, cs, i).status == Pending && Before(cfg, cs, i).armed == Reading && cfg.readMs > 0
            <==> exists w: nat :: Waiting(cfg, cs, w, i) && cs[w].Read?
  {
    PendingIff(cfg, cs, i);
    ArmedIffPending(cfg, cs, i);
    if w: nat :| Waiting(cfg, cs, w, i) {
      WaitingIsArmed(cfg, cs, w, i);
      forall k: nat | Waiting(cfg, cs, k, i) ensures k == w {
        OneWaits(cfg, cs, w, k, i);
      }
    }
    hide Before, Waiting;
  }

  // ---- which calls are refused ----

  /** A read fails exactly if its size is not permitted or, with no read waiting, the file does not open, is
      larger than the buffer or is cut short.  Otherwise it delivers the file, unless it asks about a read
      that waits. */
  lemma ReadRefusedIff(cfg: Config, cs: seq<Call>, i: nat)
    requires i < |cs| && cs[i].Read?
    ensures var c, file, a := cs[i], Before(cfg, cs, i).file, Answer(cfg, cs, i);
            var waits := exists w: nat :: Waiting(cfg, cs, w, i) && cs[w].Read?;
            && (a.status == Failed || a.status == NoAvailable <==>
                c.room > 1024 || (!waits && (!c.opens || |file| > c.room || c.got < |file|)))
            && (a.data.Some? <==> a.status != Failed && a.status != NoAvailable && !waits)
            && (a.data.Some? ==> a.data.value == file && a.status == if cfg.readMs > 0 then Pending else Succeed)
  {
    ReadWaits(cfg, cs, i);
    hide Before, Waiting;
  }

  /** A write fails exactly if its size is not permitted or, with nothing waiting, the file does not open or
      does not take everything.  Otherwise it is answered PENDING. */
  lemma WriteRefusedIff(cfg: Config, cs: seq<Call>, i: nat)
    requires i < |cs| && cs[i].Write?
    ensures var c, a := cs[i], Answer(cfg, cs, i);
            var waits := exists w: nat :: Waiting(cfg, cs, w, i);
            && (a.status == Failed || a.status == NoAvailable <==>
                |c.data| > 1024 || (!waits && (!c.opens || c.put < |c.data|)))
            && (a.status != Failed && a.status != NoAvailable ==> a.status == Pending)
            && Before(cfg, cs, i + 1).file ==
               if |c.data| > 1024 || waits || !c.opens then Before(cfg, cs, i).file
               else if c.put < |c.data| then c.data[..c.put] else c.data
  {
    PendingIff(cfg, cs, i);
    BeforeNext(cfg, cs, i);
    hide Before, Waiting;
  }

  // ---- counting failures ----

  predicate SizeOk(c: Call) {
    match c
    case Read(_, room, _, _) => room <= MAX_SIZE
    case Write(_, data, _, _) => |data| <= MAX_SIZE
    case GetStatus(_) => true
  }

  /** Call `k` is answered as failed, for whatever reason. */
  ghost predicate Refused(cfg: Config, cs: seq<Call>, k: nat) {
    k < |cs| && (Answer(cfg, cs, k).status == Failed || Answer(cfg, cs, k).status == NoAvailable)
  }

  /** The file could not be used as asked. */
  ghost predicate FailsAt(cfg: Config, cs: seq<Call>, k: nat) {
    Refused(cfg, cs, k) && SizeOk(cs[k])
  }

  /** A read delivered data, or a status call completed an operation. */
  ghost predicate ClearsAt(cfg: Config, cs: seq<Call>, k: nat) {
    && k < |cs|
    && (Answer(cfg, cs, k).data.Some? || (cs[k].GetStatus? && Completes(cfg, cs, k)))
  }

  /** Failures before call `i` with none of those between. */
  ghost function InARow(cfg: Config, cs: seq<Call>, i: nat): (n: nat)
    requires i <= |cs|
  {
    if i == 0 || ClearsAt(cfg, cs, i - 1) then 0
    else InARow(cfg, cs, i - 1) + if FailsAt(cfg, cs, i - 1) then 1 else 0
  }

  lemma CountStep(cfg: Config, cs: seq<Call>, i: nat)
    requires i < |cs|
    ensures Before(cfg, cs, i + 1).failCount ==
            if ClearsAt(cfg, cs, i) then 0
            else if FailsAt(cfg, cs, i) then (Before(cfg, cs, i).failCount + 1) % 0x100
            else Before(cfg, cs, i).failCount
    ensures FailsAt(cfg, cs, i) ==>
            (Answer(cfg, cs, i).status == NoAvailable <==>
             (Before(cfg, cs, i).failCount + 1) % 0x100 >= FAILURES_ALLOWED)
  {
    ArmedIffPending(cfg, cs, i);
    PendingIff(cfg, cs, i);
    BeforeNext(cfg, cs, i);
    hide Before, Waiting;
  }

  lemma WrapAround(n: nat)
    ensures (n % 0x100 + 1) % 0x100 == (n + 1) % 0x100
  {
  }

  /** The record counts them in one octet. */
  lemma {:induction false} CountIsInARow(cfg: Config, cs: seq<Call>, i: nat)
    requires i <= |cs|
    ensures Before(cfg, cs, i).failCount == InARow(cfg, cs, i) % 0x100
  {
    hide Serve, Answer, ClearsAt, FailsAt;
    if i > 0 {
      CountIsInARow(cfg, cs, i - 1);
      CountStep(cfg, cs, i - 1);
      WrapAround(InARow(cfg, cs, i - 1));
      hide Before;
    }
  }

  /** What a failure is answered: NO_AVAILABLE exactly if its size was permitted and its number in the
      count, modulo 256, is three or more. */
  lemma NoAvailableIff(cfg: Config, cs: seq<Call>, i: nat)
    requires Refused(cfg, cs, i)
    ensures Answer(cfg, cs, i).status == NoAvailable
            <==> SizeOk(cs[i]) && (InARow(cfg, cs, i) + 1) % 0x100 >= FAILURES_ALLOWED
  {
    if SizeOk(cs[i]) {
      CountIsInARow(cfg, cs, i);
      CountStep(cfg, cs, i);
      WrapAround(InARow(cfg, cs, i));
    }
    hide Before, InARow;
  }

  // ---- what is promised of three failures ----

  /** Call `k` performs an operation, or reports one as completed. */
  ghost predicate Succeeds(cfg: Config, cs: seq<Call>, k: nat) {
    Started(cfg, cs, k) || Completes(cfg, cs, k)
  }

  /** Call `k` leaves a row of failures of `c`'s kind unbroken: no success and no failure of another kind. */
  ghost predicate Passes(cfg: Config, cs: seq<Call>, k: nat, c: Call) {
    && k < |cs| && !Succeeds(cfg, cs, k)
    && (Refused(cfg, cs, k) ==> cs[k].Read? == c.Read? && cs[k].Write? == c.Write?)
  }

  ghost predicate Unbroken(cfg: Config, cs: seq<Call>, from: nat, i: nat) {
    from <= i < |cs| && forall k: nat :: from <= k < i ==> Passes(cfg, cs, k, cs[i])
  }

  /** Call `i` fails, and so did the same kind of call twice before, with nothing to break the row. */
  ghost predicate ThirdInARow(cfg: Config, cs: seq<Call>, i: nat) {
    && Refused(cfg, cs, i)
    && exists a: nat, b: nat ::
         a < b < i && Refused(cfg, cs, a) && Refused(cfg, cs, b) && Unbroken(cfg, cs, a, i)
  }

  /** The promise: three consecutive failures of the same operation, and only they, are answered NO_AVAILABLE. */
  ghost predicate PromiseKept(cfg: Config, cs: seq<Call>, i: nat)
    requires i < |cs|
  {
    Answer(cfg, cs, i).status == NoAvailable <==> ThirdInARow(cfg, cs, i)
  }

  /** The code keeps it exactly if: a third failure in a row finds its size permitted and the count not
      just wrapped; any other failure finds its size not permitted or fewer than three failures counted. */
  lemma ThirdFailureIff(cfg: Config, cs: seq<Call>, i: nat)
    requires Refused(cfg, cs, i)
    ensures var n := (InARow(cfg, cs, i) + 1) % 0x100;
            PromiseKept(cfg, cs, i) <==>
            if ThirdInARow(cfg, cs, i) then SizeOk(cs[i]) && n >= FAILURES_ALLOWED
            else !SizeOk(cs[i]) || n < FAILURES_ALLOWED
  {
    NoAvailableIff(cfg, cs, i);
    hide Refused, ThirdInARow, InARow, Answer;
  }

  /** What clears the count breaks a row. */
  lemma ClearingSucceeds(cfg: Config, cs: seq<Call>, k: nat)
    requires ClearsAt(cfg, cs, k)
    ensures Succeeds(cfg, cs, k)
  {
    hide Before, Waiting;
  }

  lemma {:induction false} RowGrows(cfg: Config, cs: seq<Call>, a: nat, i: nat)
    requires a <= i <= |cs| && forall k: nat :: a <= k < i ==> !Succeeds(cfg, cs, k)
    ensures InARow(cfg, cs, i) >= InARow(cfg, cs, a)
    decreases i
  {
    hide Succeeds, ClearsAt, FailsAt;
    if a < i {
      if ClearsAt(cfg, cs, i - 1) {
        ClearingSucceeds(cfg, cs, i - 1);
      }
      RowGrows(cfg, cs, a, i - 1);
    }
  }

  lemma FailureCounts(cfg: Config, cs: seq<Call>, k: nat)
    requires Refused(cfg, cs, k) && SizeOk(cs[k]) && !Succeeds(cfg, cs, k)
    ensures InARow(cfg, cs, k + 1) == InARow(cfg, cs, k) + 1
  {
    if ClearsAt(cfg, cs, k) {
      ClearingSucceeds(cfg, cs, k);
    }
    hide Answer, Succeeds, ClearsAt;
  }

  /** Of calls of permitted size, a third failure in a row is at least the third counted. */
  lemma ThirdIsCounted(cfg: Config, cs: seq<Call>, i: nat)
    requires ThirdInARow(cfg, cs, i) && forall k :: 0 <= k < |cs| ==> SizeOk(cs[k])
    ensures InARow(cfg, cs, i) >= 2
  {
    hide Refused, Succeeds, InARow;
    var a: nat, b: nat :|
      a < b < i && Refused(cfg, cs, a) && Refused(cfg, cs, b) && Unbroken(cfg, cs, a, i);
    forall k: nat | a <= k < i ensures !Succeeds(cfg, cs, k) {
      assert Passes(cfg, cs, k, cs[i]);
    }
    FailureCounts(cfg, cs, a);
    FailureCounts(cfg, cs, b);
    RowGrows(cfg, cs, a + 1, b);
    RowGrows(cfg, cs, b + 1, i);
  }

  /** The last counted failure. */
  lemma {:induction false} LastFailure(cfg: Config, cs: seq<Call>, from: nat, i: nat) returns (b: nat)
    requires from <= i <= |cs| && InARow(cfg, cs, from) == 0 && InARow(cfg, cs, i) > 0
    ensures from <= b < i && Refused(cfg, cs, b) && InARow(cfg, cs, b) == InARow(cfg, cs, i) - 1
    decreases i
  {
    if FailsAt(cfg, cs, i - 1) && !ClearsAt(cfg, cs, i - 1) {
      b := i - 1;
    } else {
      b := LastFailure(cfg, cs, from, i - 1);
    }
    hide Answer, ClearsAt;
  }

  /** In plain use — permitted sizes, and since the count was last cleared only failures of one kind and
      no success — the promise is kept exactly until the count wraps. */
  lemma PlainUseIff(cfg: Config, cs: seq<Call>, from: nat, i: nat)
    requires Unbroken(cfg, cs, from, i) && InARow(cfg, cs, from) == 0 && Refused(cfg, cs, i)
    requires forall k :: 0 <= k < |cs| ==> SizeOk(cs[k])
    ensures var n := InARow(cfg, cs, i) + 1;
            && (ThirdInARow(cfg, cs, i) <==> n >= FAILURES_ALLOWED)
            && (PromiseKept(cfg, cs, i) <==> n < FAILURES_ALLOWED || n % 0x100 >= FAILURES_ALLOWED)
  {
    NoAvailableIff(cfg, cs, i);
    hide Answer, InARow, Passes, Refused;
    if InARow(cfg, cs, i) >= 2 {
      var b := LastFailure(cfg, cs, from, i);
      var a := LastFailure(cfg, cs, from, b);
      assert Unbroken(cfg, cs, a, i);
    }
    if ThirdInARow(cfg, cs, i) {
      ThirdIsCounted(cfg, cs, i);
    }
    hide ThirdInARow;
    SmallRemainder(InARow(cfg, cs, i) + 1);
  }

  lemma SmallRemainder(n: nat)
    ensures n < 0x100 ==> n % 0x100 == n
  {
  }

  // ---- runs in which the promises fail ----

  const FAILING_READ := Read(0, 0, false, 0)
  const FAILING_WRITE := Write(0, [], false, 0)

  function FailingReads(n: nat): (cs: seq<Call>)
    ensures |cs| == n
  {
    seq(n, _ => FAILING_READ)
  }

  lemma {:induction false} FailingReadsCount(cfg: Config, n: nat, i: nat)
    requires i <= n && i <= 0xFF
    ensures Before(cfg, FailingReads(n), i) == State(NoOperation, i, 0, Nothing, cfg.initial)
  {
    if i > 0 {
      FailingReadsCount(cfg, n, i - 1);
    }
  }

  /** The 256th failure in a row is answered as if it were one of the first. */
  lemma CountWraps(cfg: Config)
    ensures Answer(cfg, FailingReads(256), 254).status == NoAvailable
    ensures Answer(cfg, FailingReads(256), 255).status == Failed
    ensures ThirdInARow(cfg, FailingReads(256), 255) && !PromiseKept(cfg, FailingReads(256), 255)
  {
    var cs := FailingReads(256);
    FailingReadRefused(cfg, 253);
    FailingReadRefused(cfg, 254);
    FailingReadRefused(cfg, 255);
    FailingReadsCount(cfg, 256, 254);
    FailingReadsCount(cfg, 256, 255);
    hide Before, Completes, Started;
    assert Unbroken(cfg, cs, 253, 255);
  }

  lemma FailingReadRefused(cfg: Config, i: nat)
    requires i < 256
    ensures var cs := FailingReads(256);
            Refused(cfg, cs, i) && !Succeeds(cfg, cs, i)
  {
    FailingReadsCount(cfg, 256, i);
    hide Before, Waiting;
  }

  /** Three failing reads in a row, the first, the second and the third. */
  lemma ThirdReadIsNotAvailable(cfg: Config)
    ensures var cs := [FAILING_READ, FAILING_READ, FAILING_READ];
            && Answer(cfg, cs, 0).status == Failed && Answer(cfg, cs, 1).status == Failed
            && Answer(cfg, cs, 2).status == NoAvailable
  {
    var cs := [FAILING_READ, FAILING_READ, FAILING_READ];
    assert Before(cfg, cs, 1) == State(NoOperation, 1, 0, Nothing, cfg.initial);
    assert Before(cfg, cs, 2) == State(NoOperation, 2, 0, Nothing, cfg.initial);
  }

  /** A failing read, a failing write and a failing read: no operation fails twice in a row, and the
      third call is answered NO_AVAILABLE. */
  lemma MixedFailuresAreCountedTogether(cfg: Config)
    ensures var cs := [FAILING_READ, FAILING_WRITE, FAILING_READ];
            Answer(cfg, cs, 2).status == NoAvailable && !ThirdInARow(cfg, cs, 2) && !PromiseKept(cfg, cs, 2)
  {
    var cs := [FAILING_READ, FAILING_WRITE, FAILING_READ];
    assert Before(cfg, cs, 1) == State(NoOperation, 1, 0, Nothing, cfg.initial);
    assert Before(cfg, cs, 2) == State(NoOperation, 2, 0, Nothing, cfg.initial);
    hide Before;
    assert !Passes(cfg, cs, 1, cs[2]);
  }

  /** Two failing reads, a write that is accepted, and a failing read: the success in between does not
      end the row. */
  lemma AcceptedWriteDoesNotEndTheRow(initial: seq<byte>)
    ensures var cfg, cs := Config(0, 5, initial), [FAILING_READ, FAILING_READ, Write(0, [], true, 0), FAILING_READ];
            && Answer(cfg, cs, 2).status == Pending && Before(cfg, cs, 3).file == []
            && Answer(cfg, cs, 3).status == NoAvailable && !ThirdInARow(cfg, cs, 3) && !PromiseKept(cfg, cs, 3)
  {
    var cfg, cs := Config(0, 5, initial), [FAILING_READ, FAILING_READ, Write(0, [], true, 0), FAILING_READ];
    assert Before(cfg, cs, 1) == State(NoOperation, 1, 0, Nothing, initial);
    assert Before(cfg, cs, 2) == State(NoOperation, 2, 0, Nothing, initial);
    assert Before(cfg, cs, 3) == State(Pending, 2, 5, Writing, []);
    hide Before;
    assert Started(cfg, cs, 2);
    assert !Passes(cfg, cs, 2, cs[3]);
  }

  /** Calls of a size that is not permitted fail for ever without being counted. */
  lemma WrongSizesAreNotCounted(cfg: Config)
    ensures var c := Read(0, MAX_SIZE + 1, true, 0);
            ThirdInARow(cfg, [c, c, c], 2) && Answer(cfg, [c, c, c], 2).status == Failed
              && !PromiseKept(cfg, [c, c, c], 2)
  {
    var c := Read(0, MAX_SIZE + 1, true, 0);
    var cs := [c, c, c];
    var s := State(NoOperation, 0, 0, Nothing, cfg.initial);
    assert Before(cfg, cs, 1) == s && Before(cfg, cs, 2) == s;
    hide Before;
    assert Refused(cfg, cs, 0) && Refused(cfg, cs, 1) && Refused(cfg, cs, 2);
    assert Passes(cfg, cs, 0, c) && Passes(cfg, cs, 1, c);
    assert Unbroken(cfg, cs, 0, 2);
  }

  /** After three failures the status call answers that nothing has happened. */
  lemma StatusAfterFailures(cfg: Config)
    ensures var cs := [FAILING_READ, FAILING_READ, FAILING_READ, GetStatus(0)];
            Answer(cfg, cs, 2).status == NoAvailable && Answer(cfg, cs, 3).status == NoOperation
  {
    var cs := [FAILING_READ, FAILING_READ, FAILING_READ, GetStatus(0)];
    assert Before(cfg, cs, 1) == State(NoOperation, 1, 0, Nothing, cfg.initial);
    assert Before(cfg, cs, 2) == State(NoOperation, 2, 0, Nothing, cfg.initial);
    assert Before(cfg, cs, 3) == State(NoOperation, 3, 0, Nothing, cfg.initial);
    hide Before;
  }

  /** Two writes, the second while the first still waits: both are answered PENDING, the first is stored. */
  lemma SecondWriteIsLost(initial: seq<byte>)
    ensures var cfg, cs := Config(0, 5, initial), [Write(0, [1], true, 1), Write(1, [2], true, 1)];
            && Answer(cfg, cs, 0).status == Pending && Answer(cfg, cs, 1).status == Pending
            && Before(cfg, cs, 2).file == [1]
  {
    var cfg, cs := Config(0, 5, initial), [Write(0, [1], true, 1), Write(1, [2], true, 1)];
    assert Before(cfg, cs, 1) == State(Pending, 0, 5, Writing, [1]);
  }

  // ---- the area itself ----

  class Area {
    const readMs: nat
    const writeMs: nat
    var status: Status
    var failCount: byte
    var doneAt: nat
    var armed: Armed
    var file: seq<byte>

    ghost function Now(): (s: State)
      reads this
    {
      State(status, failCount, doneAt, armed, file)
    }

    ghost function Settings(): (cfg: Config) {
      Config(readMs, writeMs, [])
    }

    constructor (readMs: nat, writeMs: nat, file: seq<byte>)
      ensures this.readMs == readMs && this.writeMs == writeMs
      ensures Now() == Before(Config(readMs, writeMs, file), [], 0)
    {
      this.readMs, this.writeMs := readMs, writeMs;
      status, failCount, doneAt, armed, this.file := NoOperation, 0, 0, Nothing, file;
    }

    method ArmPending(delay: nat, op: Armed, now: nat)
      modifies this
      ensures Now() == old(Now()).Arm(delay, op, now)
    {
      status := Pending;
      armed := op;
      doneAt := if delay == 0 then 0 else now + delay;
    }

    method CountFailure() returns (answer: Status)
      modifies this
      ensures (Now(), Reply(answer, None)) == Fail(old(Now()))
    {
      failCount := (failCount + 1) % 0x100;
      if failCount >= FAILURES_ALLOWED {
        return NoAvailable;
      }
      return Failed;
    }

    method ReadData(now: nat, room: nat, opens: bool, got: nat) returns (answer: Status, data: Option<seq<byte>>)
      modifies this
      ensures (Now(), Reply(answer, data)) == Serve(Settings(), old(Now()), Call.Read(now, room, opens, got))
    {
      data := None;
      if room > MAX_SIZE {
        return Failed, None;
      }
      if readMs > 0 && status == Pending && armed == Reading {
        if !(doneAt == 0 || now >= doneAt) {
          return Pending, None;
        }
        status, armed := Succeed, Nothing;
        return Succeed, None;
      }
      if !opens {
        answer := CountFailure();
        return;
      }
      if |file| > room {
        answer := CountFailure();
        return;
      }
      if got < |file| {
        answer := CountFailure();
        return;
      }
      data := Some(file);
      failCount := 0;
      if readMs > 0 {
        ArmPending(readMs, Reading, now);
        return Pending, data;
      }
      status, armed := Succeed, Nothing;
      return Succeed, data;
    }

    method WriteData(now: nat, data: seq<byte>, opens: bool, put: nat) returns (answer: Status)
      modifies this
      ensures (Now(), Reply(answer, None)) == Serve(Settings(), old(Now()), Call.Write(now, data, opens, put))
    {
      if |data| > MAX_SIZE {
        return Failed;
      }
      if status == Pending {
        return Pending;
      }
      if !opens {
        answer := CountFailure();
        return;
      }
      file := if put < |data| then data[..put] else data;
      if put < |data| {
        answer := CountFailure();
        return;
      }
      ArmPending(writeMs, Writing, now);
      return Pending;
    }

    method GetStatus(now: nat) returns (answer: Status)
      modifies this
      ensures (Now(), Reply(answer, None)) == Serve(Settings(), old(Now()), Call.GetStatus(now))
    {
      if status == Pending {
        if !(doneAt == 0 || now >= doneAt) {
          return Pending;
        }
        status, failCount, armed := Succeed, 0, Nothing;
        return Succeed;
      }
      answer := status;
      status := NoOperation;
    }
  }
}
