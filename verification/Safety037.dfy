/** The safety-037 session: delayed connection success, delayed disconnection failure and loss detection. */
module Safety037 {
  import opened Wrappers

  /** Clock ticks in a millisecond: the session's clock counts nanoseconds. */
  const TICKS := 1_000_000

  datatype Status = Success | Lost | Failure

  datatype Config = Config(lossMs: int, connectMs: int, disconnectMs: int, dynamicPeer: bool)

  /** The fields of a session that its timing depends on. */
  datatype State = State(connected: bool, connectPending: bool, disconnectPending: bool, armed: bool,
                         connectDeadline: int, disconnectDeadline: int, lastReceive: int)

  const INITIAL := State(false, false, false, false, 0, 0, 0)

  /** Whole milliseconds in a duration, truncated toward zero. */
  function Millis(d: int): (ms: int) {
    if d >= 0 then d / TICKS else -((-d) / TICKS)
  }

  lemma MillisReached(d: int, ms: int)
    requires ms > 0
    ensures Millis(d) >= ms <==> d >= ms * TICKS
  {
  }

  function OnConnect(cfg: Config, s: State, now: int): (t: State) {
    s.(connectPending := true, disconnectPending := false, connected := false, armed := false,
       connectDeadline := now + cfg.connectMs * TICKS)
  }

  function OnDisconnect(cfg: Config, s: State, now: int): (t: State) {
    s.(disconnectPending := true, connectPending := false, connected := false, armed := false,
       disconnectDeadline := now + cfg.disconnectMs * TICKS)
  }

  function OnReceive(cfg: Config, s: State, now: int): (t: State) {
    if cfg.lossMs > 0 && s.connected then s.(armed := true, lastReceive := now) else s
  }

  function OnTick(cfg: Config, s: State, now: int): (r: (State, Option<Status>)) {
    if s.connectPending && now >= s.connectDeadline then
      var t := s.(connectPending := false, connected := true);
      (if cfg.lossMs > 0 then t.(armed := true, lastReceive := now) else t, Some(Success))
    else if s.disconnectPending && now >= s.disconnectDeadline then
      (s.(disconnectPending := false, connected := false, armed := false), Some(Failure))
    else if s.connected && s.armed && cfg.lossMs > 0 && Millis(now - s.lastReceive) >= cfg.lossMs then
      (s.(connected := false, armed := false), Some(Lost))
    else (s, None)
  }

  // ---- runs ----

  /** A CONNECT also says whether its peer address could be applied; only data that was forwarded counts
      as received. */
  datatype Event = Connect(at: int, peerApplied: bool) | Disconnect(at: int) | Receive(at: int) | Tick(at: int)

  predicate AcceptedConnect(cfg: Config, e: Event) {
    e.Connect? && (cfg.dynamicPeer ==> e.peerApplied)
  }

  predicate Request(cfg: Config, e: Event) {
    AcceptedConnect(cfg, e) || e.Disconnect?
  }

  function Step(cfg: Config, s: State, e: Event): (t: State) {
    match e
    case Connect(at, _) => if AcceptedConnect(cfg, e) then OnConnect(cfg, s, at) else s
    case Disconnect(at) => OnDisconnect(cfg, s, at)
    case Receive(at) => OnReceive(cfg, s, at)
    case Tick(at) => OnTick(cfg, s, at).0
  }

  /** The state before event `i` of a run. */
  function Before(cfg: Config, es: seq<Event>, i: nat): (s: State)
    requires i <= |es|
  {
    if i == 0 then INITIAL else Step(cfg, Before(cfg, es, i - 1), es[i - 1])
  }

  /** The status emitted at event `i`, if any. */
  function Emitted(cfg: Config, es: seq<Event>, i: nat): (o: Option<Status>)
    requires i < |es|
  {
    if es[i].Tick? then OnTick(cfg, Before(cfg, es, i), es[i].at).1 else None
  }

  /** In every run at most one of the three modes holds, and loss detection is armed exactly while
      connected with a positive timeout. */
  lemma {:induction false} OneMode(cfg: Config, es: seq<Event>, i: nat)
    requires i <= |es|
    ensures var s := Before(cfg, es, i);
            && !(s.connected && s.connectPending) && !(s.connected && s.disconnectPending)
            && !(s.connectPending && s.disconnectPending)
            && (s.armed <==> s.connected && cfg.lossMs > 0)
  {
    if i > 0 {
      OneMode(cfg, es, i - 1);
    }
  }

  /** Event `k` neither asks for a change of mode nor announces one. */
  ghost predicate Calm(cfg: Config, es: seq<Event>, k: nat) {
    k < |es| && !Request(cfg, es[k]) && Emitted(cfg, es, k) == None
  }

  ghost predicate Quiet(cfg: Config, es: seq<Event>, from: nat, to: nat) {
    forall k :: from <= k < to ==> Calm(cfg, es, k)
  }

  lemma QuietIsCalm(cfg: Config, es: seq<Event>, from: nat, to: nat, k: nat)
    requires Quiet(cfg, es, from, to) && from <= k < to
    ensures Calm(cfg, es, k)
  {
  }

  /** No data was received at the events from `from` up to `to`. */
  ghost predicate Silent(es: seq<Event>, from: nat, to: nat) {
    to <= |es| && forall k :: from <= k < to ==> !es[k].Receive?
  }

  /** A CONNECT at `j` is still waiting for its answer before event `i`. */
  ghost predicate Connecting(cfg: Config, es: seq<Event>, j: nat, i: nat) {
    j < i <= |es| && AcceptedConnect(cfg, es[j]) && Quiet(cfg, es, j + 1, i)
  }

  ghost predicate Disconnecting(cfg: Config, es: seq<Event>, j: nat, i: nat) {
    j < i <= |es| && es[j].Disconnect? && Quiet(cfg, es, j + 1, i)
  }

  /** Connected since the SUCCESS at `j`, and last heard of at `k`. */
  ghost predicate Listening(cfg: Config, es: seq<Event>, j: nat, k: nat, i: nat) {
    && j <= k < i <= |es| && Emitted(cfg, es, j) == Some(Success) && Quiet(cfg, es, j + 1, i)
    && (k == j || es[k].Receive?) && Silent(es, k + 1, i)
  }

  lemma CalmKeepsMode(cfg: Config, es: seq<Event>, i: nat)
    requires Calm(cfg, es, i)
    ensures var s, t := Before(cfg, es, i), Before(cfg, es, i + 1);
            if es[i].Receive? then t == OnReceive(cfg, s, es[i].at) else t == s
  {
  }

  lemma {:induction false} ConnectingState(cfg: Config, es: seq<Event>, j: nat, i: nat)
    requires Connecting(cfg, es, j, i)
    ensures var s := Before(cfg, es, i);
            s.connectPending && !s.connected && !s.disconnectPending
              && s.connectDeadline == es[j].at + cfg.connectMs * TICKS
    decreases i
  {
    if j + 1 < i {
      ConnectingState(cfg, es, j, i - 1);
      assert Calm(cfg, es, i - 1);
      CalmKeepsMode(cfg, es, i - 1);
    }
  }

  lemma {:induction false} DisconnectingState(cfg: Config, es: seq<Event>, j: nat, i: nat)
    requires Disconnecting(cfg, es, j, i)
    ensures var s := Before(cfg, es, i);
            s.disconnectPending && !s.connected && !s.connectPending
            && s.disconnectDeadline == es[j].at + cfg.disconnectMs * TICKS
    decreases i
  {
    if j + 1 < i {
      DisconnectingState(cfg, es, j, i - 1);
      assert Calm(cfg, es, i - 1);
      CalmKeepsMode(cfg, es, i - 1);
    }
  }

  lemma {:induction false} ListeningState(cfg: Config, es: seq<Event>, j: nat, k: nat, i: nat)
    requires Listening(cfg, es, j, k, i)
    ensures var s := Before(cfg, es, i);
            s.connected && !s.connectPending && !s.disconnectPending
              && (cfg.lossMs > 0 ==> s.armed && s.lastReceive == es[k].at)
    decreases i
  {
    if j + 1 == i {
      OneMode(cfg, es, j);
    } else {
      assert Calm(cfg, es, i - 1);
      CalmKeepsMode(cfg, es, i - 1);
      if k < i - 1 {
        assert !es[i - 1].Receive?;
        ListeningState(cfg, es, j, k, i - 1);
      } else {
        var m := LastHeard(cfg, es, j, i - 1);
        ListeningState(cfg, es, j, m, i - 1);
      }
    }
  }

  /** The last event at which a connection was heard of. */
  lemma {:induction false} LastHeard(cfg: Config, es: seq<Event>, j: nat, i: nat) returns (k: nat)
    requires j < i <= |es| && Emitted(cfg, es, j) == Some(Success) && Quiet(cfg, es, j + 1, i)
    ensures Listening(cfg, es, j, k, i)
    decreases i
  {
    if j + 1 == i {
      k := j;
    } else if es[i - 1].Receive? {
      k := i - 1;
    } else {
      k := LastHeard(cfg, es, j, i - 1);
    }
  }

  /** What put the session into the mode it is in before event `i`. */
  lemma {:induction false} Cause(cfg: Config, es: seq<Event>, i: nat) returns (j: nat, k: nat)
    requires i <= |es|
    ensures var s := Before(cfg, es, i);
            && (s.connectPending ==> Connecting(cfg, es, j, i))
            && (s.disconnectPending ==> Disconnecting(cfg, es, j, i))
            && (s.connected ==> Listening(cfg, es, j, k, i))
    decreases i
  {
    j, k := 0, 0;
    if i > 0 {
      OneMode(cfg, es, i - 1);
      if Calm(cfg, es, i - 1) {
        j, k := Cause(cfg, es, i - 1);
        CalmKeepsMode(cfg, es, i - 1);
        if Before(cfg, es, i).connected && es[i - 1].Receive? { k := i - 1; }
      } else {
        j, k := i - 1, i - 1;
      }
    }
  }

  // ---- exactly when each status is emitted ----

  /** SUCCESS: exactly at a tick not before a CONNECT's delay, with no request or status since it. */
  lemma SuccessIff(cfg: Config, es: seq<Event>, i: nat)
    requires i < |es| && es[i].Tick?
    ensures Emitted(cfg, es, i) == Some(Success) <==>
            exists j: nat :: Connecting(cfg, es, j, i) && es[i].at >= es[j].at + cfg.connectMs * TICKS
  {
    var s := Before(cfg, es, i);
    if Emitted(cfg, es, i) == Some(Success) {
      var j, k := Cause(cfg, es, i);
      ConnectingState(cfg, es, j, i);
    }
    forall j: nat | Connecting(cfg, es, j, i)
      ensures s.connectPending && s.connectDeadline == es[j].at + cfg.connectMs * TICKS
    {
      ConnectingState(cfg, es, j, i);
    }
  }

  /** FAILURE: the same for a DISCONNECT. */
  lemma FailureIff(cfg: Config, es: seq<Event>, i: nat)
    requires i < |es| && es[i].Tick?
    ensures Emitted(cfg, es, i) == Some(Failure) <==>
            exists j: nat :: Disconnecting(cfg, es, j, i) && es[i].at >= es[j].at + cfg.disconnectMs * TICKS
  {
    var s := Before(cfg, es, i);
    OneMode(cfg, es, i);
    if Emitted(cfg, es, i) == Some(Failure) {
      var j, k := Cause(cfg, es, i);
      DisconnectingState(cfg, es, j, i);
    }
    forall j: nat | Disconnecting(cfg, es, j, i)
      ensures s.disconnectPending && s.disconnectDeadline == es[j].at + cfg.disconnectMs * TICKS
    {
      DisconnectingState(cfg, es, j, i);
    }
  }

  /** LOST: exactly at a tick that comes the loss timeout or more after the connection's SUCCESS or its
      last data, whichever is later. */
  lemma LostIff(cfg: Config, es: seq<Event>, i: nat)
    requires i < |es| && es[i].Tick?
    ensures Emitted(cfg, es, i) == Some(Lost) <==>
            cfg.lossMs > 0 && exists j: nat, k: nat ::
              Listening(cfg, es, j, k, i) && es[i].at - es[k].at >= cfg.lossMs * TICKS
  {
    var s := Before(cfg, es, i);
    OneMode(cfg, es, i);
    if cfg.lossMs > 0 {
      MillisReached(es[i].at - s.lastReceive, cfg.lossMs);
      if Emitted(cfg, es, i) == Some(Lost) {
        var j, k := Cause(cfg, es, i);
        ListeningState(cfg, es, j, k, i);
      }
      forall j: nat, k: nat | Listening(cfg, es, j, k, i)
        ensures s.connected && !s.connectPending && !s.disconnectPending && s.armed && s.lastReceive == es[k].at
      {
        ListeningState(cfg, es, j, k, i);
      }
    }
  }

  ghost predicate Monotone(es: seq<Event>) {
    forall i, j :: 0 <= i <= j < |es| ==> es[i].at <= es[j].at
  }

  /** Under a monotone clock a loss is announced only when the timeout has passed since the SUCCESS and
      since everything received in that connection. */
  lemma LostIsOverdue(cfg: Config, es: seq<Event>, i: nat)
    requires i < |es| && Monotone(es) && Emitted(cfg, es, i) == Some(Lost)
    ensures exists j ::
              && 0 <= j < i && Emitted(cfg, es, j) == Some(Success) && Quiet(cfg, es, j + 1, i)
              && es[i].at - es[j].at >= cfg.lossMs * TICKS
              && forall k :: j < k < i && es[k].Receive? ==> es[i].at - es[k].at >= cfg.lossMs * TICKS
  {
    LostIff(cfg, es, i);
    var j: nat, k: nat :| Listening(cfg, es, j, k, i) && es[i].at - es[k].at >= cfg.lossMs * TICKS;
    assert es[j].at <= es[k].at;
  }

  /** What a status answers: for SUCCESS and FAILURE a request, for LOST a SUCCESS. */
  ghost predicate Answers(cfg: Config, es: seq<Event>, i: nat, j: nat) {
    && j < i < |es| && es[i].Tick?
    && match Emitted(cfg, es, i)
       case Some(Success) => Connecting(cfg, es, j, i)
       case Some(Failure) => Disconnecting(cfg, es, j, i)
       case Some(Lost) => Emitted(cfg, es, j) == Some(Success) && Quiet(cfg, es, j + 1, i)
       case None => false
  }

  /** Every status answers something. */
  lemma EveryStatusAnswers(cfg: Config, es: seq<Event>, i: nat) returns (j: nat)
    requires i < |es| && Emitted(cfg, es, i) != None
    ensures Answers(cfg, es, i, j)
  {
    OneMode(cfg, es, i);
    var k;
    j, k := Cause(cfg, es, i);
  }

  /** No two statuses answer the same thing: a request has at most one SUCCESS or FAILURE, none once it is
      superseded, and between two LOST there is a SUCCESS. */
  lemma AnswersAreDistinct(cfg: Config, es: seq<Event>, i: nat, j: nat, i': nat, j': nat)
    requires Answers(cfg, es, i, j) && Answers(cfg, es, i', j') && i < i'
    requires Emitted(cfg, es, i) == Emitted(cfg, es, i')
            || (!Emitted(cfg, es, i).value.Lost? && !Emitted(cfg, es, i').value.Lost?)
    ensures j < i < j' < i'
  {
    if j' < i {
      QuietIsCalm(cfg, es, j' + 1, i', i);
    }
  }

  // ---- the session ----

  datatype Result = Ok | InvalidArgument | WouldBlock | NotConnected | SendFailed | ReceiveFailed | ForwardFailed

  /** What the connection gives when asked for data: a packet, with whether it could be forwarded, or a fault. */
  datatype Received = Packet(forwarded: bool) | Fault(notOpen: bool)

  datatype Message = ConnectRequest(peerApplied: bool) | DisconnectRequest | AppData(empty: bool, sent: Result)
                   | OtherMessage

  class Session {
    const cfg: Config
    const skip: bool
    const hasConnection: bool
    var peripheral: nat
    var connected: bool
    var connectPending: bool
    var disconnectPending: bool
    var armed: bool
    var connectDeadline: int
    var disconnectDeadline: int
    var lastReceive: int

    ghost function Model(): (s: State)
      reads this
    {
      State(connected, connectPending, disconnectPending, armed, connectDeadline, disconnectDeadline, lastReceive)
    }

    constructor (cfg: Config, skip: bool, hasConnection: bool)
      ensures Model() == INITIAL && this.cfg == cfg && this.skip == skip && this.hasConnection == hasConnection
    {
      this.cfg, this.skip, this.hasConnection := cfg, skip, hasConnection;
      peripheral := 0;
      connected, connectPending, disconnectPending, armed := false, false, false, false;
      connectDeadline, disconnectDeadline, lastReceive := 0, 0, 0;
    }

    method ScheduleConnectSuccess(now: int)
      modifies this
      ensures Model() == OnConnect(cfg, old(Model()), now) && peripheral == old(peripheral)
    {
      connectPending := true;
      disconnectPending := false;
      connected := false;
      armed := false;
      connectDeadline := now + cfg.connectMs * TICKS;
    }

    method ScheduleDisconnectFailure(now: int)
      modifies this
      ensures Model() == OnDisconnect(cfg, old(Model()), now) && peripheral == old(peripheral)
    {
      disconnectPending := true;
      connectPending := false;
      connected := false;
      armed := false;
      disconnectDeadline := now + cfg.disconnectMs * TICKS;
    }

    method HandleReceiveActivity(now: int)
      modifies this
      ensures Model() == OnReceive(cfg, old(Model()), now) && peripheral == old(peripheral)
    {
      if cfg.lossMs <= 0 {
        return;
      }
      if connected {
        armed := true;
        lastReceive := now;
      }
    }

    /** Read what the connection has, in order, until it would block.  Only a packet that was forwarded
        counts as data. */
    method DoInput(now: int, packets: seq<Received>) returns (result: Result)
      modifies this
      ensures peripheral == old(peripheral)
      ensures Model() == if hasConnection && |packets| > 0 && packets[0] == Packet(true)
                         then OnReceive(cfg, old(Model()), now) else old(Model())
      ensures result == if !hasConnection then InvalidArgument else ReadAll(packets)
    {
      if !hasConnection {
        return InvalidArgument;
      }
      var any := false;
      for i := 0 to |packets|
        invariant peripheral == old(peripheral) && any == (i > 0)
        invariant i > 0 ==> packets[0] == Packet(true)
        invariant Model() == if i > 0 then OnReceive(cfg, old(Model()), now) else old(Model())
        invariant ReadAll(packets) == if packets[i..] == [] && i > 0 then Ok else ReadAll(packets[i..])
      {
        if packets[i].Fault? {
          return if packets[i].notOpen then NotConnected else ReceiveFailed;
        }
        if !packets[i].forwarded {
          return ForwardFailed;
        }
        any := true;
        HandleReceiveActivity(now);
        assert packets[i..][1..] == packets[i + 1..];
      }
      if !any {
        return WouldBlock;
      }
      return Ok;
    }

    /** The periodic step. */
    method DoOutput(now: int, forwarded: bool) returns (result: Result, emitted: Option<Status>)
      modifies this
      ensures peripheral == old(peripheral)
      ensures if !hasConnection then result == InvalidArgument && emitted == None && Model() == old(Model())
              else (Model(), emitted) == OnTick(cfg, old(Model()), now)
                   && result == if emitted != None && !forwarded then ForwardFailed else Ok
    {
      if !hasConnection {
        return InvalidArgument, None;
      }
      if connectPending && now >= connectDeadline {
        connectPending := false;
        connected := true;
        if cfg.lossMs > 0 {
          armed := true;
          lastReceive := now;
        }
        return if forwarded then Ok else ForwardFailed, Some(Success);
      }
      if disconnectPending && now >= disconnectDeadline {
        disconnectPending := false;
        connected := false;
        armed := false;
        return if forwarded then Ok else ForwardFailed, Some(Failure);
      }
      if connected && armed && cfg.lossMs > 0 {
        var elapsed := Millis(now - lastReceive);
        if elapsed >= cfg.lossMs {
          connected := false;
          armed := false;
          return if forwarded then Ok else ForwardFailed, Some(Lost);
        }
      }
      return Ok, None;
    }

    /** A message from the application. */
    method Output(msg: Message, peripheralNumber: nat, now: int) returns (result: Result)
      modifies this
      ensures if skip || !hasConnection then Model() == old(Model()) && peripheral == old(peripheral)
              else match msg
                   case ConnectRequest(applied) =>
                     peripheral == peripheralNumber && Model() == Step(cfg, old(Model()), Connect(now, applied))
                   case DisconnectRequest => peripheral == old(peripheral)
                        && Model() == Step(cfg, old(Model()), Disconnect(now))
                   case _ => peripheral == old(peripheral) && Model() == old(Model())
      ensures result == if skip then Ok else if !hasConnection then InvalidArgument
              else match msg
                   case ConnectRequest(applied) => if cfg.dynamicPeer && !applied then InvalidArgument else Ok
                   case DisconnectRequest => Ok
                   case AppData(empty, sent) => if empty then InvalidArgument else sent
                   case OtherMessage => InvalidArgument
    {
      if skip {
        return Ok;
      }
      if !hasConnection {
        return InvalidArgument;
      }
      match msg
      case ConnectRequest(applied) =>
        peripheral := peripheralNumber;
        if cfg.dynamicPeer && !applied {
          return InvalidArgument;
        }
        ScheduleConnectSuccess(now);
        return Ok;
      case DisconnectRequest =>
        ScheduleDisconnectFailure(now);
        return Ok;
      case AppData(empty, sent) =>
        if empty {
          return InvalidArgument;
        }
        return sent;
      case OtherMessage =>
        return InvalidArgument;
    }
  }

  /** The result of reading packets until the connection would block. */
  function ReadAll(packets: seq<Received>): (r: Result) {
    if packets == [] then WouldBlock
    else if packets[0].Fault? then if packets[0].notOpen then NotConnected else ReceiveFailed
    else if !packets[0].forwarded then ForwardFailed
    else if |packets| == 1 then Ok
    else ReadAll(packets[1..])
  }

  /** The first packet that was not forwarded, or the fault that ends the reading, decides the result; if the
      connection has no more data, it is whether there was any. */
  lemma {:induction false} ReadAllIs(packets: seq<Received>, k: nat)
    requires k <= |packets| && forall i :: 0 <= i < k ==> packets[i] == Packet(true)
    requires k < |packets| ==> packets[k] != Packet(true)
    ensures k < |packets| && packets[k] == Packet(false) ==> ReadAll(packets) == ForwardFailed
    ensures k < |packets| && packets[k] == Fault(true) ==> ReadAll(packets) == NotConnected
    ensures k < |packets| && packets[k] == Fault(false) ==> ReadAll(packets) == ReceiveFailed
    ensures k == |packets| ==> ReadAll(packets) == if k > 0 then Ok else WouldBlock
  {
    if k > 0 && |packets| > 1 {
      ReadAllIs(packets[1..], k - 1);
    }
  }

  /** A run in nanoseconds, with delays of two seconds and half a second and a loss timeout of one second. */
  lemma ARunInSeconds()
    ensures var cfg := Config(1000, 2000, 500, false);
            var es := [Connect(0, true), Tick(1_999_999_999), Tick(2_000_000_000), Tick(2_999_999_999),
                       Tick(3_000_000_000), Disconnect(4_000_000_000), Tick(4_499_999_999), Tick(4_500_000_000)];
            && Emitted(cfg, es, 1) == None && Emitted(cfg, es, 2) == Some(Success)
            && Emitted(cfg, es, 3) == None && Emitted(cfg, es, 4) == Some(Lost)
            && Emitted(cfg, es, 6) == None && Emitted(cfg, es, 7) == Some(Failure)
  {
    var cfg := Config(1000, 2000, 500, false);
    var es := [Connect(0, true), Tick(1_999_999_999), Tick(2_000_000_000), Tick(2_999_999_999),
               Tick(3_000_000_000), Disconnect(4_000_000_000), Tick(4_499_999_999), Tick(4_500_000_000)];
    assert Before(cfg, es, 1) == State(false, true, false, false, 2_000_000_000, 0, 0);
    assert Before(cfg, es, 2) == Before(cfg, es, 1);
    assert Before(cfg, es, 3) == State(true, false, false, true, 2_000_000_000, 0, 2_000_000_000);
    assert Before(cfg, es, 4) == Before(cfg, es, 3);
    assert Before(cfg, es, 5) == State(false, false, false, false, 2_000_000_000, 0, 2_000_000_000);
    assert Before(cfg, es, 6) == State(false, false, true, false, 2_000_000_000, 4_500_000_000, 2_000_000_000);
    assert Before(cfg, es, 7) == Before(cfg, es, 6);
  }
}
