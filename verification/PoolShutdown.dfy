/** The worker pool of the asynchronous logger and its shutdown by poison messages, as interleaved
    critical sections, condition-variable sleeps and notifications. */
module PoolShutdown {
  import opened Wrappers
  import opened LogQueue

  datatype Kind = LogMsg | Flush | Terminate

  /** A message and its place in the order in which messages were offered. */
  datatype Msg = Msg(kind: Kind, serial: nat)

  /** Trying: about to take the lock and look at the queue.  Asleep: waiting for a push.
      Notifying: has taken a message out and still has to notify.  Handling: working on it. */
  datatype Worker = Trying | Asleep | Notifying(msg: Msg) | Handling(msg: Msg) | Exited

  /** The thread that destroys the pool: not there yet, posting terminate messages, waiting for room,
      about to notify after a post, or joining the workers. */
  datatype Closer = Absent | Posting | Blocked | Announcing | Joining

  /** What an offer that does not wait does when the queue is full.  Blocking offers are producers of their own. */
  datatype Policy = OverrunOldest | DiscardNew

  datatype State = State(capacity: nat, queue: seq<Msg>, workers: seq<Worker>, closer: Closer,
                         toPost: nat,          // terminate messages still to be posted
                         trying: nat,          // blocking producers about to take the lock and look for room
                         waiting: nat,         // blocking producers asleep until a message is taken out
                         announcing: nat,      // producers that have pushed and still have to notify
                         uncounted: multiset<Msg>,   // refused, with the producer still to count them
                         taken: seq<seq<Msg>>,       // what each worker has taken, in order
                         offered: seq<Msg>, dequeued: seq<Msg>, overrun: seq<Msg>, discarded: seq<Msg>)

  datatype Action =
    | Offer(kind: Kind, policy: Policy)
    | ProducerArrives
    | ProducerTries(kind: Kind)
    | ProducerNotifies(woken: Option<nat>)
    | ProducerCounts(m: Msg)
    | Close
    | CloserTries
    | CloserNotifies(woken: Option<nat>)
    | WorkerTries(w: nat)
    | WorkerNotifies(w: nat)
    | WorkerFinishes(w: nat)
    | WorkerWakesUp(w: nat)      // spurious
    | CloserWakesUp              // spurious
    | ProducerWakesUp            // spurious

  predicate Spurious(a: Action) {
    a.WorkerWakesUp? || a.CloserWakesUp? || a.ProducerWakesUp?
  }

  predicate OfWorker(a: Action) {
    a.WorkerTries? || a.WorkerNotifies? || a.WorkerFinishes? || a.WorkerWakesUp?
  }

  /** Something new is asked of the pool. */
  predicate Request(a: Action) {
    a.Offer? || a.ProducerArrives?
  }

  // ---- counting ----

  function One(b: bool): (n: nat) {
    if b then 1 else 0
  }

  /** How many workers satisfy `p`. */
  function Count(ws: seq<Worker>, p: Worker -> bool): (n: nat)
    ensures n <= |ws|
  {
    if ws == [] then 0 else One(p(ws[0])) + Count(ws[1..], p)
  }

  lemma {:induction false} CountUpdate(ws: seq<Worker>, p: Worker -> bool, i: nat, w: Worker)
    requires i < |ws|
    ensures Count(ws[i := w], p) + One(p(ws[i])) == Count(ws, p) + One(p(w))
  {
    if i > 0 {
      CountUpdate(ws[1..], p, i - 1, w);
      assert ws[i := w][1..] == ws[1..][i - 1 := w];
    } else {
      assert ws[0 := w][1..] == ws[1..];
    }
  }

  lemma {:induction false} CountZero(ws: seq<Worker>, p: Worker -> bool)
    ensures Count(ws, p) == 0 <==> forall i :: 0 <= i < |ws| ==> !p(ws[i])
  {
    if ws != [] {
      CountZero(ws[1..], p);
      assert forall i :: 1 <= i < |ws| ==> ws[i] == ws[1..][i - 1];
      assert forall i :: 0 <= i < |ws| - 1 ==> ws[1..][i] == ws[i + 1];
    }
  }

  function Terminates(q: seq<Msg>): (n: nat)
    ensures n <= |q|
  {
    if q == [] then 0 else One(q[0].kind == Terminate) + Terminates(q[1..])
  }

  lemma {:induction false} TerminatesAppend(q: seq<Msg>, m: Msg)
    ensures Terminates(q + [m]) == Terminates(q) + One(m.kind == Terminate)
  {
    if q == [] {
      assert [] + [m] == [m];
    } else {
      assert (q + [m])[1..] == q[1..] + [m];
      TerminatesAppend(q[1..], m);
    }
  }

  predicate IsTrying(w: Worker) { w.Trying? }

  predicate IsAsleep(w: Worker) { w.Asleep? }

  predicate IsNotifying(w: Worker) { w.Notifying? }

  /** A worker that has not taken a terminate message. */
  predicate IsActive(w: Worker) {
    match w
    case Trying => true
    case Asleep => true
    case Notifying(m) => m.kind != Terminate
    case Handling(m) => m.kind != Terminate
    case Exited => false
  }

  lemma CountsUpdate(ws: seq<Worker>, i: nat, w: Worker)
    requires i < |ws|
    ensures var vs := ws[i := w];
            && Count(vs, IsTrying) + One(IsTrying(ws[i])) == Count(ws, IsTrying) + One(IsTrying(w))
            && Count(vs, IsAsleep) + One(IsAsleep(ws[i])) == Count(ws, IsAsleep) + One(IsAsleep(w))
            && Count(vs, IsNotifying) + One(IsNotifying(ws[i])) == Count(ws, IsNotifying) + One(IsNotifying(w))
            && Count(vs, IsActive) + One(IsActive(ws[i])) == Count(ws, IsActive) + One(IsActive(w))
  {
    CountUpdate(ws, IsTrying, i, w);
    CountUpdate(ws, IsAsleep, i, w);
    CountUpdate(ws, IsNotifying, i, w);
    CountUpdate(ws, IsActive, i, w);
  }

  // ---- steps ----

  /** notify_one wakes some sleeper if there is one. */
  predicate CanWake(ws: seq<Worker>, woken: Option<nat>) {
    match woken
    case Some(w) => w < |ws| && ws[w] == Asleep
    case None => forall i :: 0 <= i < |ws| ==> ws[i] != Asleep
  }

  function Wake(ws: seq<Worker>, woken: Option<nat>): (r: seq<Worker>)
    requires CanWake(ws, woken)
  {
    if woken.Some? then ws[woken.value := Trying] else ws
  }

  predicate Enabled(s: State, a: Action) {
    match a
    case Offer(kind, _) => s.closer == Absent && kind != Terminate
    case ProducerArrives => s.closer == Absent
    case ProducerTries(kind) => s.trying > 0 && kind != Terminate
    case ProducerNotifies(woken) => s.announcing > 0 && CanWake(s.workers, woken)
    case ProducerCounts(m) => m in s.uncounted
    // The pool is destroyed only when every producer's call has returned.
    case Close =>
      s.closer == Absent && s.announcing == 0 && s.trying == 0 && s.waiting == 0 && s.uncounted == multiset{}
    case CloserTries => s.closer == Posting
    case CloserNotifies(woken) => s.closer == Announcing && CanWake(s.workers, woken)
    case WorkerTries(w) => w < |s.workers| && s.workers[w] == Trying
    case WorkerNotifies(w) => w < |s.workers| && s.workers[w].Notifying?
    case WorkerFinishes(w) => w < |s.workers| && s.workers[w].Handling?
    case WorkerWakesUp(w) => w < |s.workers| && s.workers[w] == Asleep
    case CloserWakesUp => s.closer == Blocked
    case ProducerWakesUp => s.waiting > 0
  }

  /** What a push onto a queue without room throws out. */
  function Evicted(q: seq<Msg>, capacity: nat, m: Msg): (lost: seq<Msg>) {
    if |q| < capacity then [] else [(q + [m])[0]]
  }

  predicate Sized(s: State) {
    |s.queue| <= s.capacity && |s.taken| == |s.workers|
  }

  function Next(s: State, a: Action): (t: State)
    requires Enabled(s, a) && Sized(s)
    ensures Sized(t) && t.capacity == s.capacity && |t.workers| == |s.workers|
  {
    match a
    case Offer(kind, policy) =>
      var m := Msg(kind, |s.offered|);
      var u := s.(offered := s.offered + [m]);
      if policy == DiscardNew && |s.queue| == s.capacity then u.(uncounted := s.uncounted + multiset{m})
      else
        u.(queue := Push(s.queue, s.capacity, m), announcing := s.announcing + 1,
           overrun := s.overrun + Evicted(s.queue, s.capacity, m))
    case ProducerArrives => s.(trying := s.trying + 1)
    case ProducerTries(kind) =>
      if |s.queue| < s.capacity then
        var m := Msg(kind, |s.offered|);
        s.(offered := s.offered + [m], queue := s.queue + [m], trying := s.trying - 1, announcing := s.announcing + 1)
      else s.(trying := s.trying - 1, waiting := s.waiting + 1)
    case ProducerNotifies(woken) => s.(announcing := s.announcing - 1, workers := Wake(s.workers, woken))
    case ProducerCounts(m) => s.(uncounted := s.uncounted - multiset{m}, discarded := s.discarded + [m])
    case Close => s.(closer := if s.toPost > 0 then Posting else Joining)
    case CloserTries =>
      if |s.queue| < s.capacity then
        var m := Msg(Terminate, |s.offered|);
        s.(offered := s.offered + [m], queue := s.queue + [m],
           toPost := if s.toPost > 0 then s.toPost - 1 else 0, closer := Announcing)
      else s.(closer := Blocked)
    case CloserNotifies(woken) =>
      s.(workers := Wake(s.workers, woken), closer := if s.toPost > 0 then Posting else Joining)
    case WorkerTries(w) =>
      if s.queue == [] then s.(workers := s.workers[w := Asleep])
      else s.(workers := s.workers[w := Notifying(s.queue[0])], queue := s.queue[1..],
        dequeued := s.dequeued + [s.queue[0]], taken := s.taken[w := s.taken[w] + [s.queue[0]]])
    case WorkerNotifies(w) =>
      // One of those that wait for room wakes up, if any.
      var u := s.(workers := s.workers[w := Handling(s.workers[w].msg)]);
      if s.waiting > 0 then u.(waiting := s.waiting - 1, trying := s.trying + 1)
      else u.(closer := if s.closer == Blocked then Posting else s.closer)
    case WorkerFinishes(w) =>
      s.(workers := s.workers[w := if s.workers[w].msg.kind == Terminate then Exited else Trying])
    case WorkerWakesUp(w) => s.(workers := s.workers[w := Trying])
    case CloserWakesUp => s.(closer := Posting)
    case ProducerWakesUp => s.(waiting := s.waiting - 1, trying := s.trying + 1)
  }

  // ---- invariants ----

  /** Every message offered is in exactly one place. */
  ghost predicate Conserved(s: State) {
    multiset(s.offered)
    == multiset(s.dequeued) + multiset(s.queue) + multiset(s.overrun) + multiset(s.discarded) + s.uncounted
  }

  predicate NoPoison(q: seq<Msg>) {
    forall i :: 0 <= i < |q| ==> q[i].kind != Terminate
  }

  /** What a worker has taken: no terminate message before its last, and none at all while it goes on. */
  ghost predicate Took(w: Worker, q: seq<Msg>) {
    match w
    case Trying => NoPoison(q)
    case Asleep => NoPoison(q)
    case Notifying(m) => q != [] && q[|q| - 1] == m && NoPoison(q[..|q| - 1])
    case Handling(m) => q != [] && q[|q| - 1] == m && NoPoison(q[..|q| - 1])
    case Exited => q != [] && q[|q| - 1].kind == Terminate && NoPoison(q[..|q| - 1])
  }

  function Together(taken: seq<seq<Msg>>): (ms: multiset<Msg>) {
    if taken == [] then multiset{} else multiset(taken[0]) + Together(taken[1..])
  }

  /** Every message taken out was taken by one worker. */
  ghost predicate Dealt(s: State) {
    && |s.taken| == |s.workers|
    && (forall w :: 0 <= w < |s.workers| ==> Took(s.workers[w], s.taken[w]))
    && multiset(s.dequeued) == Together(s.taken)
  }

  ghost predicate InOrder(q: seq<Msg>, bound: nat) {
    && (forall i :: 0 <= i < |q| ==> q[i].serial < bound)
    && forall i, j :: 0 <= i < j < |q| ==> q[i].serial < q[j].serial
  }

  ghost predicate OfferedInOrder(offered: seq<Msg>) {
    forall i :: 0 <= i < |offered| ==> offered[i].serial == i
  }

  /** What was taken out and what waits are in the order they were offered. */
  ghost predicate Ordered(s: State) {
    InOrder(s.dequeued + s.queue, |s.offered|) && OfferedInOrder(s.offered)
  }

  /** Terminate messages stand behind all others. */
  ghost predicate PoisonLast(q: seq<Msg>) {
    forall i, j :: 0 <= i < j < |q| && q[i].kind == Terminate ==> q[j].kind == Terminate
  }

  /** There is one terminate message, posted or to be posted, for every worker that has not taken one. */
  ghost predicate Poisoned(s: State) {
    && Terminates(s.queue) + s.toPost == Count(s.workers, IsActive)
    && Terminates(s.dequeued) + Count(s.workers, IsActive) == |s.workers|
    && (s.closer == Absent ==> Terminates(s.queue) == 0 && s.toPost == |s.workers|)
    && PoisonLast(s.queue)
    && (Count(s.workers, IsActive) < |s.workers| ==> Terminates(s.queue) == |s.queue|)
  }

  /** No wakeup is lost: while a worker sleeps, every waiting message has somebody coming for it; while
      a producer or the closer waits for room, every free place has a notification on its way or a producer
      awake to take it. */
  ghost predicate NoLostWakeup(s: State) {
    && (Count(s.workers, IsAsleep) > 0 ==>
          |s.queue| <= Count(s.workers, IsTrying) + s.announcing + One(s.closer == Announcing))
    && (s.closer == Blocked || s.waiting > 0 ==> s.capacity - |s.queue| <= s.trying + Count(s.workers, IsNotifying))
  }

  ghost predicate CloserOk(s: State) {
    && (s.closer == Posting || s.closer == Blocked ==> s.toPost > 0)
    && (s.closer == Joining ==> s.toPost == 0)
    && (s.closer != Absent ==> s.announcing == 0 && s.trying == 0 && s.waiting == 0 && s.uncounted == multiset{})
  }

  /** What was overrun is older than everything that waits. */
  ghost predicate OverrunIsOlder(s: State) {
    Older(s.overrun, s.queue)
  }

  ghost predicate Older(o: seq<Msg>, q: seq<Msg>) {
    forall i, j :: 0 <= i < |o| && 0 <= j < |q| ==> o[i].serial < q[j].serial
  }

  /** As long as nothing has been refused, exactly the last messages offered wait. */
  ghost predicate NewestWait(s: State) {
    s.discarded == [] && s.uncounted == multiset{} ==> IsLast(s.offered, s.queue)
  }

  predicate IsLast(offered: seq<Msg>, q: seq<Msg>) {
    |q| <= |offered| && q == offered[|offered| - |q|..]
  }

  ghost predicate Inv(s: State) {
    && Sized(s)
    && OverrunIsOlder(s) && NewestWait(s)
    && Dealt(s) && Conserved(s) && Ordered(s) && Poisoned(s) && NoLostWakeup(s) && CloserOk(s)
  }

  /** A new pool: no message, every worker about to look. */
  function Start(capacity: nat, n: nat): (s: State) {
    State(capacity, [], seq(n, _ => Trying), Absent, n, 0, 0, 0, multiset{}, seq(n, _ => []), [], [], [], [])
  }

  lemma {:induction false} CountAll(ws: seq<Worker>, p: Worker -> bool)
    requires forall i :: 0 <= i < |ws| ==> p(ws[i])
    ensures Count(ws, p) == |ws|
  {
    if ws != [] {
      assert forall i :: 0 <= i < |ws| - 1 ==> ws[1..][i] == ws[i + 1];
      CountAll(ws[1..], p);
    }
  }

  lemma StartIsOk(capacity: nat, n: nat)
    ensures Inv(Start(capacity, n))
  {
    var s := Start(capacity, n);
    CountAll(s.workers, IsActive);
    CountZero(s.workers, IsAsleep);
    assert s.dequeued + s.queue == [];
    NothingTaken(s.taken);
  }

  lemma {:induction false} NothingTaken(taken: seq<seq<Msg>>)
    requires forall w :: 0 <= w < |taken| ==> taken[w] == []
    ensures Together(taken) == multiset{}
  {
    if taken != [] {
      NothingTaken(taken[1..]);
    }
  }

  lemma {:induction false} TogetherUpdate(taken: seq<seq<Msg>>, w: nat, m: Msg)
    requires w < |taken|
    ensures Together(taken[w := taken[w] + [m]]) == Together(taken) + multiset{m}
  {
    if w == 0 {
      assert taken[0 := taken[0] + [m]][1..] == taken[1..];
      SnocMultiset(taken[0], m);
    } else {
      assert taken[w := taken[w] + [m]][1..] == taken[1..][w - 1 := taken[w] + [m]];
      TogetherUpdate(taken[1..], w - 1, m);
    }
  }

  lemma DealtTake(s: State, w: nat)
    requires Dealt(s) && Sized(s) && Enabled(s, WorkerTries(w)) && s.queue != []
    ensures Dealt(Next(s, WorkerTries(w)))
  {
    hide Together, Took;
    var m := s.queue[0];
    SnocMultiset(s.dequeued, m);
    TogetherUpdate(s.taken, w, m);
    TookNext(s.taken[w], m);
  }

  lemma TookNext(q: seq<Msg>, m: Msg)
    ensures Took(Trying, q) ==> Took(Notifying(m), q + [m])
  {
    assert (q + [m])[..|q|] == q;
  }

  lemma WakeKeepsTook(s: State, woken: Option<nat>)
    requires Dealt(s) && CanWake(s.workers, woken)
    ensures var ws := Wake(s.workers, woken);
            |ws| == |s.workers| && forall w :: 0 <= w < |ws| ==> Took(ws[w], s.taken[w])
  {
    hide Together;
  }

  lemma DealtStep(s: State, a: Action)
    requires Inv(s) && Enabled(s, a)
    ensures Dealt(Next(s, a))
  {
    hide OverrunIsOlder, NewestWait, Conserved, Ordered, Poisoned, NoLostWakeup, CloserOk, Wake, CanWake, Push, Evicted,
      Together;
    match a
    case ProducerNotifies(woken) => WakeKeepsTook(s, woken);
    case CloserNotifies(woken) => WakeKeepsTook(s, woken);
    case WorkerTries(w) => if s.queue != [] { DealtTake(s, w); }
    case WorkerFinishes(w) =>
      var q := s.taken[w];
      assert q == q[..|q| - 1] + [q[|q| - 1]];
    case _ =>
  }

  lemma PushConserves(q: seq<Msg>, capacity: nat, m: Msg)
    requires |q| <= capacity
    ensures multiset(Push(q, capacity, m)) + multiset(Evicted(q, capacity, m)) == multiset(q) + multiset{m}
  {
    var all := q + [m];
    var first, rest := [all[0]], all[1..];
    assert all == first + rest;
    assert multiset(q) + multiset{m} == multiset(all) == multiset(first) + multiset(rest);
    if |q| < capacity {
      assert multiset(Evicted(q, capacity, m)) == multiset{};
    } else {
      assert Push(q, capacity, m) == rest && Evicted(q, capacity, m) == first;
    }
  }

  lemma SnocMultiset(q: seq<Msg>, m: Msg)
    ensures multiset(q + [m]) == multiset(q) + multiset{m}
  {
  }

  lemma ConservedOffer(s: State, kind: Kind, policy: Policy)
    requires Conserved(s) && Sized(s) && Enabled(s, Offer(kind, policy))
    ensures Conserved(Next(s, Offer(kind, policy)))
  {
    hide Push, Evicted;
    var m := Msg(kind, |s.offered|);
    var t := Next(s, Offer(kind, policy));
    SnocMultiset(s.offered, m);
    if policy == DiscardNew && |s.queue| == s.capacity {
    } else {
      PushConserves(s.queue, s.capacity, m);
      var lost := Evicted(s.queue, s.capacity, m);
      assert multiset(t.overrun) == multiset(s.overrun) + multiset(lost);
      Rearranged(multiset(s.dequeued), multiset(s.queue), multiset(s.overrun), multiset(s.discarded),
                 s.uncounted, multiset{m}, multiset(t.queue), multiset(lost));
    }
  }

  lemma Rearranged(d: multiset<Msg>, q: multiset<Msg>, o: multiset<Msg>, c: multiset<Msg>, u: multiset<Msg>,
                   m: multiset<Msg>, q': multiset<Msg>, lost: multiset<Msg>)
    requires q' + lost == q + m
    ensures d + q + o + c + u + m == d + q' + (o + lost) + c + u
  {
    assert d + q + o + c + u + m == (d + o + c + u) + (q + m);
  }

  lemma ConservedTake(s: State, w: nat)
    requires Conserved(s) && Sized(s) && Enabled(s, WorkerTries(w)) && s.queue != []
    ensures Conserved(Next(s, WorkerTries(w)))
  {
    SnocMultiset(s.dequeued, s.queue[0]);
    assert s.queue == [s.queue[0]] + s.queue[1..];
  }

  lemma ConservedPut(s: State, m: Msg)
    requires Conserved(s)
    ensures Conserved(s.(offered := s.offered + [m], queue := s.queue + [m]))
  {
    SnocMultiset(s.offered, m);
    SnocMultiset(s.queue, m);
  }

  lemma ConservedCount(s: State, m: Msg)
    requires Conserved(s) && m in s.uncounted
    ensures Conserved(s.(uncounted := s.uncounted - multiset{m}, discarded := s.discarded + [m]))
  {
    SnocMultiset(s.discarded, m);
    assert s.uncounted == s.uncounted - multiset{m} + multiset{m};
  }

  lemma ConservedStep(s: State, a: Action)
    requires Inv(s) && Enabled(s, a)
    ensures Conserved(Next(s, a))
  {
    hide OverrunIsOlder, NewestWait, Dealt, Ordered, Poisoned, NoLostWakeup, CloserOk, Wake, CanWake, Push;
    match a
    case Offer(kind, policy) => ConservedOffer(s, kind, policy);
    case ProducerTries(kind) => ConservedPut(s, Msg(kind, |s.offered|));
    case CloserTries => ConservedPut(s, Msg(Terminate, |s.offered|));
    case WorkerTries(w) => if s.queue != [] { ConservedTake(s, w); }
    case ProducerCounts(m) => ConservedCount(s, m);
    case _ =>
  }

  lemma InOrderAppend(q: seq<Msg>, m: Msg)
    requires InOrder(q, m.serial)
    ensures InOrder(q + [m], m.serial + 1)
  {
  }

  /** Taking out one message keeps the order of the others. */
  lemma InOrderRemove(x: seq<Msg>, m: Msg, y: seq<Msg>, bound: nat)
    requires InOrder(x + [m] + y, bound)
    ensures InOrder(x + y, bound)
  {
    var q, r := x + [m] + y, x + y;
    forall i | 0 <= i < |r| ensures r[i] == q[if i < |x| then i else i + 1] {
    }
  }

  lemma OrderedStep(s: State, a: Action)
    requires Inv(s) && Enabled(s, a)
    ensures Ordered(Next(s, a))
  {
    hide OverrunIsOlder, NewestWait, Dealt, Conserved, Poisoned,
      NoLostWakeup, CloserOk, Wake, CanWake, InOrder, Evicted;
    var d, q := s.dequeued, s.queue;
    match a
    case Offer(kind, policy) =>
      var m := Msg(kind, |s.offered|);
      InOrderAppend(d + q, m);
      assert d + q + [m] == d + (q + [m]);
      if |q| == s.capacity {
        var all := q + [m];
        assert d + all == d + [all[0]] + all[1..];
        InOrderRemove(d, all[0], all[1..], |s.offered| + 1);
        InOrderLoosen(d + q, |s.offered|);
      }
    case ProducerTries(kind) =>
      var m := Msg(kind, |s.offered|);
      InOrderAppend(d + q, m);
      assert d + q + [m] == d + (q + [m]);
    case CloserTries =>
      var m := Msg(Terminate, |s.offered|);
      InOrderAppend(d + q, m);
      assert d + q + [m] == d + (q + [m]);
    case WorkerTries(w) =>
      if q != [] { assert d + q == d + [q[0]] + q[1..]; }
    case _ =>
  }

  lemma InOrderLoosen(q: seq<Msg>, bound: nat)
    requires InOrder(q, bound)
    ensures InOrder(q, bound + 1)
  {
  }

  lemma {:induction false} TerminatesAll(q: seq<Msg>)
    ensures Terminates(q) == 0 <==> forall i :: 0 <= i < |q| ==> q[i].kind != Terminate
    ensures Terminates(q) == |q| <==> forall i :: 0 <= i < |q| ==> q[i].kind == Terminate
  {
    if q != [] {
      TerminatesAll(q[1..]);
      assert forall i :: 1 <= i < |q| ==> q[i] == q[1..][i - 1];
      assert forall i :: 0 <= i < |q| - 1 ==> q[1..][i] == q[i + 1];
    }
  }

  lemma WakeCounts(ws: seq<Worker>, woken: Option<nat>)
    requires CanWake(ws, woken)
    ensures var vs := Wake(ws, woken);
            && |vs| == |ws| && Count(vs, IsActive) == Count(ws, IsActive)
               && Count(vs, IsNotifying) == Count(ws, IsNotifying)
            && (Count(ws, IsAsleep) > 0 ==>
                  Count(vs, IsTrying) == Count(ws, IsTrying) + 1 && Count(vs, IsAsleep) == Count(ws, IsAsleep) - 1)
            && (Count(ws, IsAsleep) == 0 ==> vs == ws)
  {
    CountZero(ws, IsAsleep);
    if woken.Some? { CountsUpdate(ws, woken.value, Trying); }
  }

  lemma PoisonedOffer(s: State, m: Msg)
    requires Poisoned(s) && s.closer == Absent && m.kind != Terminate && |s.queue| <= s.capacity
    ensures var q := Push(s.queue, s.capacity, m);
            Terminates(q) == 0 && PoisonLast(q)
  {
    TerminatesAll(s.queue);
    TerminatesAll(Push(s.queue, s.capacity, m));
  }

  lemma PoisonedPut(s: State, m: Msg)
    requires Poisoned(s) && s.closer == Absent && m.kind != Terminate && |s.queue| < s.capacity
    ensures Terminates(s.queue + [m]) == 0 && PoisonLast(s.queue + [m])
  {
    PoisonedOffer(s, m);
  }

  lemma PoisonedWorker(s: State, a: Action)
    requires Sized(s) && Poisoned(s) && Enabled(s, a) && OfWorker(a)
    ensures Poisoned(Next(s, a))
  {
    hide Wake, CanWake, Push, Evicted, Count, Terminates;
    match a
    case WorkerTries(w) =>
      if s.queue == [] {
        CountsUpdate(s.workers, w, Asleep);
      } else {
        CountsUpdate(s.workers, w, Notifying(s.queue[0]));
        TakeFromQueue(s.queue);
        TerminatesAppend(s.dequeued, s.queue[0]);
      }
    case WorkerNotifies(w) => CountsUpdate(s.workers, w, Handling(s.workers[w].msg));
    case WorkerFinishes(w) => CountsUpdate(s.workers, w, if s.workers[w].msg.kind == Terminate then Exited else Trying);
    case WorkerWakesUp(w) => CountsUpdate(s.workers, w, Trying);
  }

  lemma PoisonedStep(s: State, a: Action)
    requires Inv(s) && Enabled(s, a)
    ensures Poisoned(Next(s, a))
  {
    hide OverrunIsOlder, NewestWait, Dealt, Conserved, Ordered, NoLostWakeup,
      Wake, CanWake, Push, Evicted, Count, Terminates;
    if OfWorker(a) {
      PoisonedWorker(s, a);
      return;
    }
    match a
    case Offer(kind, policy) => PoisonedOffer(s, Msg(kind, |s.offered|));
    case ProducerArrives =>
    case ProducerTries(kind) =>
      if |s.queue| < s.capacity { PoisonedPut(s, Msg(kind, |s.offered|)); }
    case ProducerNotifies(woken) => WakeCounts(s.workers, woken);
    case ProducerCounts(_) =>
    case Close =>
    case CloserTries =>
      var m := Msg(Terminate, |s.offered|);
      TerminatesAppend(s.queue, m);
    case CloserNotifies(woken) => WakeCounts(s.workers, woken);
    case CloserWakesUp =>
    case ProducerWakesUp =>
  }

  lemma TakeFromQueue(q: seq<Msg>)
    requires q != [] && PoisonLast(q)
    ensures Terminates(q) == One(q[0].kind == Terminate) + Terminates(q[1..])
    ensures PoisonLast(q[1..])
    ensures q[0].kind == Terminate ==> Terminates(q) == |q|
  {
    TerminatesAll(q);
    assert forall i :: 0 <= i < |q| - 1 ==> q[1..][i] == q[i + 1];
  }

  lemma NoLostWakeupOffer(s: State, kind: Kind, policy: Policy)
    requires Sized(s) && NoLostWakeup(s) && Enabled(s, Offer(kind, policy))
    ensures NoLostWakeup(Next(s, Offer(kind, policy)))
  {
    hide Count, Push, Evicted;
  }

  lemma NoLostWakeupWorker(s: State, a: Action)
    requires Sized(s) && NoLostWakeup(s) && CloserOk(s) && Enabled(s, a) && OfWorker(a)
    ensures NoLostWakeup(Next(s, a))
  {
    hide Wake, CanWake, Count, Terminates, Push, Evicted;
    match a
    case WorkerTries(w) =>
      CountsUpdate(s.workers, w, if s.queue == [] then Asleep else Notifying(s.queue[0]));
    case WorkerNotifies(w) => CountsUpdate(s.workers, w, Handling(s.workers[w].msg));
    case WorkerFinishes(w) => CountsUpdate(s.workers, w, if s.workers[w].msg.kind == Terminate then Exited else Trying);
    case WorkerWakesUp(w) => CountsUpdate(s.workers, w, Trying);
  }

  lemma NoLostWakeupStep(s: State, a: Action)
    requires Inv(s) && Enabled(s, a)
    ensures NoLostWakeup(Next(s, a))
  {
    hide OverrunIsOlder, NewestWait, Dealt, Conserved, Ordered, Poisoned,
      Wake, CanWake, Count, Terminates, Push, Evicted;
    if OfWorker(a) {
      NoLostWakeupWorker(s, a);
      return;
    }
    match a
    case Offer(kind, policy) => NoLostWakeupOffer(s, kind, policy);
    case ProducerNotifies(woken) => WakeCounts(s.workers, woken);
    case CloserNotifies(woken) => WakeCounts(s.workers, woken);
    case _ =>
  }

  lemma CloserOkStep(s: State, a: Action)
    requires Inv(s) && Enabled(s, a)
    ensures CloserOk(Next(s, a))
  {
    hide OverrunIsOlder, NewestWait, Dealt, Conserved, Ordered, Poisoned, NoLostWakeup, Wake, CanWake, Push;
  }

  // ---- what an offer does ----

  /** A full queue loses its oldest message to an offer that overruns, or refuses one that does not; with
      room nothing is lost. */
  lemma OfferEffect(s: State, kind: Kind, policy: Policy)
    requires Sized(s) && Enabled(s, Offer(kind, policy))
    ensures var m, t, q := Msg(kind, |s.offered|), Next(s, Offer(kind, policy)), s.queue;
            && t.offered == s.offered + [m] && t.dequeued == s.dequeued && t.discarded == s.discarded
            && (|q| < s.capacity ==>
                  t.queue == q + [m] && t.overrun == s.overrun && t.uncounted == s.uncounted)
            && (|q| == s.capacity && policy == OverrunOldest ==>
                  && t.uncounted == s.uncounted
                  && (q != [] ==> t.queue == q[1..] + [m] && t.overrun == s.overrun + [q[0]])
                  && (q == [] ==> t.queue == [] && t.overrun == s.overrun + [m]))
            && (|q| == s.capacity && policy == DiscardNew ==>
                  t.queue == q && t.overrun == s.overrun && t.uncounted == s.uncounted + multiset{m})
            && t.announcing == s.announcing + One(|q| < s.capacity || policy == OverrunOldest)
  {
    var m := Msg(kind, |s.offered|);
    if s.queue != [] {
      assert (s.queue + [m])[1..] == s.queue[1..] + [m];
    }
  }

  /** A step with a full queue has the effect that the queue's own method promises. */
  lemma OfferIsEnqueueNowait(s: State, kind: Kind)
    requires Sized(s) && Enabled(s, Offer(kind, OverrunOldest))
    ensures var t := Next(s, Offer(kind, OverrunOldest));
            && t.queue == Push(s.queue, s.capacity, t.offered[|s.offered|])
            && |t.overrun| == |s.overrun| + One(|s.queue| == s.capacity)
  {
    OfferEffect(s, kind, OverrunOldest);
  }

  /** After any run, a message offered so is the last that waits, if there is room for any. */
  lemma OfferedIsLast(capacity: nat, n: nat, actions: seq<Action>, kind: Kind)
    requires capacity > 0 && IsRun(Start(capacity, n), actions)
    requires Enabled(After(Start(capacity, n), actions), Offer(kind, OverrunOldest))
    ensures var s := After(Start(capacity, n), actions);
            && Sized(s)
            && var t := Next(s, Offer(kind, OverrunOldest));
               t.queue != [] && t.queue[|t.queue| - 1] == Msg(kind, |s.offered|)
  {
    StartIsOk(capacity, n);
    RunKeepsInv(Start(capacity, n), actions);
    OfferEffect(After(Start(capacity, n), actions), kind, OverrunOldest);
    hide Next, After, IsRun;
  }

  lemma OlderOffer(o: seq<Msg>, q: seq<Msg>, m: Msg)
    requires Older(o, q) && InOrder(q, m.serial) && q != []
    ensures Older(o + [q[0]], q[1..] + [m])
  {
    var o', q' := o + [q[0]], q[1..] + [m];
    forall i, j | 0 <= i < |o'| && 0 <= j < |q'| ensures o'[i].serial < q'[j].serial {
      assert q[0].serial < m.serial;
      assert j < |q| - 1 ==> q'[j] == q[j + 1];
      if i < |o| {
        assert o[i].serial < q[0].serial;
      }
    }
  }

  lemma OlderAppend(o: seq<Msg>, q: seq<Msg>, m: Msg)
    requires Older(o, q) && forall i :: 0 <= i < |o| ==> o[i].serial < m.serial
    ensures Older(o, q + [m])
  {
  }

  lemma OlderNothing(o: seq<Msg>)
    ensures Older(o, [])
  {
  }

  lemma OlderTake(o: seq<Msg>, q: seq<Msg>)
    requires Older(o, q) && q != []
    ensures Older(o, q[1..])
  {
  }

  /** Everything in the overrun has been offered. */
  lemma OverrunWasOffered(s: State)
    requires Conserved(s) && OfferedInOrder(s.offered)
    ensures forall i :: 0 <= i < |s.overrun| ==> s.overrun[i].serial < |s.offered|
  {
    forall i | 0 <= i < |s.overrun| ensures s.overrun[i].serial < |s.offered| {
      assert s.overrun[i] in multiset(s.overrun);
      assert s.overrun[i] in multiset(s.offered);
      assert s.overrun[i] in s.offered;
    }
  }

  lemma QueueInOrder(s: State)
    requires Ordered(s)
    ensures InOrder(s.queue, |s.offered|)
  {
    var all := s.dequeued + s.queue;
    forall i | 0 <= i < |s.queue| ensures s.queue[i] == all[|s.dequeued| + i] {
    }
  }

  lemma OverrunOffer(s: State, kind: Kind, policy: Policy)
    requires Sized(s) && OverrunIsOlder(s) && InOrder(s.queue, |s.offered|) && Enabled(s, Offer(kind, policy))
    requires forall i :: 0 <= i < |s.overrun| ==> s.overrun[i].serial < |s.offered|
    ensures OverrunIsOlder(Next(s, Offer(kind, policy)))
  {
    var m := Msg(kind, |s.offered|);
    OfferEffect(s, kind, policy);
    OlderNothing(s.overrun + [m]);
    hide Next, Push, InOrder, Older;
    if |s.queue| < s.capacity {
      OlderAppend(s.overrun, s.queue, m);
    } else if policy == OverrunOldest && s.queue != [] {
      OlderOffer(s.overrun, s.queue, m);
    }
  }

  lemma OverrunStep(s: State, a: Action)
    requires Inv(s) && Enabled(s, a)
    ensures OverrunIsOlder(Next(s, a))
  {
    OverrunWasOffered(s);
    QueueInOrder(s);
    hide Dealt, Conserved, Ordered, Poisoned, NoLostWakeup, NewestWait, Wake, CanWake, Push, Evicted, InOrder, Older;
    match a
    case Offer(kind, policy) => OverrunOffer(s, kind, policy);
    case ProducerTries(kind) => OlderAppend(s.overrun, s.queue, Msg(kind, |s.offered|));
    case CloserTries => OlderAppend(s.overrun, s.queue, Msg(Terminate, |s.offered|));
    case WorkerTries(w) => if s.queue != [] { OlderTake(s.overrun, s.queue); }
    case _ =>
  }

  lemma IsLastSteps(offered: seq<Msg>, q: seq<Msg>, m: Msg)
    requires IsLast(offered, q)
    ensures IsLast(offered + [m], q + [m]) && IsLast(offered + [m], [])
    ensures q != [] ==> IsLast(offered + [m], q[1..] + [m]) && IsLast(offered, q[1..])
  {
  }

  lemma NewestOffer(s: State, kind: Kind, policy: Policy)
    requires Sized(s) && NewestWait(s) && Enabled(s, Offer(kind, policy))
    ensures NewestWait(Next(s, Offer(kind, policy)))
  {
    OfferEffect(s, kind, policy);
    hide Next, Push, IsLast;
    if s.discarded == [] && s.uncounted == multiset{} {
      IsLastSteps(s.offered, s.queue, Msg(kind, |s.offered|));
    }
  }

  lemma NewestStep(s: State, a: Action)
    requires Inv(s) && Enabled(s, a)
    ensures NewestWait(Next(s, a))
  {
    hide Dealt, Conserved, Ordered, Poisoned, NoLostWakeup, OverrunIsOlder, Wake, CanWake, Push, Evicted, IsLast;
    if a.Offer? {
      NewestOffer(s, a.kind, a.policy);
    } else if s.discarded == [] && s.uncounted == multiset{} {
      var kind := if a.ProducerTries? then a.kind else Terminate;
      IsLastSteps(s.offered, s.queue, Msg(kind, |s.offered|));
    }
  }

  /** Every step keeps the invariant. */
  lemma StepKeepsInv(s: State, a: Action)
    requires Inv(s) && Enabled(s, a)
    ensures Inv(Next(s, a))
  {
    hide OverrunIsOlder, NewestWait, Dealt, Conserved, Ordered, Poisoned, NoLostWakeup, CloserOk, Next, Enabled;
    OverrunStep(s, a);
    NewestStep(s, a);
    DealtStep(s, a);
    ConservedStep(s, a);
    OrderedStep(s, a);
    PoisonedStep(s, a);
    NoLostWakeupStep(s, a);
    CloserOkStep(s, a);
  }

  // ---- runs ----

  ghost predicate IsRun(s: State, actions: seq<Action>)
    requires Sized(s)
    decreases |actions|
  {
    actions == [] ||
    (Enabled(s, actions[0]) && IsRun(Next(s, actions[0]), actions[1..]))
  }

  function After(s: State, actions: seq<Action>): (t: State)
    requires Sized(s) && IsRun(s, actions)
    decreases |actions|
  {
    if actions == [] then s else After(Next(s, actions[0]), actions[1..])
  }

  lemma {:induction false} RunKeepsInv(s: State, actions: seq<Action>)
    requires Inv(s) && IsRun(s, actions)
    ensures Inv(After(s, actions)) && |After(s, actions).workers| == |s.workers|
            && After(s, actions).capacity == s.capacity
    decreases |actions|
  {
    hide OverrunIsOlder, NewestWait, Dealt, Conserved, Ordered, Poisoned, NoLostWakeup, CloserOk, Next, Enabled;
    if actions != [] {
      StepKeepsInv(s, actions[0]);
      RunKeepsInv(Next(s, actions[0]), actions[1..]);
    }
  }

  /** All workers have ended and the destructor has nothing more to post: the joins return. */
  ghost predicate Joined(s: State) {
    s.closer == Joining && forall i :: 0 <= i < |s.workers| ==> s.workers[i] == Exited
  }

  /** At the join, in every run: the queue is empty; each worker has taken exactly one terminate message and
      nothing after it; every message offered was taken out by one worker, overrun or discarded, exactly
      once; and those taken out were taken in the order they were offered. */
  lemma ShutdownIsComplete(capacity: nat, n: nat, actions: seq<Action>)
    requires n > 0 && IsRun(Start(capacity, n), actions) && Joined(After(Start(capacity, n), actions))
    ensures var s := After(Start(capacity, n), actions);
            && s.queue == [] && s.toPost == 0 && Terminates(s.dequeued) == n
            && |s.taken| == n && (forall w :: 0 <= w < n ==> Took(Exited, s.taken[w]))
            && multiset(s.dequeued) == Together(s.taken)
            && multiset(s.offered) == multiset(s.dequeued) + multiset(s.overrun) + multiset(s.discarded)
            && InOrder(s.dequeued, |s.offered|)
  {
    StartIsOk(capacity, n);
    assert |Start(capacity, n).workers| == n;
    hide *;
    RunKeepsInv(Start(capacity, n), actions);
    JoinedIsComplete(After(Start(capacity, n), actions));
  }

  lemma JoinedIsComplete(s: State)
    requires Inv(s) && Joined(s) && |s.workers| > 0
    ensures s.queue == [] && s.toPost == 0 && Terminates(s.dequeued) == |s.workers|
    ensures |s.taken| == |s.workers| && (forall w :: 0 <= w < |s.workers| ==> Took(Exited, s.taken[w]))
    ensures multiset(s.dequeued) == Together(s.taken)
    ensures multiset(s.offered) == multiset(s.dequeued) + multiset(s.overrun) + multiset(s.discarded)
    ensures InOrder(s.dequeued, |s.offered|)
  {
    CountZero(s.workers, IsActive);
    assert s.dequeued + s.queue == s.dequeued;
  }

  // ---- no deadlock ----

  /** An open pool with nothing left to do: every worker asleep, no message, no producer under way. */
  ghost predicate Idle(s: State) {
    && s.closer == Absent && s.queue == [] && s.trying == 0 && s.waiting == 0 && s.announcing == 0
    && s.uncounted == multiset{}
    && forall w :: 0 <= w < |s.workers| ==> s.workers[w] == Asleep
  }

  /** Nobody can go on by himself, but not everything has been done. */
  ghost predicate Stuck(s: State) {
    && !Joined(s) && !Idle(s)
    && forall a :: Enabled(s, a) ==> Spurious(a) || Request(a) || a == Close
  }

  /** Some sleeper that notify_one can wake, if there is one. */
  function Sleeper(ws: seq<Worker>): (woken: Option<nat>)
    ensures CanWake(ws, woken)
  {
    if ws == [] then None
    else if ws[0] == Asleep then Some(0)
    else
      var t := Sleeper(ws[1..]);
      assert forall i :: 1 <= i < |ws| ==> ws[i] == ws[1..][i - 1];
      if t.Some? then Some(t.value + 1) else None
  }

  /** With room for at least one message some thread can always go on, while the pool is open and while it
      is closing: no spurious wakeup and no new message is needed. */
  lemma SomeoneCanGoOn(s: State) returns (a: Action)
    requires Inv(s) && s.capacity > 0 && !Joined(s) && !Idle(s)
    requires |s.workers| > 0 || s.closer != Absent
    ensures Enabled(s, a) && !Spurious(a) && !Request(a) && a != Close
  {
    if s.closer == Posting {
      a := CloserTries;
    } else if s.closer == Announcing {
      a := CloserNotifies(Sleeper(s.workers));
    } else if s.announcing > 0 {
      a := ProducerNotifies(Sleeper(s.workers));
    } else if s.uncounted != multiset{} {
      var m :| m in s.uncounted;
      a := ProducerCounts(m);
    } else if s.trying > 0 {
      a := ProducerTries(LogMsg);
    } else if w :| 0 <= w < |s.workers| && s.workers[w] == Trying {
      a := WorkerTries(w);
    } else if w :| 0 <= w < |s.workers| && s.workers[w].Notifying? {
      a := WorkerNotifies(w);
    } else if w :| 0 <= w < |s.workers| && s.workers[w].Handling? {
      a := WorkerFinishes(w);
    } else {
      a := CloserTries;
      AllAsleepOrEnded(s);
    }
  }

  /** When nobody is about to do anything, everything has been done. */
  lemma AllAsleepOrEnded(s: State)
    requires Inv(s) && s.capacity > 0 && (|s.workers| > 0 || s.closer != Absent) && s.announcing == 0 && s.trying == 0
    requires s.uncounted == multiset{}
    requires s.closer == Absent || s.closer == Blocked || s.closer == Joining
    requires forall w :: 0 <= w < |s.workers| ==> s.workers[w] == Asleep || s.workers[w] == Exited
    ensures Joined(s) || Idle(s)
  {
    hide OverrunIsOlder, NewestWait, Dealt, Conserved, Ordered;
    CountZero(s.workers, IsTrying);
    CountZero(s.workers, IsNotifying);
    CountZero(s.workers, IsAsleep);
    CountZero(s.workers, IsActive);
    if s.closer == Absent {
      AllActive(s.workers);
    }
  }

  lemma {:induction false} AllActive(ws: seq<Worker>)
    ensures Count(ws, IsActive) == |ws| ==> forall w :: 0 <= w < |ws| ==> ws[w] != Exited
  {
    if ws != [] {
      AllActive(ws[1..]);
      assert forall i :: 1 <= i < |ws| ==> ws[i] == ws[1..][i - 1];
    }
  }

  /** No run of a pool with room gets stuck, neither while it is open, if it has a worker, nor while it closes. */
  lemma NoDeadlock(capacity: nat, n: nat, actions: seq<Action>)
    requires capacity > 0 && IsRun(Start(capacity, n), actions)
    ensures var s := After(Start(capacity, n), actions);
            n > 0 || s.closer != Absent ==> !Stuck(s)
  {
    StartIsOk(capacity, n);
    RunKeepsInv(Start(capacity, n), actions);
    var s := After(Start(capacity, n), actions);
    if !Joined(s) && !Idle(s) && (n > 0 || s.closer != Absent) {
      var a := SomeoneCanGoOn(s);
    }
  }

  /** A pool without room deadlocks when it is destroyed: the closer waits for room there never is,
      the workers for messages that never come. */
  lemma NoRoomDeadlocks(n: nat) returns (actions: seq<Action>)
    requires n > 0
    ensures IsRun(Start(0, n), actions) && Stuck(After(Start(0, n), actions))
  {
    var s := Start(0, n);
    var t := Next(Next(s, Close), CloserTries);
    var rest := AllGoToSleep(t, 0);
    actions := [Close, CloserTries] + rest;
    assert actions[1..] == [CloserTries] + rest && actions[1..][1..] == rest;
    assert IsRun(Next(s, Close), actions[1..]);
  }

  lemma {:induction false} AllGoToSleep(s: State, i: nat) returns (actions: seq<Action>)
    requires s.queue == [] && s.capacity == 0 && s.closer == Blocked && i <= |s.workers| && s.announcing == 0
    requires s.trying == 0 && s.waiting == 0 && s.uncounted == multiset{} && |s.taken| == |s.workers|
    requires forall w :: 0 <= w < |s.workers| ==> s.workers[w] == if w < i then Asleep else Trying
    ensures IsRun(s, actions) && Stuck(After(s, actions))
    decreases |s.workers| - i
  {
    if i == |s.workers| {
      actions := [];
    } else {
      var t := Next(s, WorkerTries(i));
      var rest := AllGoToSleep(t, i + 1);
      actions := [WorkerTries(i)] + rest;
      assert actions[1..] == rest;
    }
  }

  /** Nor can any other run of it reach the join. */
  lemma {:induction false} NoRoomNeverJoins(s: State, actions: seq<Action>)
    requires |s.taken| == |s.workers|
    requires s.capacity == 0 && s.queue == [] && s.toPost > 0 && s.closer != Joining && s.closer != Announcing
    requires IsRun(s, actions)
    ensures !Joined(After(s, actions))
    decreases |actions|
  {
    if actions != [] {
      NoRoomNeverJoins(Next(s, actions[0]), actions[1..]);
    }
  }

  // ---- termination ----

  function WorkerWork(w: Worker): (n: nat) {
    match w
    case Trying => 2 case Asleep => 1 case Notifying(_) => 5 case Handling(_) => 3 case Exited => 0
  }

  function WorkLeft(ws: seq<Worker>): (n: nat) {
    if ws == [] then 0 else WorkerWork(ws[0]) + WorkLeft(ws[1..])
  }

  function CloserWork(c: Closer): (n: nat) {
    match c
    case Absent => 3 case Posting => 2 case Blocked => 1 case Announcing => 4 case Joining => 0
  }

  /** What remains to be done, if nothing more is asked. */
  function Measure(s: State): (n: nat) {
    7 * s.toPost + 4 * |s.queue| + WorkLeft(s.workers) + CloserWork(s.closer)
    + 7 * s.trying + 6 * s.waiting + 2 * s.announcing + |s.uncounted|
  }

  lemma {:induction false} WorkLeftUpdate(ws: seq<Worker>, i: nat, w: Worker)
    requires i < |ws|
    ensures WorkLeft(ws[i := w]) + WorkerWork(ws[i]) == WorkLeft(ws) + WorkerWork(w)
  {
    if i > 0 {
      WorkLeftUpdate(ws[1..], i - 1, w);
      assert ws[i := w][1..] == ws[1..][i - 1 := w];
    } else {
      assert ws[0 := w][1..] == ws[1..];
    }
  }

  lemma OneFewer(ms: multiset<Msg>, m: Msg)
    requires m in ms
    ensures |ms - multiset{m}| == |ms| - 1
  {
    assert ms == ms - multiset{m} + multiset{m};
  }

  ghost predicate Progress(s: State, a: Action)
    requires Sized(s) && Enabled(s, a)
  {
    && (s.closer != Absent ==> Next(s, a).closer != Absent)
    && if Request(a) then Measure(Next(s, a)) <= Measure(s) + 7
       else if Spurious(a) then Measure(Next(s, a)) <= Measure(s) + 1
       else Measure(Next(s, a)) < Measure(s)
  }

  lemma WorkerProgress(s: State, a: Action)
    requires Sized(s) && CloserOk(s) && Enabled(s, a) && OfWorker(a)
    ensures Progress(s, a)
  {
    hide WorkLeft, Push, Evicted, Wake, CanWake, Count;
    match a
    case WorkerTries(w) =>
      WorkLeftUpdate(s.workers, w, if s.queue == [] then Asleep else Notifying(s.queue[0]));
    case WorkerNotifies(w) => WorkLeftUpdate(s.workers, w, Handling(s.workers[w].msg));
    case WorkerFinishes(w) =>
      WorkLeftUpdate(s.workers, w, if s.workers[w].msg.kind == Terminate then Exited else Trying);
    case WorkerWakesUp(w) => WorkLeftUpdate(s.workers, w, Trying);
  }

  lemma OfferProgress(s: State, a: Action)
    requires Sized(s) && CloserOk(s) && Enabled(s, a) && a.Offer?
    ensures Progress(s, a)
  {
    hide WorkLeft, Push, Evicted;
  }

  /** Every step is progress, except that a spurious wakeup costs one step and a request seven. */
  lemma StepMakesProgress(s: State, a: Action)
    requires Sized(s) && CloserOk(s) && Enabled(s, a)
    ensures s.closer != Absent ==> Next(s, a).closer != Absent
    ensures if Request(a) then Measure(Next(s, a)) <= Measure(s) + 7
            else if Spurious(a) then Measure(Next(s, a)) <= Measure(s) + 1
            else Measure(Next(s, a)) < Measure(s)
  {
    if OfWorker(a) {
      WorkerProgress(s, a);
    } else if a.Offer? {
      OfferProgress(s, a);
    } else if a.ProducerNotifies? || a.CloserNotifies? {
      NotifyProgress(s, a);
    } else if a.ProducerCounts? {
      CountProgress(s, a);
    } else {
      OtherProgress(s, a);
    }
    hide Next, Measure, CloserOk;
  }

  lemma NotifyProgress(s: State, a: Action)
    requires Sized(s) && CloserOk(s) && Enabled(s, a) && (a.ProducerNotifies? || a.CloserNotifies?)
    ensures Progress(s, a)
  {
    hide WorkLeft, Push, Evicted, Count;
    if a.woken.Some? { WorkLeftUpdate(s.workers, a.woken.value, Trying); }
  }

  lemma CountProgress(s: State, a: Action)
    requires Sized(s) && CloserOk(s) && Enabled(s, a) && a.ProducerCounts?
    ensures Progress(s, a)
  {
    hide WorkLeft, Push, Evicted, Count;
    OneFewer(s.uncounted, a.m);
  }

  lemma OtherProgress(s: State, a: Action)
    requires Sized(s) && CloserOk(s) && Enabled(s, a) && !OfWorker(a)
    requires !a.Offer? && !a.ProducerNotifies? && !a.CloserNotifies? && !a.ProducerCounts?
    ensures Progress(s, a)
  {
    hide WorkLeft, Push, Evicted, Count, Wake, CanWake;
  }

  function SpuriousCount(actions: seq<Action>): (n: nat)
    ensures n <= |actions|
  {
    if actions == [] then 0 else One(Spurious(actions[0])) + SpuriousCount(actions[1..])
  }

  function RequestCount(actions: seq<Action>): (n: nat)
    ensures n <= |actions|
  {
    if actions == [] then 0 else One(Request(actions[0])) + RequestCount(actions[1..])
  }

  /** Every run is bounded: each request, also a producer's wait for room, costs a fixed number of steps. */
  lemma {:induction false} RunsAreBounded(s: State, actions: seq<Action>)
    requires Inv(s) && IsRun(s, actions)
    ensures |actions| <= Measure(s) + 2 * SpuriousCount(actions) + 8 * RequestCount(actions)
    decreases |actions|
  {
    hide OverrunIsOlder, NewestWait, Dealt, Conserved, Ordered, Poisoned, NoLostWakeup, Next, Enabled, Measure;
    if actions != [] {
      StepMakesProgress(s, actions[0]);
      StepKeepsInv(s, actions[0]);
      RunsAreBounded(Next(s, actions[0]), actions[1..]);
    }
  }

  /** A closing pool is asked nothing more. */
  lemma {:induction false} NothingIsAsked(s: State, actions: seq<Action>)
    requires Inv(s) && s.closer != Absent && IsRun(s, actions)
    ensures RequestCount(actions) == 0
    decreases |actions|
  {
    if actions != [] {
      StepMakesProgress(s, actions[0]);
      StepKeepsInv(s, actions[0]);
      hide Inv, Next;
      NothingIsAsked(Next(s, actions[0]), actions[1..]);
    }
  }

  /** Shutdown ends: a closing pool takes no more steps than its measure and its spurious wakeups allow. */
  lemma ShutdownTerminates(s: State, actions: seq<Action>)
    requires Inv(s) && s.closer != Absent && IsRun(s, actions)
    ensures |actions| <= Measure(s) + 2 * SpuriousCount(actions)
  {
    RunsAreBounded(s, actions);
    NothingIsAsked(s, actions);
  }

  /** From wherever it is a pool can be brought to the join, or if it is open to rest with every producer
      through, without spurious wakeups and without being asked anything more. */
  lemma {:induction false} WorkCompletes(s: State) returns (actions: seq<Action>)
    requires Inv(s) && s.capacity > 0 && (|s.workers| > 0 || s.closer != Absent)
    ensures IsRun(s, actions) && SpuriousCount(actions) == 0 && RequestCount(actions) == 0
    ensures Joined(After(s, actions)) || Idle(After(s, actions))
    ensures s.closer != Absent ==> Joined(After(s, actions))
    ensures s.closer == Absent ==> Idle(After(s, actions))
    decreases Measure(s)
  {
    hide OverrunIsOlder, NewestWait, Dealt, Conserved, Ordered, Poisoned, NoLostWakeup, Next, Enabled, Measure;
    if Joined(s) || Idle(s) {
      actions := [];
    } else {
      var a := SomeoneCanGoOn(s);
      StepMakesProgress(s, a);
      StepKeepsInv(s, a);
      StaysOpen(s, a);
      var rest := WorkCompletes(Next(s, a));
      actions := [a] + rest;
      assert actions[1..] == rest;
    }
  }

  lemma StaysOpen(s: State, a: Action)
    requires Sized(s) && CloserOk(s) && Enabled(s, a) && a != Close
    ensures Next(s, a).closer == Absent <==> s.closer == Absent
  {
  }

  /** In particular a closing pool. */
  lemma ShutdownCompletes(s: State) returns (actions: seq<Action>)
    requires Inv(s) && s.capacity > 0 && s.closer != Absent
    ensures IsRun(s, actions) && SpuriousCount(actions) == 0 && Joined(After(s, actions))
  {
    actions := WorkCompletes(s);
  }
}
