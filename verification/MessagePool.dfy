/** The static message pool: one array of slots carved into a ring per message type, and the index
    manager that keeps each ring's bounds and cursors. */
module MessagePool {
  import opened Bytes
  import opened MessageRing
  import opened PoolSpec

  const POOL_SLOTS := 2000
  const INDEX_SLOTS := 50
  const MSG_TYPES := 16

  datatype Entry = Entry(msgType: MsgType, start: nat, end: nat, read: nat, write: nat, num: nat) {
    predicate Bounded() {
      start <= end && start <= read <= end && start <= write <= end
    }

    function Capacity(): int {
      end - start + 1
    }
  }

  /** What the simulator registers, in this order, and with how many slots. */
  const REGISTERED: seq<(MsgType, nat)> := [
    (AppRx, 150), (AppTx, 150), (MantRx, 36), (MantTx, 32), (VibRx, 36), (VobTx, 32),
    (VvbRx, 36), (BtmRx, 36), (VtsTx, 32), (StaRx, 36), (AswComTx, 32), (AswComRx, 36)]

  function Registered(n: nat): (rs: seq<Ring>)
    requires n <= |REGISTERED|
    ensures |rs| == n
  {
    if n == 0 then [] else Registered(n - 1) + [Ring(REGISTERED[n - 1].0, REGISTERED[n - 1].1, [])]
  }

  /** The rings of the simulator. */
  lemma RegisteredRings()
    ensures Registered(|REGISTERED|) ==
            [Ring(AppRx, 150, []), Ring(AppTx, 150, []), Ring(MantRx, 36, []), Ring(MantTx, 32, []),
             Ring(VibRx, 36, []), Ring(VobTx, 32, []), Ring(VvbRx, 36, []), Ring(BtmRx, 36, []),
             Ring(VtsTx, 32, []), Ring(StaRx, 36, []), Ring(AswComTx, 32, []), Ring(AswComRx, 36, [])]
  {
    RegisteredFirst();
    RegisteredMiddle();
    assert Registered(9) == Registered(8) + [Ring(VtsTx, 32, [])];
    assert Registered(10) == Registered(9) + [Ring(StaRx, 36, [])];
    assert Registered(11) == Registered(10) + [Ring(AswComTx, 32, [])];
    assert Registered(12) == Registered(11) + [Ring(AswComRx, 36, [])];
  }

  lemma RegisteredFirst()
    ensures Registered(4) ==
            [Ring(AppRx, 150, []), Ring(AppTx, 150, []), Ring(MantRx, 36, []), Ring(MantTx, 32, [])]
  {
    assert Registered(1) == [Ring(AppRx, 150, [])];
    assert Registered(2) == Registered(1) + [Ring(AppTx, 150, [])];
    assert Registered(3) == Registered(2) + [Ring(MantRx, 36, [])];
  }

  lemma RegisteredMiddle()
    ensures Registered(8) == Registered(4) +
            [Ring(VibRx, 36, []), Ring(VobTx, 32, []), Ring(VvbRx, 36, []), Ring(BtmRx, 36, [])]
  {
    assert Registered(5) == Registered(4) + [Ring(VibRx, 36, [])];
    assert Registered(6) == Registered(5) + [Ring(VobTx, 32, [])];
    assert Registered(7) == Registered(6) + [Ring(VvbRx, 36, [])];
  }

  function SlotsFor(n: nat): (k: nat)
    requires n <= |REGISTERED|
  {
    if n == 0 then 0 else SlotsFor(n - 1) + REGISTERED[n - 1].1
  }

  /** All twelve fit. */
  lemma {:induction false} SlotsForAll()
    ensures SlotsFor(|REGISTERED|) == 644 <= POOL_SLOTS
  {
    assert SlotsFor(2) == 300;
    assert SlotsFor(4) == 368;
    assert SlotsFor(6) == 436;
    assert SlotsFor(8) == 508;
    assert SlotsFor(10) == 576;
  }

  lemma {:induction false} SlotsForGrows(i: nat, j: nat)
    requires i <= j <= |REGISTERED|
    ensures SlotsFor(i) <= SlotsFor(j)
    decreases j
  {
    if i < j {
      SlotsForGrows(i, j - 1);
    }
  }

  lemma {:induction false} RegisteredTypes(n: nat)
    requires n <= |REGISTERED|
    ensures forall i :: 0 <= i < n ==> Registered(n)[i].msgType == REGISTERED[i].0
  {
    if n > 0 {
      RegisteredTypes(n - 1);
    }
  }

  lemma FreshType(n: nat)
    requires n < |REGISTERED|
    ensures Find(Registered(n), REGISTERED[n].0) == n
    ensures 0 < REGISTERED[n].1 <= 150 && SlotsFor(n) + REGISTERED[n].1 <= POOL_SLOTS
  {
    RegisteredTypes(n);
    TypesRegisteredOnce(n);
    SlotsForGrows(n + 1, |REGISTERED|);
    SlotsForAll();
  }

  lemma TypesRegisteredOnce(n: nat)
    requires n < |REGISTERED|
    ensures forall i :: 0 <= i < n ==> REGISTERED[i].0 != REGISTERED[n].0
    ensures 0 < REGISTERED[n].1 <= 150
  {
  }

  const NO_ENTRY := Entry(AppRx, 0, 0, 0, 0, 0)

  /** A slice begins where the one before it ends. */
  predicate Placed(es: seq<Entry>, i: nat) {
    && i < |es|
    && es[i].Bounded() && es[i].end < POOL_SLOTS
    && es[i].start == if i == 0 then 0 else es[i - 1].end + 1
  }

  /** The slices tile the pool from its start up to `used`, and no type has two. */
  ghost predicate Tiled(es: seq<Entry>, used: nat) {
    && used <= POOL_SLOTS
    && used == (if es == [] then 0 else es[|es| - 1].end + 1)
    && (forall i :: 0 <= i < |es| ==> Placed(es, i))
    && forall i, j :: 0 <= i < j < |es| ==> es[i].msgType != es[j].msgType
  }

  function Slice(e: Entry, slots: seq<Slot>): (s: seq<Slot>)
    requires e.Bounded() && e.end < |slots|
    ensures |s| == e.Capacity()
  {
    slots[e.start..e.end + 1]
  }

  ghost predicate EntryOk(e: Entry, slots: seq<Slot>) {
    && e.Bounded() && e.end < |slots|
    && RingOk(Slice(e, slots), e.read - e.start, e.num, MsgTypeSize(e.msgType))
    && e.write - e.start == At(e.read - e.start, e.num, e.Capacity())
  }

  ghost function RingOf(e: Entry, slots: seq<Slot>): (r: Ring)
    requires EntryOk(e, slots)
    ensures r.Valid() && r.msgType == e.msgType && r.capacity == e.Capacity() && |r.queue| == e.num
  {
    Ring(e.msgType, e.Capacity(), RingQueue(Slice(e, slots), e.read - e.start, e.num, MsgTypeSize(e.msgType)))
  }

  ghost predicate PoolOk(es: seq<Entry>, used: nat, slots: seq<Slot>) {
    && |slots| == POOL_SLOTS
    && Tiled(es, used)
    && (forall i :: 0 <= i < |es| ==> EntryOk(es[i], slots))
    && forall k :: used <= k < POOL_SLOTS ==> slots[k] == BLANK
  }

  ghost function Rings(es: seq<Entry>, used: nat, slots: seq<Slot>): (rs: seq<Ring>)
    requires PoolOk(es, used, slots)
    ensures |rs| == |es|
    ensures forall i :: 0 <= i < |rs| ==> rs[i] == RingOf(es[i], slots)
  {
    seq(|es|, i requires 0 <= i < |es| => RingOf(es[i], slots))
  }

  lemma RingsAreOk(es: seq<Entry>, used: nat, slots: seq<Slot>)
    requires PoolOk(es, used, slots)
    ensures RingsOk(Rings(es, used, slots))
  {
    hide EntryOk;
  }

  /** Slices are disjoint, in the order of their registration. */
  lemma {:induction false} SlicesDisjoint(es: seq<Entry>, used: nat, i: nat, j: nat)
    requires Tiled(es, used) && i < j <= |es|
    ensures es[i].end < if j < |es| then es[j].start else used
    decreases j
  {
    assert j < |es| ==> Placed(es, j);
    assert Placed(es, j - 1);
    if i < j - 1 {
      SlicesDisjoint(es, used, i, j - 1);
    }
  }

  /** Every slot in use belongs to a slice. */
  lemma SlicesCover(es: seq<Entry>, used: nat, k: nat) returns (i: nat)
    requires Tiled(es, used) && k < used
    ensures i < |es| && es[i].start <= k <= es[i].end
  {
    i := |es| - 1;
    while k < es[i].start
      invariant 0 <= i < |es| && k <= es[i].end
      decreases i
    {
      assert Placed(es, i);
      i := i - 1;
    }
  }

  lemma SlicesApart(es: seq<Entry>, used: nat, i: nat)
    requires Tiled(es, used) && i < |es|
    ensures forall j :: 0 <= j < |es| && j != i ==> es[j].end < es[i].start || es[i].end < es[j].start
    ensures forall j :: 0 <= j < |es| ==> es[j].end < used
    ensures forall j :: 0 <= j < |es| && j != i ==> es[j].msgType != es[i].msgType
  {
    forall j | 0 <= j < |es|
      ensures (j != i ==> es[j].end < es[i].start || es[i].end < es[j].start) && es[j].end < used
    {
      SlicesDisjoint(es, used, j, |es|);
      if j < i { SlicesDisjoint(es, used, j, i); } else if i < j { SlicesDisjoint(es, used, i, j); }
    }
  }

  predicate SameSlice(e: Entry, f: Entry) {
    e.Bounded() && e.msgType == f.msgType && e.start == f.start && e.end == f.end
  }

  lemma TiledUpdate(es: seq<Entry>, used: nat, i: nat, e: Entry)
    requires Tiled(es, used) && i < |es| && SameSlice(e, es[i])
    ensures Tiled(es[i := e], used)
  {
    var fs := es[i := e];
    forall j | 0 <= j < |es| ensures Placed(fs, j) {
      assert Placed(es, j);
    }
  }

  /** A ring whose slots have not changed is the ring it was. */
  lemma RingKept(e: Entry, slots: seq<Slot>, slots': seq<Slot>)
    requires EntryOk(e, slots) && |slots'| == |slots|
    requires forall k :: e.start <= k <= e.end ==> slots'[k] == slots[k]
    ensures EntryOk(e, slots') && RingOf(e, slots') == RingOf(e, slots)
  {
    hide RingOk, RingQueue, MsgTypeSize;
    assert Slice(e, slots') == Slice(e, slots);
  }

  /** No cursor, flag or octet of any other type has changed. */
  ghost predicate OthersKept(t: MsgType, es: seq<Entry>, slots: seq<Slot>, es': seq<Entry>, slots': seq<Slot>) {
    && |es'| == |es| && |slots'| == |slots|
    && forall j :: 0 <= j < |es| && es[j].msgType != t ==>
         && es'[j] == es[j]
         && forall k :: es[j].start <= k <= es[j].end && k < |slots| ==> slots'[k] == slots[k]
  }

  /** Changing one slice and its cursors leaves every other ring as it was. */
  lemma PoolUpdate(es: seq<Entry>, used: nat, slots: seq<Slot>, i: nat, e: Entry, slots': seq<Slot>)
    requires PoolOk(es, used, slots) && i < |es| && |slots'| == POOL_SLOTS
    requires SameSlice(e, es[i])
    requires forall k :: 0 <= k < POOL_SLOTS && !(e.start <= k <= e.end) ==> slots'[k] == slots[k]
    requires EntryOk(e, slots')
    ensures PoolOk(es[i := e], used, slots')
    ensures Rings(es[i := e], used, slots') == Rings(es, used, slots)[i := RingOf(e, slots')]
  {
    hide EntryOk, RingOf, Placed;
    SlicesApart(es, used, i);
    TiledUpdate(es, used, i, e);
    forall j | 0 <= j < |es| && j != i ensures EntryOk(es[j], slots') && RingOf(es[j], slots') == RingOf(es[j], slots) {
      RingKept(es[j], slots, slots');
    }
  }

  function Next(e: Entry, cursor: nat): (c: nat)
    requires e.Bounded() && e.start <= cursor <= e.end
    ensures e.start <= c <= e.end && c == e.start + At(cursor - e.start, 1, e.Capacity())
  {
    e.start + (cursor - e.start + 1) % e.Capacity()
  }

  /** The entry after a write. */
  function AfterWrite(e: Entry): (e': Entry)
    requires e.Bounded()
    ensures e'.Bounded()
  {
    if e.num < e.Capacity() then e.(num := e.num + 1, write := Next(e, e.write))
    else e.(write := Next(e, e.write), read := Next(e, e.read))
  }

  lemma WriteStep(e: Entry, slots: seq<Slot>, data: seq<byte>)
    requires EntryOk(e, slots) && |data| <= MsgTypeSize(e.msgType)
    ensures var slots' := Written(slots, e.write, data);
            var r := RingOf(e, slots);
            && EntryOk(AfterWrite(e), slots')
            && RingOf(AfterWrite(e), slots') == r.(queue := Enqueue(r.queue, r.capacity, data, MsgTypeSize(e.msgType)))
  {
    hide RingOk, RingQueue, Enqueue, MsgTypeSize;
    var size := MsgTypeSize(e.msgType);
    HoldsBound(Slice(e, slots), e.read - e.start, e.num, size, e.write - e.start);
    assert Slice(e, slots)[e.write - e.start] == slots[e.write];
    RingPush(Slice(e, slots), e.read - e.start, e.num, size, data);
    assert Slice(e, Written(slots, e.write, data)) == Written(Slice(e, slots), e.write - e.start, data);
  }

  lemma HoldsBound(slots: seq<Slot>, read: nat, num: nat, size: nat, k: nat)
    requires RingOk(slots, read, num, size) && k < |slots|
    ensures size <= SLOT_SIZE == |slots[k].data|
  {
    assert Holds(slots[k], size);
  }

  function AfterRead(e: Entry): (e': Entry)
    requires e.Bounded() && e.num > 0
    ensures e'.Bounded()
  {
    e.(num := e.num - 1, read := Next(e, e.read))
  }

  lemma ReadStep(e: Entry, slots: seq<Slot>)
    requires EntryOk(e, slots)
    ensures var size, r := MsgTypeSize(e.msgType), RingOf(e, slots);
            && size <= |slots[e.read].data|
            && (slots[e.read].received <==> r.queue != [])
            && (e.num > 0 <==> r.queue != [])
            && (r.queue != [] ==>
                  var slots' := Taken(slots, e.read, size);
                  && EntryOk(AfterRead(e), slots')
                  && slots[e.read].data[..size] == r.queue[0]
                  && RingOf(AfterRead(e), slots') == r.(queue := r.queue[1..]))
  {
    hide RingOk, RingQueue, MsgTypeSize;
    var size, read := MsgTypeSize(e.msgType), e.read - e.start;
    var slice := Slice(e, slots);
    HoldsBound(slice, read, e.num, size, read);
    FlagMeansNotEmpty(slice, read, e.num, size);
    assert slice[read] == slots[e.read];
    if e.num > 0 {
      RingPop(slice, read, e.num, size);
      assert Slice(e, Taken(slots, e.read, size)) == Taken(slice, read, size);
    }
  }

  /** Sixteen message types cannot fill the fifty places of the index manager. */
  lemma {:induction false} DistinctTypesAreFew(es: seq<Entry>, used: nat)
    requires Tiled(es, used)
    ensures |es| <= MSG_TYPES
  {
    var all := {AppRx, AppTx, MantRx, MantTx, VibRx, VobTx, VvbRx, BtmRx, VtsTx, StaRx,
                AswComRx, AswComTx, Vvb1Rx, Vvb2Rx, Btm1Rx, Btm2Rx};
    var seen := set i | 0 <= i < |es| :: es[i].msgType;
    SizeOfDistinct(es);
    assert seen <= all;
    SubsetSize(seen, all);
  }

  lemma {:induction false} SizeOfDistinct(es: seq<Entry>)
    requires forall i, j :: 0 <= i < j < |es| ==> es[i].msgType != es[j].msgType
    ensures |(set i | 0 <= i < |es| :: es[i].msgType)| == |es|
    decreases |es|
  {
    if es != [] {
      var init, last := es[..|es| - 1], es[|es| - 1];
      SizeOfDistinct(init);
      assert forall i :: 0 <= i < |init| ==> init[i] == es[i];
      assert (set i | 0 <= i < |es| :: es[i].msgType) == (set i | 0 <= i < |init| :: init[i].msgType) + {last.msgType};
    }
  }

  lemma {:induction false} SubsetSize<T>(a: set<T>, b: set<T>)
    requires a <= b
    ensures |a| <= |b|
  {
    assert b == a + (b - a);
  }

  lemma TiledExtend(es: seq<Entry>, used: nat, e: Entry)
    requires Tiled(es, used) && e.Bounded() && e.start == used && e.end < POOL_SLOTS
    requires forall i :: 0 <= i < |es| ==> es[i].msgType != e.msgType
    ensures Tiled(es + [e], e.end + 1)
  {
    var fs := es + [e];
    forall j | 0 <= j < |fs| ensures Placed(fs, j) {
      assert j < |es| ==> Placed(es, j);
    }
  }

  /** A slice added behind the others. */
  lemma PoolExtend(es: seq<Entry>, used: nat, slots: seq<Slot>, e: Entry)
    requires PoolOk(es, used, slots) && used <= e.end < POOL_SLOTS
    requires e == Entry(e.msgType, used, e.end, used, used, 0)
    requires forall i :: 0 <= i < |es| ==> es[i].msgType != e.msgType
    ensures PoolOk(es + [e], e.end + 1, slots)
    ensures Rings(es + [e], e.end + 1, slots) == Rings(es, used, slots) + [Ring(e.msgType, e.Capacity(), [])]
  {
    hide EntryOk, RingOf, Placed;
    TiledExtend(es, used, e);
    ResetStep(e, slots);
  }

  lemma ResetStep(e: Entry, slots: seq<Slot>)
    requires e.Bounded() && e.end < |slots| && e.read == e.start && e.write == e.start && e.num == 0
    requires forall k :: e.start <= k <= e.end ==> slots[k] == BLANK
    ensures EntryOk(e, slots) && RingOf(e, slots) == Ring(e.msgType, e.Capacity(), [])
  {
    hide MsgTypeSize;
    BlankRing(Slice(e, slots), MsgTypeSize(e.msgType));
  }

  lemma PoolIsTiled(es: seq<Entry>, used: nat, slots: seq<Slot>)
    requires PoolOk(es, used, slots)
    ensures Tiled(es, used)
  {
  }

  lemma TypesOfRings(es: seq<Entry>, used: nat, slots: seq<Slot>, t: MsgType)
    requires PoolOk(es, used, slots) && Find(Rings(es, used, slots), t) == |es|
    ensures forall i :: 0 <= i < |es| ==> es[i].msgType != t
  {
    var rs := Rings(es, used, slots);
    assert forall i :: 0 <= i < |es| ==> rs[i].msgType == es[i].msgType;
  }

  lemma FindIs(rs: seq<Ring>, t: MsgType, i: nat)
    requires i <= |rs| && (i < |rs| ==> rs[i].msgType == t)
    requires forall j :: 0 <= j < i ==> rs[j].msgType != t
    ensures Find(rs, t) == i
  {
  }

  class Pool {
    const slots: array<Slot>
    var used: nat
    const index: array<Entry>
    var types: nat

    ghost predicate Valid()
      reads this, slots, index
    {
      && slots.Length == POOL_SLOTS && index.Length == INDEX_SLOTS && types <= MSG_TYPES
      && PoolOk(index[..types], used, slots[..])
    }

    /** The queues the pool stands for, in the order the types were registered. */
    ghost function Model(): (rs: seq<Ring>)
      reads this, slots, index
      requires Valid()
      ensures RingsOk(rs)
    {
      RingsAreOk(index[..types], used, slots[..]);
      Rings(index[..types], used, slots[..])
    }

    constructor ()
      ensures Valid() && Model() == [] && fresh(slots) && fresh(index)
    {
      slots := new Slot[POOL_SLOTS](_ => BLANK);
      index := new Entry[INDEX_SLOTS](_ => NO_ENTRY);
      used, types := 0, 0;
    }

    /** Clear everything and register the twelve types of the simulator. */
    method Init() returns (ok: bool)
      requires slots.Length == POOL_SLOTS && index.Length == INDEX_SLOTS
      modifies this, slots, index
      ensures Valid() && ok && used == 644 && Model() == Registered(|REGISTERED|)
    {
      hide PoolOk, Rings, RingsOk, Find;
      Clear();
      ok := true;
      var i := 0;
      while i < |REGISTERED| && ok
        invariant 0 <= i <= |REGISTERED| && ok
        invariant Valid() && Model() == Registered(i) && used == SlotsFor(i)
      {
        FreshType(i);
        ok := AddMsgType(REGISTERED[i].0, REGISTERED[i].1);
        i := i + 1;
      }
      SlotsForAll();
    }

    method Clear()
      requires slots.Length == POOL_SLOTS && index.Length == INDEX_SLOTS
      modifies this, slots, index
      ensures Valid() && used == 0 && types == 0 && Model() == []
    {
      for i := 0 to slots.Length
        invariant forall k :: 0 <= k < i ==> slots[k] == BLANK
      {
        slots[i] := BLANK;
      }
      for i := 0 to index.Length
        invariant forall k :: 0 <= k < slots.Length ==> slots[k] == BLANK
      {
        index[i] := NO_ENTRY;
      }
      used, types := 0, 0;
    }

    /** Register a type; registering it again changes nothing. */
    method AddMsgType(t: MsgType, num: nat) returns (ok: bool)
      requires Valid() && 0 < num < 0x10000
      modifies this, index
      ensures Valid()
      ensures var rs := old(Model());
              if Find(rs, t) < |rs| then ok && Model() == rs && used == old(used)
              else if old(used) + num > 2000 then !ok && Model() == rs && used == old(used)
              else ok && Model() == rs + [Ring(t, num, [])] && used == old(used) + num
    {
      hide PoolOk, Rings, RingsOk, EntryOk, RingOf, Find, Tiled;
      var found := FindEntry(t);
      if found < types {
        return true;
      }
      if used + num > POOL_SLOTS {
        return false;
      }
      ghost var es := index[..types];
      var e := Entry(t, used, used + num - 1, used, used, 0);
      TypesOfRings(es, used, slots[..], t);
      PoolExtend(es, used, slots[..], e);
      index[types] := e;
      used := e.end + 1;
      types := types + 1;
      assert index[..types] == es + [e];
      PoolIsTiled(index[..types], used, slots[..]);
      DistinctTypesAreFew(index[..types], used);
      return true;
    }

    /** The place of a type in the index, or the number of entries if it has none. */
    method FindEntry(t: MsgType) returns (i: nat)
      requires Valid()
      ensures i == Find(Model(), t)
    {
      i := 0;
      while i < types
        invariant i <= types && forall j :: 0 <= j < i ==> index[j].msgType != t
      {
        if index[i].msgType == t {
          break;
        }
        i := i + 1;
      }
      FindIs(Model(), t, i);
    }

    method GetMsgNum(t: MsgType) returns (ok: bool, num: nat)
      requires Valid()
      ensures Apply(Model(), Op.GetMsgNum(t)) == (Model(), if ok then Count(num) else Failed)
    {
      hide PoolOk, Rings, RingOf, EntryOk, RingsOk, Find, Apply, MsgTypeSize;
      ApplyAt(Model(), Op.GetMsgNum(t));
      var i := FindEntry(t);
      if i == types {
        return false, 0;
      }
      var e := EntryAt(i);
      return true, e.num;
    }

    method Write(t: MsgType, data: seq<byte>) returns (ok: bool)
      requires Valid()
      modifies slots, index
      ensures Valid()
      ensures Apply(old(Model()), Op.Write(t, data)) == (Model(), if ok then Done else Failed)
      ensures OthersKept(t, old(index[..types]), old(slots[..]), index[..types], slots[..])
    {
      hide PoolOk, Rings, RingOf, EntryOk, RingsOk, Find, Apply, MsgTypeSize;
      ApplyAt(Model(), Op.Write(t, data));
      var size := MsgTypeSize(t);
      if size == 0 || |data| > size {
        return false;
      }
      var i := FindEntry(t);
      if i == types {
        return false;
      }
      WriteAt(i, data);
      return true;
    }

    /** Copy a message over the slot at the write cursor and move the cursors on. */
    method WriteAt(i: nat, data: seq<byte>)
      requires Valid() && i < types && |data| <= MsgTypeSize(index[i].msgType)
      modifies slots, index
      ensures Valid()
      ensures OthersKept(old(index[i].msgType), old(index[..types]), old(slots[..]), index[..types], slots[..])
      ensures var r := old(Model())[i];
              && |data| <= MsgTypeSize(r.msgType)
              && Model() == old(Model())[i := r.(queue := Enqueue(r.queue, r.capacity, data, MsgTypeSize(r.msgType)))]
    {
      hide PoolOk, Rings, RingOf, EntryOk, RingsOk, MsgTypeSize;
      var e := EntryAt(i);
      ghost var es, was := index[..types], slots[..];
      WriteStep(e, was, data);
      slots[e.write] := Slot(true, Overlay(data, slots[e.write].data));
      index[i] := AfterWrite(e);
      SliceChanged(i, es, was);
    }

    /** The invariant again after one slice and its entry have changed. */
    lemma SliceChanged(i: nat, es: seq<Entry>, was: seq<Slot>)
      requires slots.Length == POOL_SLOTS && index.Length == INDEX_SLOTS && i < types == |es| <= MSG_TYPES
      requires PoolOk(es, used, was)
      requires index[..types] == es[i := index[i]]
      requires SameSlice(index[i], es[i]) && EntryOk(index[i], slots[..])
      requires forall k :: 0 <= k < POOL_SLOTS && !(es[i].start <= k <= es[i].end) ==> slots[k] == was[k]
      ensures Valid()
      ensures Model() == Rings(es, used, was)[i := RingOf(index[i], slots[..])]
      ensures OthersKept(es[i].msgType, es, was, index[..types], slots[..])
    {
      hide EntryOk, RingOf, RingsOk;
      SlicesApart(es, used, i);
      PoolUpdate(es, used, was, i, index[i], slots[..]);
    }

    method EntryAt(i: nat) returns (e: Entry)
      requires Valid() && i < types
      ensures e == index[i] && e.Bounded() && e.end < POOL_SLOTS && EntryOk(e, slots[..])
      ensures |Model()| == types && Model()[i] == RingOf(e, slots[..])
      ensures Model()[i].msgType == e.msgType && |Model()[i].queue| == e.num
    {
      hide EntryOk, RingsOk;
      e := index[i];
      assert index[..types][i] == e;
      assert Placed(index[..types], i);
    }

    method Read(t: MsgType) returns (out: Out)
      requires Valid()
      modifies slots, index
      ensures Valid()
      ensures Apply(old(Model()), Op.Read(t)) == (Model(), out)
      ensures OthersKept(t, old(index[..types]), old(slots[..]), index[..types], slots[..])
    {
      hide PoolOk, Rings, RingOf, EntryOk, RingsOk, Find, Apply, MsgTypeSize;
      ApplyAt(Model(), Op.Read(t));
      var i := FindEntry(t);
      if i == types {
        return Failed;
      }
      var size := MsgTypeSize(t);
      if size == 0 {
        return Failed;
      }
      var e := EntryAt(i);
      ghost var es, was := index[..types], slots[..];
      ReadStep(e, was);
      if slots[e.read].received && e.num > 0 {
        out := Message(slots[e.read].data[..size]);
        slots[e.read] := Slot(false, Zeros(size) + slots[e.read].data[size..]);
        index[i] := e.(num := e.num - 1, read := Next(e, e.read));
        SliceChanged(i, es, was);
      } else {
        out := Empty;
      }
    }

    method Reset(t: MsgType) returns (ok: bool)
      requires Valid()
      modifies slots, index
      ensures Valid()
      ensures Apply(old(Model()), Op.Reset(t)) == (Model(), if ok then Done else Failed)
      ensures OthersKept(t, old(index[..types]), old(slots[..]), index[..types], slots[..])
    {
      hide PoolOk, Rings, RingOf, EntryOk, RingsOk, Find, Apply, MsgTypeSize;
      ApplyAt(Model(), Op.Reset(t));
      var i := FindEntry(t);
      if i == types {
        return false;
      }
      var e := EntryAt(i);
      ghost var es, was := index[..types], slots[..];
      for k := e.start to e.end + 1
        invariant index[..types] == es
        invariant forall j :: 0 <= j < POOL_SLOTS ==> slots[j] == if e.start <= j < k then BLANK else was[j]
      {
        slots[k] := BLANK;
      }
      index[i] := e.(num := 0, read := e.start, write := e.start);
      ResetStep(index[i], slots[..]);
      SliceChanged(i, es, was);
      return true;
    }
  }
}
