/**
 * The Modbus driver against one device: requests with retries over a link that
 * may fail, and the batch read that merges, fetches and scatters.
 */
module ModbusMaster {
  import opened Common
  import opened Bits
  import opened ModbusTypes
  import opened ModbusPlan
  import opened ModbusCodec
  import opened ModbusDevice
  import opened ModbusItems
  import opened ModbusSlots
  import opened ModbusMerge
  import opened ModbusOrders

  /**
   * How one exchange goes: clean, or lost on the way out or on the way back. That a
   * reply which arrives answers its own request is assumed here. Over TCP the
   * transaction id sees to it, save for the id 0xFFFF; the RTU envelope does not, and
   * there it is the link that must not deliver a reply late (ModbusLink).
   */
  datatype Fault = Clean | SendFails(e: Err) | Unheard(e: Err) | ReplyLost(e: Err)

  /** The longest PDU both envelopes carry. */
  const MAX_PDU: nat := 252

  // --------------------------------------------------------- items and slots

  /** The items of a batch within 16 bits, where they belong. */
  ghost predicate IsLaidOut(addresses: seq<Address>, baseOne: bool, items: seq<Item>) {
    AllWellPlaced(addresses, BaseOf(baseOne)) && items == Layout(addresses, BaseOf(baseOne))
  }

  /** An address asks for at least one element. */
  predicate LengthsArePositive(addresses: seq<Address>) {
    forall k :: 0 <= k < |addresses| ==> 1 <= addresses[k].length
  }

  ghost predicate InBatch(addresses: seq<Address>, items: seq<Item>) {
    forall k :: 0 <= k < |items| ==> items[k].index < |addresses|
  }

  lemma {:induction false} ExpandIsInBatch(addresses: seq<Address>)
    requires LengthsArePositive(addresses)
    ensures InBatch(addresses, ExpandAll(addresses))
    ensures forall i :: 0 <= i < |addresses| ==> HasSlot(ExpandAll(addresses), i)
  {
    if addresses != [] {
      var n := |addresses| - 1;
      ExpandIsInBatch(addresses[..n]);
      var front, own := ExpandAll(addresses[..n]), Expand(addresses[n], n, Elements(addresses[n]));
      forall i | 0 <= i < |addresses|
        ensures HasSlot(front + own, i)
      {
        if i < n {
          assert HasSlot(front, i);
          var k :| 0 <= k < |front| && front[k].index == i;
          assert (front + own)[k].index == i;
        } else {
          assert (front + own)[|front|].index == i;
        }
      }
    }
  }

  ghost predicate HasSlot(items: seq<Item>, i: nat) {
    exists k :: 0 <= k < |items| && items[k].index == i
  }

  lemma BuiltIsInBatch(addresses: seq<Address>, baseOne: bool)
    requires LengthsArePositive(addresses) && Built(addresses, baseOne).Ok?
    ensures InBatch(addresses, Built(addresses, baseOne).value)
    ensures forall i :: 0 <= i < |addresses| ==> HasSlot(Built(addresses, baseOne).value, i)
  {
    ExpandIsInBatch(addresses);
    var raw, items := ExpandAll(addresses), Built(addresses, baseOne).value;
    assert forall k :: 0 <= k < |raw| ==> items[k].index == raw[k].index;
    forall i | 0 <= i < |addresses|
      ensures HasSlot(items, i)
    {
      assert HasSlot(raw, i);
      var k :| 0 <= k < |raw| && raw[k].index == i;
      assert items[k].index == i;
    }
  }

  /** Some item before position n belongs to the area. */
  ghost predicate Seen(addresses: seq<Address>, items: seq<Item>, n: nat, area: Area)
    requires n <= |items| && InBatch(addresses, items)
  {
    exists k :: 0 <= k < n && AreaParse(addresses[items[k].index].area) == Some(area)
  }

  /** Slots after an area was read: its addresses hold what the spans gave, the others are as before. */
  ghost predicate AreaGives(d: Device, addresses: seq<Address>, baseOne: bool, mergeGap: nat, area: Area, order: Order,
                            before: seq<Slot>, after: seq<Slot>)
    requires d.Valid() && |before| == |after| == |addresses|
  {
    forall i :: 0 <= i < |addresses| ==>
      if AreaParse(addresses[i].area) != Some(area) then after[i] == before[i]
      else before[i] == None ==> Gives(d, addresses, baseOne, mergeGap, order, i, after[i])
  }

  lemma SortingKeepsBatch(addresses: seq<Address>, g: seq<Item>, h: seq<Item>)
    requires InBatch(addresses, g) && multiset(g) == multiset(h) && SortedItems(h)
    ensures InBatch(addresses, h) && Sorted(h)
    ensures |g| == |h|
  {
    forall k | 0 <= k < |h|
      ensures h[k].index < |addresses|
    {
      assert h[k] in multiset(g);
    }
    assert |g| == |multiset(g)|;
  }

  lemma PlanIsEmpty(group: seq<Item>, gap: nat, limit: nat, spans: seq<Span>, cuts: seq<nat>)
    requires IsPlan(group, gap, limit, spans, cuts)
    ensures |spans| == 0 <==> |group| == 0
  {
  }

  /** The elements the first k spans take are stored, one after the other. */
  ghost predicate StoredBy(slots: seq<Slot>, addresses: seq<Address>, group: seq<Item>, spans: seq<Span>, d: Device,
                           area: Area, order: Order, now: seq<Slot>)
    requires d.Valid() && |slots| == |addresses| && InBatch(addresses, group)
  {
    now == StoreAll(slots, addresses, FetchedBy(group, spans), d, area, order)
  }

  lemma NothingStored(slots: seq<Slot>, addresses: seq<Address>, group: seq<Item>, d: Device, area: Area, order: Order)
    requires d.Valid() && |slots| == |addresses| && InBatch(addresses, group)
    ensures StoredBy(slots, addresses, group, [], d, area, order, slots)
  {
  }

  /** Scattering the data of one more legal span stores the elements it takes. */
  lemma SpanStep(slots: seq<Slot>, addresses: seq<Address>, group: seq<Item>, spans: seq<Span>, k: nat,
                 behind: nat -> byte, d: Device, area: Area, order: Order, now: seq<Slot>)
    requires d.Valid() && |slots| == |addresses| == |now| && k < |spans| && spans[k].End() <= 0x1_0000
    requires InBatch(addresses, group) && forall j :: 0 <= j < |group| ==> Readable(area, group[j])
    requires StoredBy(slots, addresses, group, spans[..k], d, area, order, now)
    ensures var next := Scatter(now, addresses, group, 0, spans[k], Payload(d, area, spans[k].start, spans[k].count),
                                behind, area, order);
            next.Ok? && StoredBy(slots, addresses, group, spans[..k + 1], d, area, order, next.value)
  {
    hide Scatter, StoreAll, Payload, Where, Readable;
    var taken := Where(group, TakenBy(spans[k]));
    StoreNone(now, addresses, group, spans[k], d, area, order);
    ScatterStoresTaken(now, addresses, group, 0, spans[k], behind, d, area, order);
    FetchedByOneMore(group, spans, k);
    StoreAllJoins(slots, addresses, FetchedBy(group, spans[..k]), taken, d, area, order);
  }

  lemma StoreNone(now: seq<Slot>, addresses: seq<Address>, group: seq<Item>, span: Span, d: Device, area: Area,
                  order: Order)
    requires d.Valid() && |now| == |addresses| && InBatch(addresses, group)
    ensures Where(group[..0], TakenBy(span)) == []
    ensures StoreAll(now, addresses, Where(group[..0], TakenBy(span)), d, area, order) == now
  {
  }

  /** Once all spans are stored, every address of the area has what they gave. */
  lemma AreaIsGiven(slots: seq<Slot>, addresses: seq<Address>, baseOne: bool, mergeGap: nat, group: seq<Item>,
                    spans: seq<Span>, cuts: seq<nat>, d: Device, area: Area, order: Order, now: seq<Slot>)
    requires d.Valid() && |slots| == |addresses| == |now| && InBatch(addresses, group)
    requires AllWellPlaced(addresses, BaseOf(baseOne))
    requires Planned(addresses, baseOne, mergeGap, area, group, spans, cuts)
    requires StoredBy(slots, addresses, group, spans, d, area, order, now)
    ensures AreaGives(d, addresses, baseOne, mergeGap, area, order, slots, now)
  {
    hide Layout, Where, StoreAll, StoreRun, IsPlanTo, FetchedBy;
    var fetched := FetchedBy(group, spans);
    forall i | 0 <= i < |addresses|
      ensures if AreaParse(addresses[i].area) != Some(area) then now[i] == slots[i]
              else slots[i] == None ==> Gives(d, addresses, baseOne, mergeGap, order, i, now[i])
    {
      StoreAllAtSlot(slots, addresses, fetched, d, area, order, i);
      if AreaParse(addresses[i].area) != Some(area) {
        OthersNotFetched(addresses, BaseOf(baseOne), area, group, fetched, i);
        StoreRunOfNothing(slots[i], addresses[i], d, area, order);
      }
    }
  }

  lemma OthersNotFetched(addresses: seq<Address>, base: nat, area: Area, group: seq<Item>, fetched: seq<Item>, i: nat)
    requires AllWellPlaced(addresses, base) && IsGroup(addresses, base, area, group)
    requires forall k :: 0 <= k < |fetched| ==> fetched[k] in group
    requires i < |addresses| && AreaParse(addresses[i].area) != Some(area)
    ensures Where(fetched, AtSlot(i)) == []
  {
    hide Layout, Where;
    forall k | 0 <= k < |fetched|
      ensures fetched[k].index != i
    {
      var j :| 0 <= j < |group| && group[j] == fetched[k];
      MemberOfGroup(addresses, base, area, group, j);
    }
    WhereAll(fetched, AtSlot(i));
  }

  lemma StoreRunOfNothing(slot: Slot, a: Address, d: Device, area: Area, order: Order)
    requires d.Valid()
    ensures StoreRun(slot, a, [], d, area, order) == slot
  {
  }

  /** After i items: the areas they named are read, the others untouched. */
  ghost predicate ReadTo(d: Device, addresses: seq<Address>, items: seq<Item>, i: nat, baseOne: bool, mergeGap: nat,
                         order: Order, slots: seq<Slot>)
    requires d.Valid() && |slots| == |addresses| && i <= |items| && InBatch(addresses, items)
  {
    forall s :: 0 <= s < |addresses| && AreaParse(addresses[s].area).Some? ==>
      if Seen(addresses, items, i, AreaParse(addresses[s].area).value)
      then Gives(d, addresses, baseOne, mergeGap, order, s, slots[s]) else slots[s] == None
  }

  lemma StartsUnread(d: Device, addresses: seq<Address>, items: seq<Item>, baseOne: bool, mergeGap: nat, order: Order,
                     slots: seq<Slot>)
    requires d.Valid() && |slots| == |addresses| && InBatch(addresses, items)
    requires forall i :: 0 <= i < |slots| ==> slots[i] == None
    ensures ReadTo(d, addresses, items, 0, baseOne, mergeGap, order, slots)
  {
  }

  lemma SomebodyAnswered(addresses: seq<Address>, items: seq<Item>, i: nat, area: Area)
    requires i <= |items| && InBatch(addresses, items) && Seen(addresses, items, i, area)
    ensures i > 0
  {
  }

  lemma SeenStep(addresses: seq<Address>, items: seq<Item>, i: nat, area: Area)
    requires InBatch(addresses, items) && i < |items| && AreaParse(addresses[items[i].index].area) == Some(area)
    ensures forall other: Area :: Seen(addresses, items, i + 1, other)
              <==> Seen(addresses, items, i, other) || other == area
  {
    forall other: Area
      ensures Seen(addresses, items, i + 1, other) <==> Seen(addresses, items, i, other) || other == area
    {
    }
  }

  lemma ReadStep(d: Device, addresses: seq<Address>, items: seq<Item>, i: nat, area: Area, baseOne: bool,
                 mergeGap: nat, order: Order, before: seq<Slot>, after: seq<Slot>)
    requires d.Valid() && |before| == |after| == |addresses| && i < |items| && InBatch(addresses, items)
    requires ReadTo(d, addresses, items, i, baseOne, mergeGap, order, before)
    requires !Seen(addresses, items, i, area)
    requires forall other: Area :: Seen(addresses, items, i + 1, other)
              <==> Seen(addresses, items, i, other) || other == area
    requires AreaGives(d, addresses, baseOne, mergeGap, area, order, before, after)
    ensures ReadTo(d, addresses, items, i + 1, baseOne, mergeGap, order, after)
  {
    hide Gives, Seen;
  }

  lemma StillRead(d: Device, addresses: seq<Address>, items: seq<Item>, i: nat, area: Area, baseOne: bool,
                  mergeGap: nat, order: Order, slots: seq<Slot>)
    requires d.Valid() && |slots| == |addresses| && i < |items| && InBatch(addresses, items)
    requires Seen(addresses, items, i, area)
    requires forall other: Area :: Seen(addresses, items, i + 1, other)
              <==> Seen(addresses, items, i, other) || other == area
    ensures ReadTo(d, addresses, items, i, baseOne, mergeGap, order, slots) ==>
              ReadTo(d, addresses, items, i + 1, baseOne, mergeGap, order, slots)
  {
    hide Gives, Seen;
  }

  lemma AllKnown(addresses: seq<Address>, items: seq<Item>)
    requires InBatch(addresses, items)
    requires forall i :: 0 <= i < |addresses| ==> HasSlot(items, i)
    requires forall k :: 0 <= k < |items| ==> AreaParse(addresses[items[k].index].area).Some?
    ensures forall i :: 0 <= i < |addresses| ==> AreaParse(addresses[i].area).Some?
  {
    forall i | 0 <= i < |addresses|
      ensures AreaParse(addresses[i].area).Some?
    {
      assert HasSlot(items, i);
    }
  }

  lemma AllRead(d: Device, addresses: seq<Address>, items: seq<Item>, baseOne: bool, mergeGap: nat, order: Order,
                slots: seq<Slot>)
    requires d.Valid() && |slots| == |addresses| && InBatch(addresses, items)
    requires forall i :: 0 <= i < |addresses| ==> HasSlot(items, i)
    requires forall k :: 0 <= k < |items| ==> AreaParse(addresses[items[k].index].area).Some?
    requires ReadTo(d, addresses, items, |items|, baseOne, mergeGap, order, slots)
    ensures forall i :: 0 <= i < |addresses| ==> Gives(d, addresses, baseOne, mergeGap, order, i, slots[i])
  {
    hide Gives;
    AllKnown(addresses, items);
    forall i | 0 <= i < |addresses|
      ensures Gives(d, addresses, baseOne, mergeGap, order, i, slots[i])
    {
      assert HasSlot(items, i);
      assert Seen(addresses, items, |items|, AreaParse(addresses[i].area).value);
    }
  }

  lemma AreasAreKnown(addresses: seq<Address>, base: nat, i: nat)
    requires AllWellPlaced(addresses, base) && i < |addresses|
    ensures AreaParse(addresses[i].area).Some?
  {
    assert WellPlaced(addresses[i], base);
  }

  lemma SelectNotEmpty(addresses: seq<Address>, items: seq<Item>, i: nat, area: Area)
    requires InBatch(addresses, items) && i < |items| && AreaParse(addresses[items[i].index].area) == Some(area)
    ensures Where(items, InArea(addresses, area)) != []
  {
    WhereCounts(items, InArea(addresses, area), items[i]);
    assert items[i] in multiset(items);
    assert |multiset(Where(items, InArea(addresses, area)))| == |Where(items, InArea(addresses, area))|;
  }

  class Master {
    const broadcast: bool
    const serial: bool
    const retries: nat
    const mergeGap: nat
    const baseOne: bool
    const order: Order
    /** The fate of each exchange, and whether a reconnection succeeds after it. */
    const faults: nat -> Fault
    const reopens: nat -> bool
    /** What a read behind the data of a reply finds, after so many exchanges. */
    const behind: (nat, nat) -> byte
    var device: Device
    var exchanges: nat

    ghost predicate Valid()
      reads this
    {
      device.Valid() && mergeGap < 0x1_0000_0000
    }

    /** Every exchange succeeds and somebody answers. */
    ghost predicate CleanLink()
      reads this
    {
      !broadcast && forall n :: faults(n).Clean?
    }

    constructor (broadcast: bool, serial: bool, retries: nat, mergeGap: nat, baseOne: bool, order: Order,
                 faults: nat -> Fault, reopens: nat -> bool, behind: (nat, nat) -> byte, device: Device)
      requires device.Valid() && mergeGap < 0x1_0000_0000
      ensures Valid() && this.device == device
      ensures this.broadcast == broadcast && this.order == order && this.baseOne == baseOne && this.faults == faults
      ensures this.mergeGap == mergeGap
    {
      this.broadcast, this.serial, this.retries, this.mergeGap := broadcast, serial, retries, mergeGap;
      this.baseOne, this.order, this.faults, this.reopens := baseOne, order, faults, reopens;
      this.behind, this.device, this.exchanges := behind, device, 0;
    }

    // -------------------------------------------------------------- requests

    /** One request out, one reply in; a broadcast is answered by nobody. */
    method ExchangeOnce(pdu: seq<byte>) returns (r: Result<Option<seq<byte>>>)
      requires Valid() && |pdu| <= MAX_PDU
      modifies this`device, this`exchanges
      ensures Valid() && exchanges == old(exchanges) + 1
      ensures device == old(device) || device == Serve(old(device), pdu).0
      ensures r.Ok? && !broadcast ==> device == Serve(old(device), pdu).0 && r.value == Some(Serve(old(device), pdu).1)
      ensures r.Ok? && broadcast ==> r.value == None
      ensures (forall n :: faults(n).Clean?) ==> r.Ok?
    {
      var fault := faults(exchanges);
      exchanges := exchanges + 1;
      if fault.SendFails? {
        return Fail(fault.e);
      }
      var answer := Serve(device, pdu);
      if !fault.Unheard? {
        device := answer.0;
      }
      if broadcast {
        return Ok(None);
      }
      if !fault.Clean? {
        return Fail(fault.e);
      }
      return Ok(Some(answer.1));
    }

    /**
     * Repeats after transport errors, at most `retries` times. Whatever was
     * lost on the way, a success means the device carried out the request, and
     * carrying it out twice leaves the same memory and the same reply.
     */
    method Request(pdu: seq<byte>) returns (r: Result<Option<seq<byte>>>)
      requires Valid() && |pdu| <= MAX_PDU
      modifies this`device, this`exchanges
      ensures Valid()
      ensures old(exchanges) < exchanges <= old(exchanges) + retries + 1
      ensures device == old(device) || device == Serve(old(device), pdu).0
      ensures r.Ok? && !broadcast ==> device == Serve(old(device), pdu).0 && r.value == Some(Serve(old(device), pdu).1)
      ensures r.Ok? && broadcast ==> r.value == None
      ensures (forall n :: faults(n).Clean?) ==> r.Ok?
    {
      ghost var before := device;
      var attempt := 0;
      ServeTwice(before, pdu);
      hide Serve;
      while true
        invariant Valid() && attempt <= retries && exchanges == old(exchanges) + attempt
        invariant device == before || device == Serve(before, pdu).0
        invariant (forall n :: faults(n).Clean?) ==> attempt == 0
        decreases retries - attempt
      {
        r := ExchangeOnce(pdu);
        if r.Ok? || !r.error.Transport? || attempt >= retries {
          return;
        }
        attempt := attempt + 1;
        if !serial && !reopens(exchanges) {
          return Fail(Transport(0x1B));
        }
      }
    }

    // ----------------------------------------------------------------- reads

    /** The reply data of one span. */
    method ReadSpan(area: Area, span: Span) returns (r: Result<seq<byte>>)
      requires Valid()
      modifies this`device, this`exchanges
      ensures Valid() && device == old(device)
      ensures r.Ok? ==> !broadcast && |r.value| == ReadSize(area, span.count)
      ensures broadcast && (forall n :: faults(n).Clean?) ==> r == Fail(Business(0x24))
      ensures r.Ok? && 1 <= span.count <= area.MaxRead() && span.End() <= 0x1_0000 ==>
                r.value == Payload(device, area, span.start, span.count)
      ensures CleanLink() && 1 <= span.count <= area.MaxRead() && span.End() <= 0x1_0000 ==> r.Ok?
    {
      hide Serve, Payload, CheckReadReply, ReadPdu, Asks, ReadSize, Area.ReadCode, Area.MaxRead;
      var code := area.ReadCode();
      var pdu := ReadPdu(code, span.start, span.count);
      ReadLeaves(device, area, pdu);
      LegalIsShort(area, span);
      if 1 <= span.count <= area.MaxRead() && span.End() <= 0x1_0000 {
        ReadIsServed(device, area, span.start, span.count, pdu);
      }
      var bytes := ReadSize(area, span.count);
      var answer := Request(pdu);
      if answer.Fail? {
        return Fail(answer.error);
      }
      if answer.value == None {
        return Fail(Business(0x24));
      }
      r := CheckReadReply(answer.value.value, code, bytes);
    }

    /** Decode and store every element the span takes. */
    method ScatterSpan(slots: seq<Slot>, addresses: seq<Address>, group: seq<Item>, span: Span, data: seq<byte>,
                       behind: nat -> byte, area: Area)
      returns (r: Result<seq<Slot>>)
      requires |slots| == |addresses| && InBatch(addresses, group) && |data| == ReadSize(area, span.count)
      ensures r == Scatter(slots, addresses, group, 0, span, data, behind, area, order)
    {
      hide DecodeAt;
      var now := slots;
      for j := 0 to |group|
        invariant |now| == |addresses|
        invariant Scatter(now, addresses, group, j, span, data, behind, area, order)
                  == Scatter(slots, addresses, group, 0, span, data, behind, area, order)
      {
        var item := group[j];
        if item.offset < span.start || U32(item.offset + item.width) > U32(span.start + span.count) {
          continue;
        }
        var value: Value;
        if area.IsBits() {
          var bit := item.offset - span.start;
          value := Bool(Shr(ByteAt(data, behind, bit / 8), bit % 8) % 2 == 1);
        } else {
          var decoded := Decode(data, 2 * (item.offset - span.start), item.dtype, item.chars, order);
          if decoded.Fail? {
            return Fail(decoded.error);
          }
          value := decoded.value;
        }
        now := StoreItem(now, addresses, item, value);
      }
      return Ok(now);
    }

    /** The items of one area, in batch order. */
    method SelectArea(addresses: seq<Address>, items: seq<Item>, area: Area) returns (group: seq<Item>)
      requires InBatch(addresses, items)
      ensures group == Where(items, InArea(addresses, area))
      ensures InBatch(addresses, group)
    {
      group := [];
      for i := 0 to |items|
        invariant group == Where(items[..i], InArea(addresses, area))
        invariant InBatch(addresses, group)
      {
        WhereLast(items[..i + 1], InArea(addresses, area));
        assert items[..i + 1][..i] == items[..i];
        if AreaParse(addresses[items[i].index].area) == Some(area) {
          group := group + [items[i]];
        }
      }
      assert items[..|items|] == items;
    }

    /** Read one area of the batch: merge into spans, request, decode. */
    method ReadArea(addresses: seq<Address>, items: seq<Item>, area: Area, slots: seq<Slot>)
      returns (r: Result<seq<Slot>>)
      requires Valid() && |slots| == |addresses| && InBatch(addresses, items)
      modifies this`device, this`exchanges
      ensures Valid() && device == old(device)
      ensures r.Ok? ==> |r.value| == |slots|
      ensures r.Ok? && Where(items, InArea(addresses, area)) != [] ==> !broadcast
      ensures r.Ok? && IsLaidOut(addresses, baseOne, items) ==>
                AreaGives(device, addresses, baseOne, mergeGap, area, order, slots, r.value)
      ensures CleanLink() && IsLaidOut(addresses, baseOne, items) ==> r.Ok?
    {
      var selected := SelectArea(addresses, items, area);
      var group := SortItems(selected);
      SortingKeepsBatch(addresses, selected, group);
      hide Layout, Where, AllWellPlaced, AreaGives;
      r := ReadGroup(addresses, group, area, slots);
    }

    /** The merge and request loops over the sorted elements of one area. */
    method ReadGroup(addresses: seq<Address>, group: seq<Item>, area: Area, slots: seq<Slot>)
      returns (r: Result<seq<Slot>>)
      requires Valid() && |slots| == |addresses| && InBatch(addresses, group) && Sorted(group)
      modifies this`device, this`exchanges
      ensures Valid() && device == old(device)
      ensures r.Ok? ==> |r.value| == |slots|
      ensures r.Ok? && group != [] ==> !broadcast
      ensures r.Ok? && AllWellPlaced(addresses, BaseOf(baseOne)) && IsGroup(addresses, BaseOf(baseOne), area, group) ==>
                AreaGives(device, addresses, baseOne, mergeGap, area, order, slots, r.value)
      ensures CleanLink() ==> AllWellPlaced(addresses, BaseOf(baseOne)) ==>
                IsGroup(addresses, BaseOf(baseOne), area, group) ==> r.Ok?
    {
      hide Serve, Scatter, IsPlanTo, AreaGives, IsGroup, Sorted, Payload, StoredBy, Readable, OnBus, AllWellPlaced;
      ghost var ready := AllWellPlaced(addresses, BaseOf(baseOne)) && IsGroup(addresses, BaseOf(baseOne), area, group);
      var gap, limit := GapOf(mergeGap, area), area.MaxRead();
      var spans, cuts := Plan(group, gap, limit);
      PlanIsEmpty(group, gap, limit, spans, cuts);
      if ready {
        SpansAreLegal(addresses, baseOne, mergeGap, area, group, spans, cuts);
      }
      NothingStored(slots, addresses, group, device, area, order);
      assert spans[..0] == [];
      var now := slots;
      for k := 0 to |spans|
        invariant Valid() && device == old(device) && |now| == |slots|
        invariant k > 0 ==> !broadcast
        invariant ready ==> StoredBy(slots, addresses, group, spans[..k], device, area, order, now)
      {
        var data := ReadSpan(area, spans[k]);
        if data.Fail? {
          return Fail(data.error);
        }
        var sofar, strays := exchanges, behind;
        var beyond := (i: nat) => strays(sofar, i);
        if ready {
          SpanStep(slots, addresses, group, spans, k, beyond, device, area, order, now);
        }
        var next := ScatterSpan(now, addresses, group, spans[k], data.value, beyond, area);
        if next.Fail? {
          return next;
        }
        now := next.value;
      }
      assert spans[..|spans|] == spans;
      if ready {
        AreaIsGiven(slots, addresses, baseOne, mergeGap, group, spans, cuts, device, area, order, now);
      }
      return Ok(now);
    }

    /** True when an earlier item already had its area read. */
    method AreaHandled(addresses: seq<Address>, items: seq<Item>, i: nat, area: Area) returns (handled: bool)
      requires i <= |items| && InBatch(addresses, items)
      ensures handled <==> Seen(addresses, items, i, area)
    {
      for j := 0 to i
        invariant !Seen(addresses, items, j, area)
      {
        if AreaParse(addresses[items[j].index].area) == Some(area) {
          return true;
        }
      }
      return false;
    }

    /**
     * The batch read. Whatever exchanges the link loses, each value is what the
     * spans of its area gave. Without nested elements that is what reading the
     * address element by element gives, and what its cells say: for addresses of one
     * element, and for all when no elements overlap, with any merge gap, otherwise with
     * one that fits.
     */
    method ReadBatch(addresses: seq<Address>) returns (r: Result<seq<Value>>)
      requires Valid() && LengthsArePositive(addresses)
      modifies this`device, this`exchanges
      ensures Valid() && device == old(device)
      ensures addresses == [] ==> r == Ok([])
      ensures |ExpandAll(addresses)| > 2048 ==> r == Fail(OutOfRange)
      ensures r.Ok? ==> |r.value| == |addresses|
      ensures r.Ok? ==> forall i :: 0 <= i < |addresses| ==> AreaParse(addresses[i].area).Some?
      ensures r.Ok? && addresses != [] ==> !broadcast
      ensures r.Ok? && AllWellPlaced(addresses, BaseOf(baseOne)) ==>
                forall i :: 0 <= i < |addresses| ==>
                  GivesValue(device, addresses, baseOne, mergeGap, order, i, r.value[i])
      ensures r.Ok? && Mergeable(addresses, baseOne) ==>
                forall i :: 0 <= i < |addresses| && SurelyRight(addresses, baseOne, mergeGap, i) ==>
                  && r.value[i] == ReadAlone(device, addresses[i], BaseOf(baseOne), order)
                  && WellPlaced(addresses[i], BaseOf(baseOne))
                  && r.value[i] == AsRead(device, addresses[i], BaseOf(baseOne), order)
      ensures CleanLink() && AllWellPlaced(addresses, BaseOf(baseOne)) && |ExpandAll(addresses)| <= 2048 ==> r.Ok?
    {
      if addresses == [] {
        return Ok([]);
      }
      var capacity := BatchCapacity(addresses);
      var built := BuildItems(addresses, baseOne, capacity);
      if AllWellPlaced(addresses, BaseOf(baseOne)) {
        BuiltIsLayout(addresses, baseOne);
      }
      if built.Fail? {
        return Fail(built.error);
      }
      var items := built.value;
      BuiltIsInBatch(addresses, baseOne);
      hide Built, ExpandAll, Layout, Mergeable, ReadAlone, AsRead, Gives, AllWellPlaced, WellPlaced, SurelyRight;
      var slots := ReadItems(addresses, items);
      if slots.Fail? {
        return Fail(slots.error);
      }
      r := Ok(seq(|addresses|, i requires 0 <= i < |addresses| => Shown(slots.value[i])));
      if AllWellPlaced(addresses, BaseOf(baseOne)) {
        AllShown(device, addresses, baseOne, mergeGap, order, slots.value, r.value);
        AllAsRead(device, addresses, BaseOf(baseOne), order);
      } else {
        NotMergeable(addresses, baseOne);
      }
    }

    /** One area per request: each area is read when its first item comes up. */
    method ReadItems(addresses: seq<Address>, items: seq<Item>) returns (r: Result<seq<Slot>>)
      requires Valid() && InBatch(addresses, items)
      requires forall i :: 0 <= i < |addresses| ==> HasSlot(items, i)
      modifies this`device, this`exchanges
      ensures Valid() && device == old(device)
      ensures r.Ok? ==> |r.value| == |addresses|
      ensures r.Ok? ==> forall i :: 0 <= i < |addresses| ==> AreaParse(addresses[i].area).Some?
      ensures r.Ok? && items != [] ==> !broadcast
      ensures r.Ok? && IsLaidOut(addresses, baseOne, items) ==>
                forall i :: 0 <= i < |addresses| ==>
                  Gives(device, addresses, baseOne, mergeGap, order, i, r.value[i])
      ensures CleanLink() && IsLaidOut(addresses, baseOne, items) ==> r.Ok?
    {
      hide Layout, Gives, Where, Seen, ReadTo, AreaGives, AllWellPlaced;
      ghost var base := BaseOf(baseOne);
      ghost var ready := IsLaidOut(addresses, baseOne, items);
      var slots: seq<Slot> := seq(|addresses|, _ => None);
      StartsUnread(device, addresses, items, baseOne, mergeGap, order, slots);
      for i := 0 to |items|
        invariant Valid() && device == old(device) && |slots| == |addresses|
        invariant forall k :: 0 <= k < i ==> AreaParse(addresses[items[k].index].area).Some?
        invariant i > 0 ==> !broadcast
        invariant ready ==> ReadTo(device, addresses, items, i, baseOne, mergeGap, order, slots)
      {
        var area := AreaParse(addresses[items[i].index].area);
        if area == None {
          if ready {
            AreasAreKnown(addresses, base, items[i].index);
          }
          return Fail(Business(0x20));
        }
        SeenStep(addresses, items, i, area.value);
        var handled := AreaHandled(addresses, items, i, area.value);
        if handled {
          SomebodyAnswered(addresses, items, i, area.value);
          StillRead(device, addresses, items, i, area.value, baseOne, mergeGap, order, slots);
        } else {
          SelectNotEmpty(addresses, items, i, area.value);
          ghost var before := slots;
          var next := ReadArea(addresses, items, area.value, slots);
          if next.Fail? {
            return next;
          }
          slots := next.value;
          if ready {
            ReadStep(device, addresses, items, i, area.value, baseOne, mergeGap, order, before, slots);
          }
        }
      }
      if ready {
        AllRead(device, addresses, items, baseOne, mergeGap, order, slots);
      }
      AllKnown(addresses, items);
      return Ok(slots);
    }
  }

  lemma LegalIsShort(area: Area, span: Span)
    ensures 1 <= span.count <= area.MaxRead() && span.End() <= 0x1_0000 ==>
              span.start % 0x1_0000 == span.start && span.count % 0x1_0000 == span.count
    ensures area.ReadCode() < 0x80
  {
  }

  lemma NotMergeable(addresses: seq<Address>, baseOne: bool)
    requires !AllWellPlaced(addresses, BaseOf(baseOne))
    ensures !Mergeable(addresses, baseOne)
  {
  }

  lemma AllAsRead(d: Device, addresses: seq<Address>, base: nat, order: Order)
    requires d.Valid() && AllWellPlaced(addresses, base)
    ensures forall i :: 0 <= i < |addresses| ==>
              && WellPlaced(addresses[i], base)
              && ReadAlone(d, addresses[i], base, order) == AsRead(d, addresses[i], base, order)
  {
    hide ReadAlone, AsRead, AreaParse;
    forall i | 0 <= i < |addresses|
      ensures WellPlaced(addresses[i], base)
              && ReadAlone(d, addresses[i], base, order) == AsRead(d, addresses[i], base, order)
    {
      AloneIsAsRead(d, addresses[i], base, order);
    }
  }

  /** Every slot as the result shows it. */
  lemma AllShown(d: Device, addresses: seq<Address>, baseOne: bool, mergeGap: nat, order: Order, slots: seq<Slot>,
                 values: seq<Value>)
    requires d.Valid() && mergeGap < 0x1_0000_0000 && |slots| == |values| == |addresses|
    requires forall i :: 0 <= i < |addresses| ==> Gives(d, addresses, baseOne, mergeGap, order, i, slots[i])
    requires forall i :: 0 <= i < |addresses| ==> values[i] == Shown(slots[i])
    requires forall i :: 0 <= i < |addresses| ==> AreaParse(addresses[i].area).Some?
    ensures forall i :: 0 <= i < |addresses| ==> GivesValue(d, addresses, baseOne, mergeGap, order, i, values[i])
    ensures Mergeable(addresses, baseOne) ==>
              forall i :: 0 <= i < |addresses| && SurelyRight(addresses, baseOne, mergeGap, i) ==>
                values[i] == ReadAlone(d, addresses[i], BaseOf(baseOne), order)
  {
    hide Mergeable, ReadAlone, Planned, SlotFrom, SurelyRight;
    forall i | 0 <= i < |addresses|
      ensures GivesValue(d, addresses, baseOne, mergeGap, order, i, values[i])
    {
      assert Gives(d, addresses, baseOne, mergeGap, order, i, slots[i]) && values[i] == Shown(slots[i]);
    }
    if Mergeable(addresses, baseOne) {
      forall i | 0 <= i < |addresses| && SurelyRight(addresses, baseOne, mergeGap, i)
        ensures values[i] == ReadAlone(d, addresses[i], BaseOf(baseOne), order)
      {
        ValueIsRight(d, addresses, baseOne, mergeGap, order, i, values[i]);
      }
    }
  }

  /** Two registers x and y read as one signed number, in each of the four orders and under any merge gap. */
  method ReadLong(m: Master, offset: nat, x: word, y: word) returns (r: Result<seq<Value>>)
    requires m.Valid() && offset < 0xFFFF && m.device.holdings[offset] == x && m.device.holdings[offset + 1] == y
    modifies m`device, m`exchanges
    ensures m.CleanLink() ==> r.Ok?
    ensures r.Ok? && m.order == ABCD ==> r.value == [Int(Number(x * 65536 + y, 32))]
    ensures r.Ok? && m.order == CDAB ==> r.value == [Int(Number(y * 65536 + x, 32))]
    ensures r.Ok? && m.order == BADC ==> r.value == [Int(Number(Turned(x) * 65536 + Turned(y), 32))]
    ensures r.Ok? && m.order == DCBA ==> r.value == [Int(Number(Turned(y) * 65536 + Turned(x), 32))]
  {
    var a := Address("holding", if m.baseOne then offset + 1 else offset, 1, Int32);
    ghost var d := m.device;
    assert d.Valid();
    LongIsAlone(a, m.baseOne, m.mergeGap, offset);
    LongSays(d, a, BaseOf(m.baseOne), m.order, offset, x, y);
    hide *;
    r := m.ReadBatch([a]);
    if r.Ok? {
      assert r.value == [AsRead(d, a, BaseOf(m.baseOne), m.order)];
    }
  }

  /** With a gap that does not fit, on a clean link, the twins come back as lists of more than two. */
  method WideGapListsTooMuch(m: Master) returns (area: Area, r: Result<seq<Value>>)
    requires m.Valid() && m.CleanLink() && !GapFits(m.mergeGap)
    modifies m`device, m`exchanges
    ensures Mergeable(Twins(area, m.baseOne), m.baseOne)
    ensures r.Ok? && |r.value| == 2 && forall i :: 0 <= i < 2 ==> r.value[i].List? && |r.value[i].items| > 2
  {
    hide Mergeable, GapFits, Separate, GivesValue, ExpandAll, ReadAlone, AreaParse, Layout;
    area := if GapKeeps(GapOf(m.mergeGap, Coil)) then Holding else Coil;
    WideSomewhere(m.mergeGap);
    TwinsAreMergeable(area, m.baseOne);
    MergeableIsPlaced(Twins(area, m.baseOne), m.baseOne);
    TwinsAreFew(area, m.baseOne);
    r := m.ReadBatch(Twins(area, m.baseOne));
    forall i | 0 <= i < 2
      ensures r.value[i].List? && |r.value[i].items| > 2
    {
      TwinIsTooLong(m.device, m.baseOne, m.mergeGap, m.order, area, i, r.value[i]);
    }
  }

  lemma WideSomewhere(mergeGap: nat)
    requires mergeGap < 0x1_0000_0000 && !GapFits(mergeGap)
    ensures GapKeeps(GapOf(mergeGap, Coil)) ==> !GapKeeps(GapOf(mergeGap, Holding))
  {
    GapFitsMeans(mergeGap);
    var area :| !GapKeeps(GapOf(mergeGap, area));
    assert GapOf(mergeGap, area) == GapOf(mergeGap, TwinArea(area));
  }

  lemma TwinsAreFew(area: Area, baseOne: bool)
    ensures |ExpandAll(Twins(area, baseOne))| == 4
  {
    var pair := Twins(area, baseOne);
    assert pair[..1][..0] == [];
    assert |ExpandAll(pair[..1])| == 2;
  }

  lemma LongIsAlone(a: Address, baseOne: bool, mergeGap: nat, offset: nat)
    requires a == Address("holding", if baseOne then offset + 1 else offset, 1, Int32) && offset < 0xFFFF
    ensures Mergeable([a], baseOne) && |ExpandAll([a])| <= 2048 && AllWellPlaced([a], BaseOf(baseOne))
    ensures WellPlaced(a, BaseOf(baseOne)) && LengthsArePositive([a]) && SurelyRight([a], baseOne, mergeGap, 0)
    ensures AreaParse(a.area) == Some(Holding) && a.offset == BaseOf(baseOne) + offset
  {
    HoldingIsNamed();
    hide AreaParse;
    assert WellPlaced(a, BaseOf(baseOne));
    assert [a][..0] == [];
    assert Separate([a], baseOne) by {
      hide Placed, ElementWidth, WellPlaced, Layout;
      forall area, x, y
        ensures !Neighbours([a], BaseOf(baseOne), area, x, y)
      {
        LayoutHolds([a], BaseOf(baseOne), x);
        LayoutHolds([a], BaseOf(baseOne), y);
      }
    }
    SeparateIsMergeable([a], baseOne);
  }

  lemma LongSays(d: Device, a: Address, base: nat, order: Order, offset: nat, x: word, y: word)
    requires d.Valid() && WellPlaced(a, base) && AreaParse(a.area) == Some(Holding)
    requires a.dtype == Int32 && a.length == 1 && a.offset == base + offset && offset < 0xFFFF
    requires d.holdings[offset] == x && d.holdings[offset + 1] == y
    ensures AsRead(d, a, base, order)
            == match order
               case ABCD => Int(Number(x * 65536 + y, 32))
               case CDAB => Int(Number(y * 65536 + x, 32))
               case BADC => Int(Number(Turned(x) * 65536 + Turned(y), 32))
               case DCBA => Int(Number(Turned(y) * 65536 + Turned(x), 32))
  {
    hide AreaParse, Number, Turned;
    var r := d.holdings[offset..offset + 2];
    assert r[0] == x && r[1] == y;
  }
}
