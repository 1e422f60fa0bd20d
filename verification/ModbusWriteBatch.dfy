/** Whole batches of writes: what they leave in the device, and reading them back. */
module ModbusWriteBatch {
  import opened Common
  import opened ModbusTypes
  import opened ModbusPlan
  import opened ModbusCodec
  import opened ModbusDevice
  import opened ModbusItems
  import opened ModbusSlots
  import opened ModbusMerge
  import opened ModbusOrders
  import opened ModbusMaster
  import opened ModbusWrite

  /** A writable address within 16 bits; anything else is refused before the bus is used. */
  predicate Accepted(a: Address, base: nat) {
    && AreaParse(a.area).Some? && AreaParse(a.area).value.IsWritable()
    && base <= a.offset <= 0xFFFF
  }

  function Bus(a: Address, base: nat): word
    requires Accepted(a, base)
  {
    a.offset - base
  }

  /** A write whose value encodes and whose cells the device has. */
  predicate Lands(a: Address, v: Value, base: nat, order: Order) {
    && Accepted(a, base)
    && ImageOf(a, v, order).Ok?
    && Bus(a, base) + ImageOf(a, v, order).value.Count() <= 0x1_0000
  }

  ghost predicate AllLand(addresses: seq<Address>, values: seq<Value>, n: nat, base: nat, order: Order)
    requires n <= |addresses| == |values|
  {
    forall i :: 0 <= i < n ==> Lands(addresses[i], values[i], base, order)
  }

  /** How many cells a write of this address covers. */
  function CellCount(a: Address): nat {
    if AddressIsBits(a) then (if a.length <= 1 then 1 else a.length)
    else if a.dtype == Text then (a.length + 1) / 2
    else RegistersPerElement(a.dtype) * a.length
  }

  lemma ImageCovers(a: Address, v: Value, order: Order)
    requires ImageOf(a, v, order).Ok?
    ensures ImageOf(a, v, order).value.Count() == CellCount(a)
    ensures ImageOf(a, v, order).value.Flags? <==> AddressIsBits(a)
  {
    hide FlagsOf, RegisterBytes;
    if !AddressIsBits(a) {
      RegisterBytesAreWhole(a, v, order);
    }
  }

  /** A writable address within 16 bits whose cells the device has, and a value that makes one request. */
  predicate Storable(a: Address, v: Value, base: nat, order: Order) {
    && Accepted(a, base) && a.offset - base + CellCount(a) <= 0x1_0000
    && CanBeWritten(a, v, order)
  }

  ghost predicate AllStorable(addresses: seq<Address>, values: seq<Value>, base: nat, order: Order)
    requires |addresses| == |values|
  {
    forall i :: 0 <= i < |addresses| ==> Storable(addresses[i], values[i], base, order)
  }

  /** The device after the first n writes. */
  ghost function PutAll(d: Device, addresses: seq<Address>, values: seq<Value>, n: nat, base: nat,
                        order: Order): (d': Device)
    requires d.Valid() && n <= |addresses| == |values| && AllLand(addresses, values, n, base, order)
    ensures d'.Valid()
  {
    if n == 0 then d
    else
      Put(PutAll(d, addresses, values, n - 1, base, order), Bus(addresses[n - 1], base),
          ImageOf(addresses[n - 1], values[n - 1], order).value)
  }

  lemma PutOneMore(d: Device, addresses: seq<Address>, values: seq<Value>, n: nat, base: nat, order: Order)
    requires d.Valid() && n < |addresses| == |values| && AllLand(addresses, values, n, base, order)
    requires Lands(addresses[n], values[n], base, order)
    ensures AllLand(addresses, values, n + 1, base, order)
    ensures PutAll(d, addresses, values, n + 1, base, order)
            == Put(PutAll(d, addresses, values, n, base, order), Bus(addresses[n], base),
                ImageOf(addresses[n], values[n], order).value)
  {
    hide Lands, ImageOf, Put;
  }

  /** d' is what the first n writes of the batch make of d: every one of them landed. */
  ghost predicate Written(d: Device, d': Device, addresses: seq<Address>, values: seq<Value>, n: nat, base: nat,
                          order: Order) {
    && d.Valid() && n <= |addresses| == |values|
    && AllLand(addresses, values, n, base, order)
    && d' == PutAll(d, addresses, values, n, base, order)
  }

  lemma NoneWritten(d: Device, addresses: seq<Address>, values: seq<Value>, base: nat, order: Order)
    requires d.Valid() && |addresses| == |values|
    ensures Written(d, d, addresses, values, 0, base, order)
  {
  }

  lemma OneMoreWritten(d: Device, now: Device, next: Device, addresses: seq<Address>, values: seq<Value>, n: nat,
                       base: nat, order: Order)
    requires Written(d, now, addresses, values, n, base, order) && n < |addresses|
    requires Lands(addresses[n], values[n], base, order)
    requires next == Put(now, Bus(addresses[n], base), ImageOf(addresses[n], values[n], order).value)
    ensures Written(d, next, addresses, values, n + 1, base, order)
  {
    hide Put, ImageOf, PutAll;
    PutOneMore(d, addresses, values, n, base, order);
  }

  /** One address: encode, request, and insist on the echo. */
  method WriteOne(m: Master, a: Address, v: Value, bus: word) returns (r: Result<()>)
    requires m.Valid() && Accepted(a, BaseOf(m.baseOne)) && bus == Bus(a, BaseOf(m.baseOne))
    modifies m`device, m`exchanges
    ensures m.Valid()
    ensures r.Ok? && !m.broadcast ==>
              Lands(a, v, BaseOf(m.baseOne), m.order)
                  && m.device == Put(old(m.device), bus, ImageOf(a, v, m.order).value)
    ensures m.CleanLink() && Storable(a, v, BaseOf(m.baseOne), m.order) ==> r.Ok?
    ensures !CanBeWritten(a, v, m.order) ==> r.Fail? && m.device == old(m.device)
    ensures JobOf(a, v, bus, m.order).Fail? ==> r == Fail(JobOf(a, v, bus, m.order).error) && m.device == old(m.device)
    ensures m.device != old(m.device) ==>
              Lands(a, v, BaseOf(m.baseOne), m.order)
                  && m.device == Put(old(m.device), bus, ImageOf(a, v, m.order).value)
  {
    hide Serve, CheckWriteReply, ImageOf, CoilJob, RegisterJob, CanBeWritten, CellCount;
    JobExactly(a, v, bus, m.order);
    var job: Result<WriteJob>;
    if AddressIsBits(a) {
      job := CoilRequest(a, v, bus);
    } else {
      job := RegisterRequest(a, v, bus, m.order);
    }
    if job.Fail? {
      return Fail(job.error);
    }
    JobDoesImage(m.device, a, v, bus, m.order);
    ImageCovers(a, v, m.order);
    var reply := m.Request(job.value.pdu);
    if reply.Fail? {
      return Fail(reply.error);
    }
    if reply.value == None {
      return Ok(());
    }
    r := CheckWriteReply(reply.value.value, job.value.code, bus, job.value.echo);
  }

  /** One entry of the batch: refused before the bus is used, or written. */
  method WriteEntry(m: Master, a: Address, v: Value) returns (r: Result<()>)
    requires m.Valid()
    modifies m`device, m`exchanges
    ensures m.Valid()
    ensures !Accepted(a, BaseOf(m.baseOne)) ==> m.device == old(m.device)
    ensures AreaParse(a.area) == None ==> r == Fail(Business(0x20))
    ensures AreaParse(a.area) in {Some(Discrete), Some(Input)} ==> r == Fail(Business(0x22))
    ensures AreaParse(a.area) in {Some(Coil), Some(Holding)} && !(BaseOf(m.baseOne) <= a.offset <= 65535) ==>
              r == Fail(Business(0x23))
    ensures r.Ok? ==> Accepted(a, BaseOf(m.baseOne))
    ensures m.device != old(m.device) ==>
              && Lands(a, v, BaseOf(m.baseOne), m.order)
              && m.device == Put(old(m.device), Bus(a, BaseOf(m.baseOne)), ImageOf(a, v, m.order).value)
    ensures r.Ok? && !m.broadcast ==>
              && Lands(a, v, BaseOf(m.baseOne), m.order)
              && m.device == Put(old(m.device), Bus(a, BaseOf(m.baseOne)), ImageOf(a, v, m.order).value)
    ensures m.CleanLink() && Storable(a, v, BaseOf(m.baseOne), m.order) ==> r.Ok?
  {
    hide ImageOf, JobOf, Put, AreaParse, CanBeWritten, CellCount;
    var area := AreaParse(a.area);
    if area == None {
      return Fail(Business(0x20));
    }
    if !area.value.IsWritable() {
      return Fail(Business(0x22));
    }
    if a.offset < BaseOf(m.baseOne) || a.offset > 0xFFFF {
      return Fail(Business(0x23));
    }
    r := WriteOne(m, a, v, a.offset - BaseOf(m.baseOne));
  }

  /**
   * Writes the addresses one after the other, stopping at the first that
   * fails. A success on an answering link means every cell of every address
   * now is what its value encodes to; after a failure that holds of the first few
   * addresses, and everything else is as it was.
   */
  method WriteBatch(m: Master, addresses: seq<Address>, values: seq<Value>) returns (r: Result<()>)
    requires m.Valid()
    modifies m`device, m`exchanges
    ensures m.Valid()
    ensures |values| != |addresses| ==> r == Fail(InvalidArg)
    ensures r.Ok? ==> |values| == |addresses|
    ensures r.Ok? ==> forall i :: 0 <= i < |addresses| ==> Accepted(addresses[i], BaseOf(m.baseOne))
    ensures r.Ok? && !m.broadcast ==>
              Written(old(m.device), m.device, addresses, values, |addresses|, BaseOf(m.baseOne), m.order)
    ensures |values| != |addresses| ==> m.device == old(m.device)
    ensures r.Fail? && |values| == |addresses| && !m.broadcast ==>
              exists n: nat :: Written(old(m.device), m.device, addresses, values, n, BaseOf(m.baseOne), m.order)
    ensures m.CleanLink() && |values| == |addresses| && AllStorable(addresses, values, BaseOf(m.baseOne), m.order) ==>
              r.Ok?
  {
    if |values| != |addresses| {
      return Fail(InvalidArg);
    }
    ghost var base := BaseOf(m.baseOne);
    NoneWritten(m.device, addresses, values, base, m.order);
    hide Put, Written, Lands, Accepted, Storable;
    for i := 0 to |addresses|
      invariant m.Valid()
      invariant forall k :: 0 <= k < i ==> Accepted(addresses[k], base)
      invariant !m.broadcast ==> Written(old(m.device), m.device, addresses, values, i, base, m.order)
    {
      ghost var now := m.device;
      var done := WriteEntry(m, addresses[i], values[i]);
      if done.Fail? {
        if !m.broadcast && m.device != now {
          OneMoreWritten(old(m.device), now, m.device, addresses, values, i, base, m.order);
        }
        return done;
      }
      if !m.broadcast {
        OneMoreWritten(old(m.device), now, m.device, addresses, values, i, base, m.order);
      }
    }
    return Ok(());
  }

  // -------------------------------------------------------- write, then read

  predicate Covers(a: Address, bits: bool, base: nat, cell: int) {
    AddressIsBits(a) == bits && a.offset - base <= cell < a.offset - base + CellCount(a)
  }

  /** No two addresses of the batch share a coil or a register. */
  ghost predicate Disjoint(addresses: seq<Address>) {
    forall i, j :: 0 <= i < j < |addresses| && AddressIsBits(addresses[i]) == AddressIsBits(addresses[j]) ==>
      || addresses[i].offset + CellCount(addresses[i]) <= addresses[j].offset
      || addresses[j].offset + CellCount(addresses[j]) <= addresses[i].offset
  }

  /** After the batch each address still holds its own image. */
  lemma {:induction false} PutAllHolds(d: Device, addresses: seq<Address>, values: seq<Value>, n: nat, base: nat,
                                       order: Order, i: nat)
    requires d.Valid() && n <= |addresses| == |values| && AllLand(addresses, values, n, base, order)
    requires Disjoint(addresses) && i < n
    ensures Holds(PutAll(d, addresses, values, n, base, order), Bus(addresses[i], base),
                  ImageOf(addresses[i], values[i], order).value)
  {
    hide ImageOf, PutAll, CellCount, Holds;
    var before := PutAll(d, addresses, values, n - 1, base, order);
    PutOneMore(d, addresses, values, n - 1, base, order);
    var last := ImageOf(addresses[n - 1], values[n - 1], order).value;
    ImageCovers(addresses[n - 1], values[n - 1], order);
    if i < n - 1 {
      PutAllHolds(d, addresses, values, n - 1, base, order, i);
      ImageCovers(addresses[i], values[i], order);
      PutKeeps(before, Bus(addresses[n - 1], base), last, Bus(addresses[i], base),
          ImageOf(addresses[i], values[i], order).value);
    } else {
      PutHolds(before, Bus(addresses[n - 1], base), last);
    }
  }

  lemma PutHolds(d: Device, at: nat, part: Image)
    requires d.Valid() && at + part.Count() <= 0x1_0000
    ensures Holds(Put(d, at, part), at, part)
  {
  }

  lemma PutKeeps(d: Device, at: nat, part: Image, bus: nat, image: Image)
    requires d.Valid() && at + part.Count() <= 0x1_0000 && bus + image.Count() <= 0x1_0000
    requires Holds(d, bus, image)
    requires part.Flags? == image.Flags? ==> at + part.Count() <= bus || bus + image.Count() <= at
    ensures Holds(Put(d, at, part), bus, image)
  {
    var d' := Put(d, at, part);
    if image.Flags? {
      SliceIsKept(d.coils, d'.coils, bus, bus + image.Count());
    } else {
      SliceIsKept(d.holdings, d'.holdings, bus, bus + image.Count());
    }
  }

  lemma SliceIsKept<T>(s: seq<T>, t: seq<T>, from: nat, to: nat)
    requires |s| == |t| && from <= to <= |s|
    requires forall k :: from <= k < to ==> s[k] == t[k]
    ensures s[from..to] == t[from..to]
  {
  }

  /** Whatever no address covers is as it was; inputs are never touched. */
  lemma {:induction false} PutAllElsewhere(d: Device, addresses: seq<Address>, values: seq<Value>, n: nat, base: nat,
                                           order: Order, cell: nat)
    requires d.Valid() && n <= |addresses| == |values| && AllLand(addresses, values, n, base, order) && cell < 0x1_0000
    ensures var d' := PutAll(d, addresses, values, n, base, order);
            && d'.discretes == d.discretes && d'.inputs == d.inputs
            && ((forall i :: 0 <= i < n ==> !Covers(addresses[i], true, base, cell)) ==>
                d'.coils[cell] == d.coils[cell])
            && ((forall i :: 0 <= i < n ==> !Covers(addresses[i], false, base, cell)) ==>
                d'.holdings[cell] == d.holdings[cell])
  {
    hide ImageOf, PutAll, CellCount, Put;
    if n > 0 {
      PutAllElsewhere(d, addresses, values, n - 1, base, order, cell);
      PutOneMore(d, addresses, values, n - 1, base, order);
      ImageCovers(addresses[n - 1], values[n - 1], order);
      PutElsewhere(PutAll(d, addresses, values, n - 1, base, order), Bus(addresses[n - 1], base),
                   ImageOf(addresses[n - 1], values[n - 1], order).value, cell);
    } else {
      PutNothing(d, addresses, values, base, order);
    }
  }

  lemma PutNothing(d: Device, addresses: seq<Address>, values: seq<Value>, base: nat, order: Order)
    requires d.Valid() && |addresses| == |values|
    ensures PutAll(d, addresses, values, 0, base, order) == d
  {
  }

  /** One write, seen from a cell it does not cover. */
  lemma PutElsewhere(d: Device, at: nat, part: Image, cell: nat)
    requires d.Valid() && at + part.Count() <= 0x1_0000 && cell < 0x1_0000
    ensures var d' := Put(d, at, part);
            && d'.discretes == d.discretes && d'.inputs == d.inputs
            && (part.Words? || cell < at || at + part.Count() <= cell ==> d'.coils[cell] == d.coils[cell])
            && (part.Flags? || cell < at || at + part.Count() <= cell ==> d'.holdings[cell] == d.holdings[cell])
  {
  }

  /** No address covers this coil or register. */
  ghost predicate Spared(addresses: seq<Address>, bits: bool, base: nat, cell: int) {
    forall i :: 0 <= i < |addresses| ==> !Covers(addresses[i], bits, base, cell)
  }

  /** The device d' is d but for the cells the addresses cover. */
  ghost predicate SameElsewhere(d: Device, d': Device, addresses: seq<Address>, base: nat)
    requires d.Valid() && d'.Valid()
  {
    && d'.discretes == d.discretes && d'.inputs == d.inputs
    && (forall cell :: 0 <= cell < 0x1_0000 && Spared(addresses, true, base, cell) ==> d'.coils[cell] == d.coils[cell])
    && (forall cell :: 0 <= cell < 0x1_0000 && Spared(addresses, false, base, cell) ==>
          d'.holdings[cell] == d.holdings[cell])
  }

  /**
   * Write then read. After a batch of disjoint writes every address reads back
   * as the canonical form of its value, and no other cell has changed.
   */
  lemma WriteThenRead(d: Device, addresses: seq<Address>, values: seq<Value>, base: nat, order: Order)
    requires d.Valid() && |addresses| == |values| && AllLand(addresses, values, |addresses|, base, order)
    requires Disjoint(addresses) && AllWellPlaced(addresses, base)
    ensures var d' := PutAll(d, addresses, values, |addresses|, base, order);
            && (forall i :: 0 <= i < |addresses| ==>
                  ReadAlone(d', addresses[i], base, order) == CanonicalAt(addresses[i], values[i]))
            && SameElsewhere(d, d', addresses, base)
  {
    hide ImageOf, ReadAlone, CanonicalAt, PutAll, Covers;
    var n := |addresses|;
    var d' := PutAll(d, addresses, values, n, base, order);
    forall i | 0 <= i < n
      ensures ReadAlone(d', addresses[i], base, order) == CanonicalAt(addresses[i], values[i])
    {
      assert Lands(addresses[i], values[i], base, order);
      PutAllHolds(d, addresses, values, n, base, order, i);
      HeldReadsBack(d', addresses[i], values[i], base, order);
    }
    PutAllElsewhere(d, addresses, values, n, base, order, 0);
    forall cell | 0 <= cell < 0x1_0000
      ensures Spared(addresses, true, base, cell) ==> d'.coils[cell] == d.coils[cell]
      ensures Spared(addresses, false, base, cell) ==> d'.holdings[cell] == d.holdings[cell]
    {
      PutAllElsewhere(d, addresses, values, n, base, order, cell);
    }
  }

  /**
   * The unused half of a string's last register is written as zero, so it is
   * unchanged exactly when it was zero before.
   */
  lemma OddTextPadsWithZero(d: Device, a: Address, v: Value, base: nat, order: Order)
    requires d.Valid() && Lands(a, v, base, order) && !AddressIsBits(a)
    requires a.dtype == Text && a.length % 2 == 1
    ensures var last := Bus(a, base) + a.length / 2;
            var after := Put(d, Bus(a, base), ImageOf(a, v, order).value);
            && last < 0x1_0000 && after.holdings[last] % 0x100 == 0
            && (after.holdings[last] % 0x100 == d.holdings[last] % 0x100 <==> d.holdings[last] % 0x100 == 0)
  {
    hide ImageOf;
    OddTextEndsInZero(a, v, order);
    ImageCovers(a, v, order);
  }

  lemma OddTextEndsInZero(a: Address, v: Value, order: Order)
    requires ImageOf(a, v, order).Ok? && !AddressIsBits(a) && a.dtype == Text && a.length % 2 == 1
    ensures var image := ImageOf(a, v, order).value;
            image.Words? && a.length / 2 < |image.words| && image.words[a.length / 2] % 0x100 == 0
  {
    hide EncodeTo;
    var bytes := RegisterBytes(a, v, order).value;
    RegisterBytesAreWhole(a, v, order);
    TextIsPrefix(a, v, order);
    WordAt(bytes, a.length / 2);
    hide RegisterBytes, BytesWords;
  }

  /** A device full of letters loses one when a single character is written next to it. */
  lemma PadByteIsLost(d: Device, a: Address, v: Value)
    requires d.Valid() && d.holdings[0] == 0x4142
    requires a == Address("holding", 0, 1, Text) && v == Chars([0x43])
    ensures Lands(a, v, 0, ABCD) && Put(d, 0, ImageOf(a, v, ABCD).value).holdings[0] == 0x4300
  {
    HoldingIsNamed();
    hide AreaParse;
    assert CString([0x43]) == [0x43] by {
      CStringIs([0x43], [0x43]);
    }
    assert Field([0x43], 1, 0) == [0x43];
    assert EncodeTo(v, Text, 1, ABCD, 250) == Ok([0x43]);
    assert BytesWords([0x43, 0]) == [0x4300] by {
      assert [0x43, 0][2..] == [];
    }
  }

  lemma {:induction false} WordAt(s: seq<byte>, k: nat)
    requires 2 * k + 1 < |s|
    ensures k < |BytesWords(s)| && BytesWords(s)[k] == Be16(s[2 * k], s[2 * k + 1])
  {
    if k > 0 {
      WordAt(s[2..], k - 1);
    }
  }

  /** A writable address never covers fewer cells than its elements read. */
  lemma ExtentWithinCells(a: Address, base: nat)
    requires WellPlaced(a, base)
    ensures Extent(a) <= CellCount(a)
  {
    hide AreaParse;
    WidthFits(a, base);
    if !AddressIsBits(a) && a.dtype != Text {
      assert a.length * RegistersPerElement(a.dtype) == RegistersPerElement(a.dtype) * a.length;
    }
  }

  lemma ElementInside(a: Address, i: nat, base: nat, e: nat)
    requires WellPlaced(a, base) && e < Elements(a)
    ensures var it := Placed(a, i, base, e);
            a.offset - base <= it.offset && it.End() <= a.offset - base + CellCount(a)
  {
    hide AreaParse, CellCount, ElementWidth;
    ElementEnds(a, base, e);
    ExtentWithinCells(a, base);
  }

  lemma ElementsInOrder(a: Address, i: nat, base: nat, e: nat, f: nat)
    requires WellPlaced(a, base) && e < f < Elements(a)
    ensures Placed(a, i, base, e).End() <= Placed(a, i, base, f).offset
  {
    var w := ElementWidth(a);
    assert (f - e) * w >= w;
    assert f * w == e * w + (f - e) * w;
  }

  /** The elements of disjoint writable addresses do not overlap: they can always be read back in one merged batch. */
  lemma DisjointIsSeparate(addresses: seq<Address>, baseOne: bool)
    requires Disjoint(addresses) && AllWellPlaced(addresses, BaseOf(baseOne))
    requires forall i :: 0 <= i < |addresses| ==> AreaParse(addresses[i].area).value.IsWritable()
    ensures Separate(addresses, baseOne) && Mergeable(addresses, baseOne)
  {
    var base := BaseOf(baseOne);
    hide Placed, CellCount, Layout, ElementWidth, AreaParse;
    forall area, x, y | Neighbours(addresses, base, area, x, y)
      ensures x.End() <= y.offset || y.End() <= x.offset
    {
      LayoutHolds(addresses, base, x);
      LayoutHolds(addresses, base, y);
      var a, b := addresses[x.index], addresses[y.index];
      if x.index != y.index {
        ElementInside(a, x.index, base, x.element);
        ElementInside(b, y.index, base, y.element);
        assert AddressIsBits(a) == AddressIsBits(b);
      } else if x.element < y.element {
        ElementsInOrder(a, x.index, base, x.element, y.element);
      } else if y.element < x.element {
        ElementsInOrder(a, x.index, base, y.element, x.element);
      }
    }
    SeparateIsMergeable(addresses, baseOne);
  }

  /** Every address gives back the value written to it. */
  ghost predicate AllReturn(addresses: seq<Address>, values: seq<Value>, got: seq<Value>)
    requires |addresses| == |values| == |got|
  {
    forall i :: 0 <= i < |addresses| ==>
      && ReturnsAt(addresses[i], values[i], got[i])
      && (FitsAt(addresses[i], values[i]) ==> got[i] == values[i])
  }

  lemma CanonicalAllReturn(addresses: seq<Address>, values: seq<Value>, got: seq<Value>, base: nat, order: Order)
    requires |addresses| == |values| == |got| && AllLand(addresses, values, |addresses|, base, order)
    requires AllWellPlaced(addresses, base)
    requires forall i :: 0 <= i < |addresses| ==> got[i] == CanonicalAt(addresses[i], values[i])
    ensures AllReturn(addresses, values, got)
  {
    hide CanonicalAt, ImageOf, ReturnsAt, FitsAt, Accepted, AreaParse;
    forall i | 0 <= i < |addresses|
      ensures ReturnsAt(addresses[i], values[i], got[i]) && (FitsAt(addresses[i], values[i]) ==> got[i] == values[i])
    {
      assert Lands(addresses[i], values[i], base, order) && WellPlaced(addresses[i], base);
      CanonicalReturnsAt(addresses[i], values[i], order);
      if FitsAt(addresses[i], values[i]) {
        FittingReturns(addresses[i], values[i], got[i]);
      }
    }
  }

  /**
   * The two batches one after the other, with any merge gap and over a link that may lose any exchange:
   * what a successful write stored, a successful merged read gives back, a value that
   * fits as it was, and nothing else changed. On a clean link both succeed.
   */
  method WriteThenReadBatch(m: Master, addresses: seq<Address>, values: seq<Value>)
    returns (written: Result<()>, r: Result<seq<Value>>)
    requires m.Valid() && Disjoint(addresses) && AllWellPlaced(addresses, BaseOf(m.baseOne))
    modifies m`device, m`exchanges
    ensures m.Valid()
    ensures written.Ok? && r.Ok? ==>
              |r.value| == |addresses| == |values| && AllReturn(addresses, values, r.value)
    ensures written.Ok? && !m.broadcast ==> SameElsewhere(old(m.device), m.device, addresses, BaseOf(m.baseOne))
    ensures m.CleanLink() && |values| == |addresses| && |ExpandAll(addresses)| <= 2048 ==>
              AllStorable(addresses, values, BaseOf(m.baseOne), m.order) ==> written.Ok? && r.Ok?
  {
    hide Serve, ExpandAll, CanonicalAt, ReadAlone, PutAll, SameElsewhere, AllLand, Layout, AreaParse,
        Separate, Mergeable, GivesValue, GapFits, AllStorable, AsRead, ReturnsAt,
        FitsAt;
    written := WriteBatch(m, addresses, values);
    if written.Fail? {
      return written, Fail(written.error);
    }
    ghost var after := m.device;
    DisjointIsSeparate(addresses, m.baseOne);
    r := m.ReadBatch(addresses);
    if !m.broadcast {
      WrittenMeans(old(m.device), after, addresses, values, BaseOf(m.baseOne), m.order);
      if r.Ok? {
        CanonicalAllReturn(addresses, values, r.value, BaseOf(m.baseOne), m.order);
      }
    }
  }

  lemma WrittenMeans(d: Device, d': Device, addresses: seq<Address>, values: seq<Value>, base: nat, order: Order)
    requires Written(d, d', addresses, values, |addresses|, base, order)
    requires Disjoint(addresses) && AllWellPlaced(addresses, base)
    ensures d'.Valid() && SameElsewhere(d, d', addresses, base)
    ensures |addresses| == |values| && AllLand(addresses, values, |addresses|, base, order)
    ensures forall i :: 0 <= i < |addresses| ==>
              ReadAlone(d', addresses[i], base, order) == CanonicalAt(addresses[i], values[i])
  {
    hide ReadAlone, CanonicalAt, PutAll, Covers, AllLand;
    WriteThenRead(d, addresses, values, base, order);
  }
}
