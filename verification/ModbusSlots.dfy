/**
 * From the data of the merged requests to one value per address: what reading
 * an element on its own gives, and why scattering the spans gives the same.
 */
module ModbusSlots {
  import opened Common
  import opened Bits
  import opened ModbusTypes
  import opened ModbusPlan
  import opened ModbusCodec
  import opened ModbusDevice
  import opened ModbusItems

  type Slot = Option<Value>

  // ------------------------------------------------------------ naive reads

  /** What reading this one element, and nothing else, gives. */
  function ElementValue(d: Device, area: Area, it: Item, order: Order): (r: Result<Value>)
    requires d.Valid() && it.End() <= 0x1_0000 && it.width >= 1
  {
    if area.IsBits() then Ok(Bool(d.Flags(area)[it.offset]))
    else DecodeAt(WordBytes(d.Words(area)[it.offset..it.End()]), 0, it.dtype, it.chars, order)
  }

  /** The same with a stand-in for what cannot be decoded. */
  function ValueOrZero(d: Device, area: Area, order: Order, it: Item): Value
    requires d.Valid()
  {
    if it.End() <= 0x1_0000 && it.width >= 1 && ElementValue(d, area, it, order).Ok?
    then ElementValue(d, area, it, order).value else Int(0)
  }

  /** An element every device of the area can answer and the codec can decode. */
  predicate Readable(area: Area, it: Item) {
    && it.End() <= 0x1_0000
    && 1 <= it.width <= area.MaxRead()
    && (area.IsBits() ||
        if it.dtype == Text then it.chars <= 2 * it.width
        else it.dtype != Bit && it.width == RegistersPerElement(it.dtype))
  }

  lemma ReadableDecodes(d: Device, area: Area, it: Item, order: Order)
    requires d.Valid() && Readable(area, it)
    ensures ElementValue(d, area, it, order).Ok?
  {
  }

  /** Reading an address element by element: a scalar, or the list of its elements in order. */
  function ReadAlone(d: Device, a: Address, base: nat, order: Order): Value
    requires d.Valid() && AreaParse(a.area).Some?
  {
    var area := AreaParse(a.area).value;
    if a.length <= 1 || a.dtype == Text then ValueOrZero(d, area, order, Placed(a, 0, base, 0))
    else List(ElementsAlone(d, area, a, base, order, a.length))
  }

  /** The first n elements of an address, each read on its own. */
  function ElementsAlone(d: Device, area: Area, a: Address, base: nat, order: Order, n: nat): (vs: seq<Value>)
    requires d.Valid()
    ensures |vs| == n
    ensures forall e :: 0 <= e < n ==> vs[e] == ValueOrZero(d, area, order, Placed(a, 0, base, e))
  {
    seq(n, e requires 0 <= e < n => ValueOrZero(d, area, order, Placed(a, 0, base, e)))
  }

  lemma PlacedIsReadable(a: Address, i: nat, base: nat, e: nat)
    requires WellPlaced(a, base) && e < Elements(a)
    ensures Readable(AreaParse(a.area).value, Placed(a, i, base, e))
  {
    WidthFits(a, base);
    ElementEnds(a, base, e);
  }

  // ---------------------------------------------------------- one span's data

  /** The test of the decode loop: does the span cover the item, with both ends in 32 bits? */
  predicate Takes(span: Span, it: Item) {
    span.start <= it.offset && U32(it.End()) <= U32(span.End())
  }

  /** A byte of the data; `behind` is what a read behind it finds. */
  function ByteAt(data: seq<byte>, behind: nat -> byte, k: nat): byte {
    if k < |data| then data[k] else behind(k)
  }

  /** What the driver makes of an item out of the data of a span that takes it. */
  function FromSpan(data: seq<byte>, behind: nat -> byte, area: Area, span: Span, it: Item, order: Order)
    : (r: Result<Value>)
    requires Takes(span, it)
  {
    if area.IsBits() then
      var bit := it.offset - span.start;
      Ok(Bool(BitOf(ByteAt(data, behind, bit / 8), bit % 8) == 1))
    else DecodeAt(data, 2 * (it.offset - span.start), it.dtype, it.chars, order)
  }

  /** Within 16 bits the test says what it means. */
  lemma TakesIsCovers(span: Span, it: Item)
    requires span.End() <= 0x1_0000 && it.End() <= 0x1_0000
    ensures Takes(span, it) <==> span.Covers(it)
  {
  }

  /** It is the same value as the element read alone. */
  lemma FromSpanIsAlone(d: Device, behind: nat -> byte, area: Area, span: Span, it: Item, order: Order)
    requires d.Valid() && span.End() <= 0x1_0000 && Takes(span, it) && Readable(area, it)
    ensures FromSpan(Payload(d, area, span.start, span.count), behind, area, span, it, order)
              == ElementValue(d, area, it, order)
  {
    hide PackBits, WordBytes, BitOf, DecodeAt;
    TakesIsCovers(span, it);
    if area.IsBits() {
      BitFromSpan(d.Flags(area), span, it.offset - span.start);
    } else {
      RegistersFromSpan(d.Words(area), span, it, order);
    }
  }

  // ------------------------------------------------- reads behind the data

  /** Decoding the item looks at a byte behind the data of its span. */
  predicate ReadsBehind(area: Area, span: Span, it: Item)
    requires Takes(span, it)
  {
    area.IsBits() && (it.offset - span.start) / 8 >= ReadSize(area, span.count)
  }

  /** The unused bits of the last byte of so many flags. */
  function Padding(count: nat): nat {
    8 * ((count + 7) / 8) - count
  }

  predicate Wraps(end: nat) {
    end >= 0x1_0000_0000
  }

  /**
   * An item the loop takes is read inside the data of its span, save in two cases
   * of a bit area: an item of width zero right behind a whole number of bytes, and
   * an item whose own end wraps in 32 bits. In register areas the decoder refuses
   * what is not inside.
   */
  lemma ReadsBehindExactly(area: Area, span: Span, it: Item)
    requires Takes(span, it) && span.start < 0x1_0000_0000 && span.count < 0x1_0000_0000
    requires it.offset < 0x1_0000_0000 && it.width < 0x1_0000
    ensures var strays := if Wraps(it.End()) == Wraps(span.End())
                          then it.width == 0 && it.offset == span.End() && span.count % 8 == 0
                          else span.End() + Padding(span.count) <= it.offset;
            ReadsBehind(area, span, it) <==> area.IsBits() && strays
  {
    BehindMeans(it.offset - span.start, span.count);
  }

  lemma BehindMeans(bit: nat, count: nat)
    ensures bit / 8 >= (count + 7) / 8 <==> bit >= count + Padding(count)
    ensures bit <= count ==> (bit >= count + Padding(count) <==> bit == count && count % 8 == 0)
  {
  }

  /** What lies behind the data plays no part when every item the span takes is read inside it. */
  lemma {:induction false} ScatterStaysInside(slots: seq<Slot>, addresses: seq<Address>, g: seq<Item>, j: nat,
                                              span: Span, data: seq<byte>, behind: nat -> byte, other: nat -> byte,
                                              area: Area, order: Order)
    requires |slots| == |addresses| && j <= |g| && |data| == ReadSize(area, span.count)
    requires forall k :: 0 <= k < |g| ==> g[k].index < |addresses|
    requires forall k :: 0 <= k < |g| && Takes(span, g[k]) ==> !ReadsBehind(area, span, g[k])
    ensures Scatter(slots, addresses, g, j, span, data, behind, area, order)
              == Scatter(slots, addresses, g, j, span, data, other, area, order)
    decreases |g| - j
  {
    hide Takes, DecodeAt, BitOf, StoreItem;
    if j < |g| {
      if !Takes(span, g[j]) {
        ScatterStaysInside(slots, addresses, g, j + 1, span, data, behind, other, area, order);
      } else {
        var v := FromSpan(data, behind, area, span, g[j], order);
        assert v == FromSpan(data, other, area, span, g[j], order);
        if v.Ok? {
          ScatterStaysInside(StoreItem(slots, addresses, g[j], v.value), addresses, g, j + 1, span, data, behind,
                             other, area, order);
        }
      }
    }
  }

  lemma BitFromSpan(flags: seq<bool>, span: Span, bit: nat)
    requires span.End() <= |flags| && bit < span.count
    ensures BitOf(PackBits(flags[span.start..span.End()])[bit / 8], bit % 8) == Flag(flags[span.start + bit])
  {
    hide BitOf, PackBits;
    LineBitOfPackBits(flags[span.start..span.End()], bit);
  }

  lemma RegistersFromSpan(words: seq<word>, span: Span, it: Item, order: Order)
    requires span.End() <= |words| && span.Covers(it)
    requires if it.dtype == Text then it.chars <= 2 * it.width
             else it.dtype != Bit && it.width == RegistersPerElement(it.dtype)
    ensures DecodeAt(WordBytes(words[span.start..span.End()]), 2 * (it.offset - span.start), it.dtype, it.chars, order)
            == DecodeAt(WordBytes(words[it.offset..it.End()]), 0, it.dtype, it.chars, order)
  {
    hide WordBytes, Permuted, Meaning, SwapBytes, Blanked;
    var inSpan := words[span.start..span.End()];
    var i := it.offset - span.start;
    var data, own := WordBytes(inSpan), WordBytes(words[it.offset..it.End()]);
    var j := i + it.width;
    var mine := inSpan[i..j];
    SliceWithin(words, span.start, span.End(), i, j, it.offset, it.End());
    assert mine == words[it.offset..it.End()];
    WordBytesSlice(inSpan, i, j);
    assert 2 * j == 2 * i + 2 * it.width;
    assert own == data[2 * i..2 * i + 2 * it.width];
    var chars := if it.chars > TEXT_MAX then TEXT_MAX else it.chars;
    SliceOfSlice(data, 2 * i, 2 * it.width, if it.dtype == Text then chars else 2 * it.width);
  }

  lemma SliceWithin<T>(s: seq<T>, a: nat, b: nat, i: nat, j: nat, from: nat, to: nat)
    requires a <= b <= |s| && i <= j <= b - a && from == a + i && to == a + j
    ensures s[a..b][i..j] == s[from..to]
  {
    var x, y := s[a..b][i..j], s[from..to];
    forall k | 0 <= k < j - i
      ensures x[k] == y[k]
    {
      assert x[k] == s[a..b][i + k] == s[from + k];
    }
  }

  lemma SliceOfSlice<T>(s: seq<T>, at: nat, m: nat, n: nat)
    requires at + m <= |s| && n <= m
    ensures s[at..at + m][0..n] == s[at..at + n]
  {
  }

  // ------------------------------------------------------------------- slots

  /** A scalar replaces; an element of an array address is appended. */
  function StoreItem(slots: seq<Slot>, addresses: seq<Address>, it: Item, v: Value): (s: seq<Slot>)
    requires |slots| == |addresses| && it.index < |addresses|
    ensures |s| == |slots|
  {
    slots[it.index := StoreAt(slots[it.index], addresses[it.index], v)]
  }

  function StoreAt(slot: Slot, a: Address, v: Value): Slot {
    if a.length <= 1 || a.dtype == Text then Some(v)
    else
      match slot
      case None => Some(List([v]))
      case Some(List(vs)) => Some(List(vs + [v]))
      case Some(other) => Some(other)
  }

  /** The items of a group stored one after the other. */
  function StoreAll(slots: seq<Slot>, addresses: seq<Address>, g: seq<Item>, d: Device, area: Area, order: Order)
    : (s: seq<Slot>)
    requires |slots| == |addresses| && d.Valid()
    requires forall k :: 0 <= k < |g| ==> g[k].index < |addresses|
    ensures |s| == |slots|
  {
    if g == [] then slots
    else
      var n := |g| - 1;
      StoreItem(StoreAll(slots, addresses, g[..n], d, area, order), addresses, g[n], ValueOrZero(d, area, order, g[n]))
  }

  /** The items of one address stored one after the other. */
  function StoreRun(slot: Slot, a: Address, g: seq<Item>, d: Device, area: Area, order: Order): Slot
    requires d.Valid()
  {
    if g == [] then slot
    else StoreAt(StoreRun(slot, a, g[..|g| - 1], d, area, order), a, ValueOrZero(d, area, order, g[|g| - 1]))
  }

  /** Storing a group, seen from one slot: only its own items count. */
  lemma {:induction false} StoreAllAtSlot(slots: seq<Slot>, addresses: seq<Address>, g: seq<Item>, d: Device,
                                          area: Area, order: Order, i: nat)
    requires |slots| == |addresses| && d.Valid() && i < |addresses|
    requires forall k :: 0 <= k < |g| ==> g[k].index < |addresses|
    ensures StoreAll(slots, addresses, g, d, area, order)[i]
            == StoreRun(slots[i], addresses[i], Where(g, AtSlot(i)), d, area, order)
  {
    if g == [] {
      WhereAll(g, AtSlot(i));
    } else {
      hide Where, ValueOrZero, StoreAll, StoreRun;
      var n := |g| - 1;
      var front := Where(g[..n], AtSlot(i));
      StoreAllAtSlot(slots, addresses, g[..n], d, area, order, i);
      StoreAllLast(slots, addresses, g, d, area, order);
      WhereLast(g, AtSlot(i));
      if g[n].index == i {
        StoreRunLast(slots[i], addresses[i], front, g[n], d, area, order);
      } else {
        assert front + [] == front;
      }
    }
  }

  lemma StoreAllLast(slots: seq<Slot>, addresses: seq<Address>, g: seq<Item>, d: Device, area: Area, order: Order)
    requires |slots| == |addresses| && d.Valid() && g != []
    requires forall k :: 0 <= k < |g| ==> g[k].index < |addresses|
    ensures var n := |g| - 1;
            StoreAll(slots, addresses, g, d, area, order)
            == StoreItem(StoreAll(slots, addresses, g[..n], d, area, order), addresses, g[n],
                ValueOrZero(d, area, order, g[n]))
  {
  }

  lemma StoreRunLast(slot: Slot, a: Address, g: seq<Item>, it: Item, d: Device, area: Area, order: Order)
    requires d.Valid()
    ensures StoreRun(slot, a, g + [it], d, area, order)
            == StoreAt(StoreRun(slot, a, g, d, area, order), a, ValueOrZero(d, area, order, it))
  {
    assert (g + [it])[..|g|] == g;
  }

  /** The first n elements of an array address, stored in order, are its list so far. */
  lemma {:induction false} StoreRunCollects(a: Address, i: nat, base: nat, n: nat, d: Device, area: Area, order: Order)
    requires d.Valid() && a.length > 1 && a.dtype != Text && n <= a.length
    ensures StoreRun(None, a, PlacedAll(a, i, base)[..n], d, area, order)
            == if n == 0 then None else Some(List(ElementsAlone(d, area, a, base, order, n)))
  {
    hide Placed, ValueOrZero, StoreRun;
    var g := PlacedAll(a, i, base);
    if n == 0 {
      StoreNothing(a, d, area, order);
      assert g[..n] == [];
    } else {
      StoreRunCollects(a, i, base, n - 1, d, area, order);
      assert g[..n] == g[..n - 1] + [g[n - 1]];
      StoreRunLast(None, a, g[..n - 1], g[n - 1], d, area, order);
      SlotDoesNotMatter(a, i, base, n - 1, d, area, order);
      var before, values := ElementsAlone(d, area, a, base, order, n - 1), ElementsAlone(d, area, a, base, order, n);
      assert values == before + [values[n - 1]];
      assert n == 1 ==> values == [values[0]];
    }
  }

  lemma StoreNothing(a: Address, d: Device, area: Area, order: Order)
    requires d.Valid()
    ensures StoreRun(None, a, [], d, area, order) == None
  {
  }

  lemma SlotDoesNotMatter(a: Address, i: nat, base: nat, e: nat, d: Device, area: Area, order: Order)
    requires d.Valid()
    ensures ValueOrZero(d, area, order, Placed(a, i, base, e)) == ValueOrZero(d, area, order, Placed(a, 0, base, e))
  {
    hide ValueOrZero, ElementWidth;
    IndexDoesNotMatter(d, area, order, Placed(a, i, base, e), Placed(a, 0, base, e));
  }

  lemma IndexDoesNotMatter(d: Device, area: Area, order: Order, it: Item, other: Item)
    requires d.Valid() && it.offset == other.offset && it.width == other.width
    requires it.chars == other.chars && it.dtype == other.dtype
    ensures ValueOrZero(d, area, order, it) == ValueOrZero(d, area, order, other)
  {
    hide DecodeAt, WordBytes;
  }

  lemma StoreRunIsAlone(a: Address, i: nat, base: nat, d: Device, order: Order)
    requires d.Valid() && WellPlaced(a, base)
    ensures StoreRun(None, a, PlacedAll(a, i, base), d, AreaParse(a.area).value, order)
              == Some(ReadAlone(d, a, base, order))
  {
    hide ValueOrZero, Placed;
    var area, g := AreaParse(a.area).value, PlacedAll(a, i, base);
    if a.length <= 1 || a.dtype == Text {
      assert g == [] + [Placed(a, i, base, 0)];
      StoreRunLast(None, a, [], g[0], d, area, order);
      StoreNothing(a, d, area, order);
      SlotDoesNotMatter(a, i, base, 0, d, area, order);
    } else {
      StoreRunCollects(a, i, base, a.length, d, area, order);
      assert g[..a.length] == g;
    }
  }

  // ----------------------------------------------------------------- scatter

  /** The decode loop over a group: the items it takes are stored, the first failure ends it. */
  function Scatter(slots: seq<Slot>, addresses: seq<Address>, g: seq<Item>, j: nat, span: Span, data: seq<byte>,
                   behind: nat -> byte, area: Area, order: Order)
    : (r: Result<seq<Slot>>)
    requires |slots| == |addresses| && j <= |g|
    requires forall k :: 0 <= k < |g| ==> g[k].index < |addresses|
    ensures r.Ok? ==> |r.value| == |slots|
    decreases |g| - j
  {
    if j == |g| then Ok(slots)
    else if !Takes(span, g[j]) then Scatter(slots, addresses, g, j + 1, span, data, behind, area, order)
    else
      var v :- FromSpan(data, behind, area, span, g[j], order);
      Scatter(StoreItem(slots, addresses, g[j], v), addresses, g, j + 1, span, data, behind, area, order)
  }

  function TakenBy(span: Span): Item -> bool {
    (it: Item) => Takes(span, it)
  }

  /** Scattering a span stores the items it takes, whichever they are, in the order of the group. */
  lemma {:induction false} ScatterStoresTaken(slots0: seq<Slot>, addresses: seq<Address>, g: seq<Item>, j: nat,
                                              span: Span, behind: nat -> byte, d: Device, area: Area, order: Order)
    requires |slots0| == |addresses| && d.Valid() && j <= |g| && span.End() <= 0x1_0000
    requires forall k :: 0 <= k < |g| ==> g[k].index < |addresses| && Readable(area, g[k])
    ensures Scatter(StoreAll(slots0, addresses, Where(g[..j], TakenBy(span)), d, area, order), addresses, g, j, span,
                    Payload(d, area, span.start, span.count), behind, area, order)
            == Ok(StoreAll(slots0, addresses, Where(g, TakenBy(span)), d, area, order))
    decreases |g| - j
  {
    hide FromSpan, Payload, ValueOrZero, ElementValue, StoreAll, StoreItem, Where, Takes, Readable;
    if j == |g| {
      assert g[..j] == g;
    } else {
      ScatterStoresTaken(slots0, addresses, g, j + 1, span, behind, d, area, order);
      assert g[..j + 1][..j] == g[..j];
      WhereLast(g[..j + 1], TakenBy(span));
      var before := Where(g[..j], TakenBy(span));
      if Takes(span, g[j]) {
        FromSpanIsAlone(d, behind, area, span, g[j], order);
        StandInUnused(d, area, g[j], order);
        StoreOneMore(slots0, addresses, before, g[j], d, area, order);
      } else {
        assert before + [] == before;
      }
    }
  }

  lemma StoreOneMore(slots: seq<Slot>, addresses: seq<Address>, g: seq<Item>, it: Item, d: Device, area: Area,
                     order: Order)
    requires |slots| == |addresses| && d.Valid() && it.index < |addresses|
    requires forall k :: 0 <= k < |g| ==> g[k].index < |addresses|
    ensures StoreAll(slots, addresses, g + [it], d, area, order)
            == StoreItem(StoreAll(slots, addresses, g, d, area, order), addresses, it, ValueOrZero(d, area, order, it))
  {
    hide StoreAll, StoreItem, ValueOrZero;
    StoreAllLast(slots, addresses, g + [it], d, area, order);
    assert (g + [it])[..|g|] == g;
  }

  /** Storing one run of items after another is storing both. */
  lemma {:induction false} StoreAllJoins(slots: seq<Slot>, addresses: seq<Address>, g: seq<Item>, h: seq<Item>,
                                         d: Device, area: Area, order: Order)
    requires |slots| == |addresses| && d.Valid()
    requires forall k :: 0 <= k < |g| ==> g[k].index < |addresses|
    requires forall k :: 0 <= k < |h| ==> h[k].index < |addresses|
    ensures StoreAll(StoreAll(slots, addresses, g, d, area, order), addresses, h, d, area, order)
              == StoreAll(slots, addresses, g + h, d, area, order)
  {
    hide StoreItem, ValueOrZero;
    if h == [] {
      assert g + h == g;
    } else {
      hide StoreAll;
      var n := |h| - 1;
      assert h == h[..n] + [h[n]] && g + h == g + h[..n] + [h[n]];
      StoreAllJoins(slots, addresses, g, h[..n], d, area, order);
      StoreOneMore(StoreAll(slots, addresses, g, d, area, order), addresses, h[..n], h[n], d, area, order);
      StoreOneMore(slots, addresses, g + h[..n], h[n], d, area, order);
    }
  }

  lemma StandInUnused(d: Device, area: Area, it: Item, order: Order)
    requires d.Valid() && Readable(area, it)
    ensures ElementValue(d, area, it, order) == Ok(ValueOrZero(d, area, order, it))
  {
    ReadableDecodes(d, area, it, order);
    hide ElementValue;
  }

  /**
   * Two strings in a bit area, the second so long that its width wraps to zero.
   * Both are merged into one span of eight coils, and the value of the second is
   * a bit of whatever lies behind the one byte of the reply.
   */
  lemma LongTextReadsBehind(addresses: seq<Address>, g: seq<Item>, gap: nat, spans: seq<Span>, cuts: seq<nat>,
                            data: seq<byte>, behind: nat -> byte, order: Order)
    requires addresses == [Address("coil", 0, 16, Text), Address("coil", 8, 131071, Text)]
    requires g == [Item(0, 0, 0, 8, 16, Text), Item(1, 0, 8, 0, 131071, Text)]
    requires gap < 0xFFFF_0000 && IsPlan(g, gap, Coil.MaxRead(), spans, cuts) && |data| == 1
    ensures Built(addresses, false) == Ok(g) && Sorted(g)
    ensures spans == [Span(0, 8)] && Takes(spans[0], g[1]) && ReadsBehind(Coil, spans[0], g[1])
    ensures Scatter([None, None], addresses, g, 0, spans[0], data, behind, Coil, order)
              == Ok([Some(Bool(BitOf(data[0], 0) == 1)), Some(Bool(BitOf(behind(1), 0) == 1))])
  {
    hide BitOf, Scatter, FromSpan, ExpandAll, IsPlanTo, Built;
    LongTextIsBuilt(addresses, g);
    RunIsOneSpan(g, gap, spans, cuts);
    FlagIsRead(data, behind, g[0], 0, order);
    FlagIsRead(data, behind, g[1], 8, order);
    ScatterPair(addresses, g, Span(0, 8), data, behind, Coil, order, Bool(BitOf(data[0], 0) == 1),
                Bool(BitOf(behind(1), 0) == 1));
  }

  lemma RunIsOneSpan(g: seq<Item>, gap: nat, spans: seq<Span>, cuts: seq<nat>)
    requires g == [Item(0, 0, 0, 8, 16, Text), Item(1, 0, 8, 0, 131071, Text)]
    requires gap < 0xFFFF_0000 && IsPlan(g, gap, Coil.MaxRead(), spans, cuts)
    ensures spans == [Span(0, 8)]
  {
    StaysOrOpens(g, gap, Coil.MaxRead(), spans, cuts, 0, 1);
    assert SpanOfRun(g, 2, spans, cuts, 0);
  }

  lemma LongTextIsBuilt(addresses: seq<Address>, g: seq<Item>)
    requires addresses == [Address("coil", 0, 16, Text), Address("coil", 8, 131071, Text)]
    requires g == [Item(0, 0, 0, 8, 16, Text), Item(1, 0, 8, 0, 131071, Text)]
    ensures Built(addresses, false) == Ok(g)
  {
    hide AreaParse;
    assert addresses[..1][..0] == [];
    assert ExpandAll(addresses[..1]) == [] + Expand(addresses[0], 0, 1);
    assert ExpandAll(addresses) == g;
  }

  lemma FlagIsRead(data: seq<byte>, behind: nat -> byte, it: Item, bit: nat, order: Order)
    requires it.offset == bit && Takes(Span(0, 8), it)
    ensures FromSpan(data, behind, Coil, Span(0, 8), it, order)
              == Ok(Bool(BitOf(ByteAt(data, behind, bit / 8), bit % 8) == 1))
  {
    hide BitOf;
  }

  /** Two items of two scalar addresses, both taken. */
  lemma {:induction false} ScatterPair(addresses: seq<Address>, g: seq<Item>, span: Span, data: seq<byte>,
                                       behind: nat -> byte, area: Area, order: Order, v: Value, w: Value)
    requires |addresses| == |g| == 2 && g[0].index == 0 && g[1].index == 1
    requires addresses[0].dtype == addresses[1].dtype == Text && Takes(span, g[0]) && Takes(span, g[1])
    requires FromSpan(data, behind, area, span, g[0], order) == Ok(v)
    requires FromSpan(data, behind, area, span, g[1], order) == Ok(w)
    ensures Scatter([None, None], addresses, g, 0, span, data, behind, area, order) == Ok([Some(v), Some(w)])
  {
    hide FromSpan, Takes;
    var once: seq<Slot> := [Some(v), None];
    assert StoreItem([None, None], addresses, g[0], v) == once;
    assert StoreItem(once, addresses, g[1], w) == [Some(v), Some(w)];
    assert Scatter(once, addresses, g, 1, span, data, behind, area, order) == Ok([Some(v), Some(w)]);
  }

  /** How many entries the list in a slot has. */
  function Entries(slot: Slot): nat {
    if slot.Some? && slot.value.List? then |slot.value.items| else 0
  }

  predicate ListOrNone(slot: Slot) {
    slot == None || slot.value.List?
  }

  /** A span that takes an element of an array address adds one entry to its list. */
  lemma {:induction false} ScatterCounts(slots: seq<Slot>, addresses: seq<Address>, g: seq<Item>, j: nat, span: Span,
                                         data: seq<byte>, behind: nat -> byte, area: Area, order: Order, i: nat)
    requires |slots| == |addresses| && j <= |g| && i < |slots|
    requires forall k :: 0 <= k < |g| ==> g[k].index < |addresses|
    requires addresses[i].length > 1 && addresses[i].dtype != Text && ListOrNone(slots[i])
    ensures var after := Scatter(slots, addresses, g, j, span, data, behind, area, order);
            after.Ok? ==>
              ListOrNone(after.value[i]) && Entries(after.value[i]) == Entries(slots[i]) + Taken(g, j, span, i)
    decreases |g| - j
  {
    hide FromSpan, Takes;
    if j < |g| {
      if !Takes(span, g[j]) {
        ScatterCounts(slots, addresses, g, j + 1, span, data, behind, area, order, i);
      } else if FromSpan(data, behind, area, span, g[j], order).Ok? {
        var v := FromSpan(data, behind, area, span, g[j], order).value;
        ScatterCounts(StoreItem(slots, addresses, g[j], v), addresses, g, j + 1, span, data, behind, area, order, i);
      }
    }
  }

  /** How many elements of address i from position j on a span takes. */
  function Taken(g: seq<Item>, j: nat, span: Span, i: nat): nat
    requires j <= |g|
    decreases |g| - j
  {
    if j == |g| then 0 else Taken(g, j + 1, span, i) + TakenOne(span, g[j], i)
  }

  function TakenOne(span: Span, it: Item, i: nat): nat {
    if Takes(span, it) && it.index == i then 1 else 0
  }

  /**
   * What becomes of the batch of ModbusPlan.EqualOffsetsRepeat: its middle address
   * asks for two elements and gets a list of three.
   */
  lemma RepeatedElementIsListedTwice(addresses: seq<Address>, g: seq<Item>, first: seq<byte>, second: seq<byte>,
                                     behind: nat -> byte, area: Area, order: Order, slots: Result<seq<Slot>>)
    requires |addresses| == 3 && addresses[1].length == 2 && addresses[1].dtype == Int16 && !area.IsBits()
    requires g == [Item(0, 0, 0, 1, 0, Int16), Item(1, 0, 124, 1, 0, Int16), Item(2, 0, 124, 2, 0, Int32),
              Item(1, 1, 125, 1, 0, Int16)]
    requires slots == Scatter([None, None, None], addresses, g, 0, Span(0, 125), first, behind, area, order)
    requires slots.Ok?
    ensures var both := Scatter(slots.value, addresses, g, 0, Span(124, 2), second, behind, area, order);
            both.Ok? ==> Entries(both.value[1]) == 3
  {
    hide Scatter;
    ScatterCounts([None, None, None], addresses, g, 0, Span(0, 125), first, behind, area, order, 1);
    ScatterCounts(slots.value, addresses, g, 0, Span(124, 2), second, behind, area, order, 1);
    assert Takes(Span(0, 125), g[0]) && Takes(Span(0, 125), g[1]);
    assert !Takes(Span(0, 125), g[2]) && !Takes(Span(0, 125), g[3]);
    assert !Takes(Span(124, 2), g[0]) && Takes(Span(124, 2), g[1]);
    assert Takes(Span(124, 2), g[2]) && Takes(Span(124, 2), g[3]);
    hide Takes;
    TakenOfFour(g, Span(0, 125), 1);
    TakenOfFour(g, Span(124, 2), 1);
  }

  lemma TakenOfFour(g: seq<Item>, span: Span, i: nat)
    requires |g| == 4
    ensures Taken(g, 0, span, i) == TakenOne(span, g[0], i) + TakenOne(span, g[1], i) + TakenOne(span, g[2], i)
                                    + TakenOne(span, g[3], i)
  {
    hide Takes;
    assert Taken(g, 3, span, i) == TakenOne(span, g[3], i);
    assert Taken(g, 2, span, i) == Taken(g, 3, span, i) + TakenOne(span, g[2], i);
    assert Taken(g, 1, span, i) == Taken(g, 2, span, i) + TakenOne(span, g[1], i);
  }
}
