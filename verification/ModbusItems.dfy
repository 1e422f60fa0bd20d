/** Point map addresses expanded into the elements a batch has to move. */
module ModbusItems {
  import opened Common
  import opened ModbusTypes
  import opened ModbusPlan

  const MAX_ITEMS: nat := 2048

  /** A 64 bit offset kept in 32 bits. */
  function Wrap32(x: int): (n: nat)
    ensures n < 0x1_0000_0000
    ensures 0 <= x < 0x1_0000_0000 ==> n == x
  {
    x % 0x1_0000_0000
  }

  /** A string is one element whatever its length. */
  function Elements(a: Address): nat {
    if a.dtype == Text then 1 else a.length
  }

  function RawItem(a: Address, i: nat, e: nat): Item {
    var chars := if a.dtype == Text then a.length else 0;
    Item(i, e, Wrap32(a.offset + e * ElementWidth(a)), ElementWidth(a), chars, a.dtype)
  }

  function Expand(a: Address, i: nat, n: nat): (g: seq<Item>)
    ensures |g| == n
  {
    seq(n, e requires 0 <= e < n => RawItem(a, i, e))
  }

  /** Every element of the batch, addresses in order, elements in order. */
  function ExpandAll(addresses: seq<Address>): seq<Item> {
    if addresses == [] then []
    else
      var n := |addresses| - 1;
      ExpandAll(addresses[..n]) + Expand(addresses[n], n, Elements(addresses[n]))
  }

  lemma {:induction false} ExpandAllGrows(addresses: seq<Address>, k: nat)
    requires k <= |addresses|
    ensures |ExpandAll(addresses[..k])| <= |ExpandAll(addresses)|
    decreases |addresses|
  {
    if k < |addresses| {
      ExpandAllGrows(addresses[..|addresses| - 1], k);
      assert addresses[..|addresses| - 1][..k] == addresses[..k];
    } else {
      assert addresses[..k] == addresses;
    }
  }

  /** Scratch space for a batch: its elements, at least one, at most MAX_ITEMS. */
  method BatchCapacity(addresses: seq<Address>) returns (capacity: nat)
    ensures var n := |ExpandAll(addresses)|;
            capacity == if n > MAX_ITEMS then MAX_ITEMS else if n == 0 then 1 else n
  {
    var total: nat := 0;
    for i := 0 to |addresses|
      invariant total == |ExpandAll(addresses[..i])| <= MAX_ITEMS
    {
      assert addresses[..i + 1][..i] == addresses[..i];
      ExpandAllGrows(addresses, i + 1);
      var width := if addresses[i].dtype == Text then 1 else addresses[i].length;
      if width > MAX_ITEMS - total {
        return MAX_ITEMS;
      }
      total := total + width;
    }
    assert addresses[..|addresses|] == addresses;
    return if total == 0 then 1 else total;
  }

  /** The items with addresses that count from one moved down by one. */
  function Shifted(g: seq<Item>): (h: seq<Item>)
    requires forall k :: 0 <= k < |g| ==> g[k].offset > 0
    ensures |h| == |g|
  {
    seq(|g|, k requires 0 <= k < |g| => g[k].(offset := g[k].offset - 1))
  }

  /** What building the items of a batch must give. */
  function Built(addresses: seq<Address>, baseOne: bool): (r: Result<seq<Item>>) {
    var all := ExpandAll(addresses);
    if |all| > MAX_ITEMS then Fail(OutOfRange)
    else if !baseOne then Ok(all)
    else if exists k :: 0 <= k < |all| && all[k].offset == 0 then Fail(Business(0x21))
    else Ok(Shifted(all))
  }

  method BuildItems(addresses: seq<Address>, baseOne: bool, capacity: nat) returns (r: Result<seq<Item>>)
    requires var n := |ExpandAll(addresses)|;
             capacity == if n > MAX_ITEMS then MAX_ITEMS else if n == 0 then 1 else n
    ensures r == Built(addresses, baseOne)
  {
    hide AreaParse, AddressIsBits, ElementWidth, Wrap32;
    var items: seq<Item> := [];
    for i := 0 to |addresses|
      invariant items == ExpandAll(addresses[..i]) && |items| <= capacity
    {
      assert addresses[..i + 1][..i] == addresses[..i];
      ExpandAllGrows(addresses, i + 1);
      ghost var before := items;
      var a := addresses[i];
      if a.dtype == Text {
        if |items| + 1 > capacity {
          return Fail(OutOfRange);
        }
        items := items + [Item(i, 0, Wrap32(a.offset), ElementWidth(a), a.length, Text)];
        assert items == before + Expand(a, i, 1);
      } else {
        var width := ElementWidth(a);
        for element := 0 to a.length
          invariant items == before + Expand(a, i, element) && |items| <= capacity
        {
          if |items| + 1 > capacity {
            return Fail(OutOfRange);
          }
          items := items + [Item(i, element, Wrap32(a.offset + element * width), width, 0, a.dtype)];
          assert Expand(a, i, element + 1) == Expand(a, i, element) + [RawItem(a, i, element)];
        }
      }
    }
    assert addresses[..|addresses|] == addresses;
    if baseOne {
      r := ShiftItems(items);
      return;
    }
    return Ok(items);
  }

  /** The pass that turns one-based addresses into offsets; 0 does not exist there. */
  method ShiftItems(all: seq<Item>) returns (r: Result<seq<Item>>)
    ensures r == if exists k :: 0 <= k < |all| && all[k].offset == 0 then Fail(Business(0x21)) else Ok(Shifted(all))
  {
    var items := all;
    for k := 0 to |items|
      invariant |items| == |all|
      invariant forall j :: 0 <= j < k ==> all[j].offset > 0 && items[j] == all[j].(offset := all[j].offset - 1)
      invariant forall j :: k <= j < |all| ==> items[j] == all[j]
    {
      if items[k].offset == 0 {
        assert all[k].offset == 0;
        return Fail(Business(0x21));
      }
      items := items[k := items[k].(offset := items[k].offset - 1)];
    }
    assert items == Shifted(all);
    return Ok(items);
  }

  // ------------------------------------------------------------ well-placed

  function Extent(a: Address): nat {
    Elements(a) * ElementWidth(a)
  }

  /** An address whose area exists and whose elements all lie within 16 bits of it. */
  predicate WellPlaced(a: Address, base: nat) {
    && AreaParse(a.area).Some?
    && a.length >= 1
    && (a.dtype == Text ==> (a.length + 1) / 2 <= AreaParse(a.area).value.MaxRead())
    && base <= a.offset && a.offset - base + Extent(a) <= 0x1_0000
    && (a.dtype == Bit ==> AreaParse(a.area).value.IsBits())
  }

  lemma WidthFits(a: Address, base: nat)
    requires WellPlaced(a, base)
    ensures 1 <= ElementWidth(a) <= AreaParse(a.area).value.MaxRead()
    ensures a.dtype == Text ==> ElementWidth(a) == (a.length + 1) / 2
    ensures !AreaParse(a.area).value.IsBits() && a.dtype != Text ==> ElementWidth(a) == RegistersPerElement(a.dtype)
  {
  }

  /** Element e of address a, where it lies on the bus. */
  function Placed(a: Address, i: nat, base: nat, e: nat): Item {
    var offset := a.offset - base + e * ElementWidth(a);
    Item(i, e, if offset < 0 then 0 else offset, ElementWidth(a), if a.dtype == Text then a.length else 0, a.dtype)
  }

  function PlacedAll(a: Address, i: nat, base: nat): (g: seq<Item>)
    ensures |g| == Elements(a)
    ensures forall e :: 0 <= e < |g| ==> g[e] == Placed(a, i, base, e) && g[e].index == i && g[e].element == e
  {
    seq(Elements(a), e requires 0 <= e < Elements(a) => Placed(a, i, base, e))
  }

  function Layout(addresses: seq<Address>, base: nat): seq<Item> {
    if addresses == [] then []
    else
      var n := |addresses| - 1;
      Layout(addresses[..n], base) + PlacedAll(addresses[n], n, base)
  }

  lemma ElementEnds(a: Address, base: nat, e: nat)
    requires WellPlaced(a, base) && e < Elements(a)
    ensures e * ElementWidth(a) + ElementWidth(a) <= Extent(a)
    ensures Placed(a, 0, base, e).End() <= 0x1_0000
  {
    var w := ElementWidth(a);
    assert (e + 1) * w <= Elements(a) * w;
    assert (e + 1) * w == e * w + w;
  }

  ghost predicate AllWellPlaced(addresses: seq<Address>, base: nat) {
    forall k :: 0 <= k < |addresses| ==> WellPlaced(addresses[k], base)
  }

  function BaseOf(baseOne: bool): nat {
    if baseOne then 1 else 0
  }

  lemma RawIsPlaced(a: Address, i: nat, baseOne: bool, e: nat)
    requires WellPlaced(a, BaseOf(baseOne)) && e < Elements(a)
    ensures var raw, placed := RawItem(a, i, e), Placed(a, i, BaseOf(baseOne), e);
            raw.offset == placed.offset + BaseOf(baseOne) && placed == raw.(offset := placed.offset)
  {
    ElementEnds(a, BaseOf(baseOne), e);
  }

  /** Well-placed addresses are built without wrap-around, each element where it belongs. */
  lemma {:induction false} ExpandIsLayout(addresses: seq<Address>, baseOne: bool)
    requires AllWellPlaced(addresses, BaseOf(baseOne))
    ensures var raw, placed := ExpandAll(addresses), Layout(addresses, BaseOf(baseOne));
            |raw| == |placed| && forall k :: 0 <= k < |raw| ==>
              raw[k].offset == placed[k].offset + BaseOf(baseOne) && placed[k] == raw[k].(offset := placed[k].offset)
  {
    if addresses != [] {
      var n := |addresses| - 1;
      ExpandIsLayout(addresses[..n], baseOne);
      forall e | 0 <= e < Elements(addresses[n])
        ensures var raw := Expand(addresses[n], n, Elements(addresses[n]))[e];
                var placed := PlacedAll(addresses[n], n, BaseOf(baseOne))[e];
                raw.offset == placed.offset + BaseOf(baseOne) && placed == raw.(offset := placed.offset)
      {
        RawIsPlaced(addresses[n], n, baseOne, e);
      }
    }
  }

  lemma BuiltIsLayout(addresses: seq<Address>, baseOne: bool)
    requires AllWellPlaced(addresses, BaseOf(baseOne))
    ensures |ExpandAll(addresses)| <= MAX_ITEMS ==> Built(addresses, baseOne) == Ok(Layout(addresses, BaseOf(baseOne)))
    ensures |ExpandAll(addresses)| == |Layout(addresses, BaseOf(baseOne))|
  {
    ExpandIsLayout(addresses, baseOne);
    var raw, placed := ExpandAll(addresses), Layout(addresses, BaseOf(baseOne));
    if baseOne {
      assert Shifted(raw) == placed;
    } else {
      assert raw == placed;
    }
  }

  // -------------------------------------------------------------- selection

  /** The items that satisfy p, in their order. */
  function Where(g: seq<Item>, p: Item -> bool): (h: seq<Item>)
    ensures forall k :: 0 <= k < |h| ==> p(h[k]) && h[k] in g
  {
    if g == [] then []
    else
      var n := |g| - 1;
      Where(g[..n], p) + if p(g[n]) then [g[n]] else []
  }

  function InArea(addresses: seq<Address>, area: Area): Item -> bool {
    (it: Item) => it.index < |addresses| && AreaParse(addresses[it.index].area) == Some(area)
  }

  function AtSlot(i: nat): Item -> bool {
    (it: Item) => it.index == i
  }

  lemma WhereLast(g: seq<Item>, p: Item -> bool)
    requires g != []
    ensures Where(g, p) == Where(g[..|g| - 1], p) + if p(g[|g| - 1]) then [g[|g| - 1]] else []
  {
  }

  lemma {:induction false} WhereJoins(g: seq<Item>, h: seq<Item>, p: Item -> bool)
    ensures Where(g + h, p) == Where(g, p) + Where(h, p)
  {
    if h == [] {
      assert g + h == g;
    } else {
      var n := |h| - 1;
      assert (g + h)[..|g| + n] == g + h[..n];
      WhereJoins(g, h[..n], p);
    }
  }

  lemma {:induction false} WhereAll(g: seq<Item>, p: Item -> bool)
    ensures (forall k :: 0 <= k < |g| ==> p(g[k])) ==> Where(g, p) == g
    ensures (forall k :: 0 <= k < |g| ==> !p(g[k])) ==> Where(g, p) == []
  {
    if g != [] {
      hide Where;
      WhereAll(g[..|g| - 1], p);
      WhereLast(g, p);
    }
  }

  lemma {:induction false} WhereCounts(g: seq<Item>, p: Item -> bool, x: Item)
    ensures multiset(Where(g, p))[x] == if p(x) then multiset(g)[x] else 0
  {
    if g != [] {
      var n := |g| - 1;
      WhereCounts(g[..n], p, x);
      assert g == g[..n] + [g[n]];
    }
  }

  lemma WhereKeepsMultiset(g: seq<Item>, h: seq<Item>, p: Item -> bool)
    requires multiset(g) == multiset(h)
    ensures multiset(Where(g, p)) == multiset(Where(h, p))
  {
    forall x: Item
      ensures multiset(Where(g, p))[x] == multiset(Where(h, p))[x]
    {
      WhereCounts(g, p, x);
      WhereCounts(h, p, x);
    }
  }

  lemma {:induction false} WhereTwice(g: seq<Item>, p: Item -> bool, q: Item -> bool)
    requires forall k :: 0 <= k < |g| && q(g[k]) ==> p(g[k])
    ensures Where(Where(g, p), q) == Where(g, q)
  {
    if g != [] {
      hide Where;
      var n := |g| - 1;
      var front := Where(g[..n], p);
      WhereTwice(g[..n], p, q);
      WhereLast(g, p);
      WhereLast(g, q);
      if p(g[n]) {
        assert (front + [g[n]])[..|front|] == front;
        WhereLast(front + [g[n]], q);
      } else {
        assert !q(g[n]) && front + [] == front;
        assert Where(g[..n], q) + [] == Where(g[..n], q);
      }
    }
  }

  /** The elements of one address, picked out of the whole batch. */
  lemma {:induction false} LayoutAtSlot(addresses: seq<Address>, base: nat, i: nat)
    ensures Where(Layout(addresses, base), AtSlot(i))
            == if i < |addresses| then PlacedAll(addresses[i], i, base) else []
  {
    if addresses != [] {
      var n := |addresses| - 1;
      hide PlacedAll, Placed, Where, AtSlot;
      LayoutAtSlot(addresses[..n], base, i);
      WhereJoins(Layout(addresses[..n], base), PlacedAll(addresses[n], n, base), AtSlot(i));
      PlacedAtSlot(addresses[n], n, base, i);
      assert i < n ==> addresses[..n][i] == addresses[i];
    } else {
      WhereAll([], AtSlot(i));
    }
  }

  lemma PlacedAtSlot(a: Address, n: nat, base: nat, i: nat)
    ensures Where(PlacedAll(a, n, base), AtSlot(i)) == if i == n then PlacedAll(a, n, base) else []
  {
    hide Placed, Where;
    WhereAll(PlacedAll(a, n, base), AtSlot(i));
  }

  lemma {:induction false} LayoutHolds(addresses: seq<Address>, base: nat, it: Item)
    ensures it in Layout(addresses, base) ==>
              && it.index < |addresses| && it.element < Elements(addresses[it.index])
              && it == Placed(addresses[it.index], it.index, base, it.element)
  {
    if addresses != [] {
      LayoutHolds(addresses[..|addresses| - 1], base, it);
    }
  }

  // ----------------------------------------------------------------- sorting

  predicate NotAfter(x: Item, y: Item) {
    x.offset < y.offset || (x.offset == y.offset && x.element <= y.element)
  }

  ghost predicate SortedItems(g: seq<Item>) {
    forall i, j :: 0 <= i < j < |g| ==> NotAfter(g[i], g[j])
  }

  lemma InsertKeepsOrder(g: seq<Item>, x: Item, k: nat)
    requires SortedItems(g) && k <= |g|
    requires k > 0 ==> NotAfter(g[k - 1], x)
    requires forall j :: k <= j < |g| ==> !NotAfter(g[j], x)
    ensures SortedItems(g[..k] + [x] + g[k..])
  {
    var h := g[..k] + [x] + g[k..];
    forall i, j | 0 <= i < j < |h|
      ensures NotAfter(h[i], h[j])
    {
      if j < k {
        assert NotAfter(g[i], g[j]);
      } else if i > k {
        assert NotAfter(g[i - 1], g[j - 1]);
      } else if j == k {
        assert i == k - 1 || NotAfter(g[i], g[k - 1]);
      } else if i == k {
        assert !NotAfter(g[j - 1], x);
      } else {
        assert NotAfter(g[i], g[j - 1]);
      }
    }
  }

  lemma InsertKeepsItems(g: seq<Item>, x: Item, k: nat)
    requires k <= |g|
    ensures multiset(g[..k] + [x] + g[k..]) == multiset(g) + multiset{x}
  {
    assert g == g[..k] + g[k..];
  }

  /** Some order by offset, then element; ties may come out either way. */
  method SortItems(items: seq<Item>) returns (g: seq<Item>)
    ensures SortedItems(g) && multiset(g) == multiset(items)
    ensures forall i, j :: 0 <= i < j < |g| ==>
              g[i].offset < g[j].offset || (g[i].offset == g[j].offset && g[i].element <= g[j].element)
  {
    g := [];
    for n := 0 to |items|
      invariant SortedItems(g) && multiset(g) == multiset(items[..n])
    {
      assert items[..n + 1] == items[..n] + [items[n]];
      var k := |g|;
      while k > 0 && !NotAfter(g[k - 1], items[n])
        invariant 0 <= k <= |g|
        invariant forall j :: k <= j < |g| ==> !NotAfter(g[j], items[n])
      {
        k := k - 1;
      }
      InsertKeepsOrder(g, items[n], k);
      InsertKeepsItems(g, items[n], k);
      g := g[..k] + [items[n]] + g[k..];
    }
    assert items[..|items|] == items;
  }

  /** Of two orders of the same items, one strict: they are the same sequence. */
  lemma {:induction false} SameOrder(g: seq<Item>, h: seq<Item>)
    requires multiset(g) == multiset(h)
    requires Sorted(g)
    requires forall i, j :: 0 <= i < j < |h| ==> h[i].offset < h[j].offset
    ensures g == h
  {
    assert |g| == |multiset(g)| == |h|;
    if h != [] {
      SameHead(g, h);
      WithoutHead(g);
      WithoutHead(h);
      SameOrder(g[1..], h[1..]);
      assert g == [g[0]] + g[1..] && h == [h[0]] + h[1..];
    }
  }

  lemma WithoutHead(g: seq<Item>)
    requires g != []
    ensures multiset(g[1..]) == multiset(g) - multiset{g[0]}
  {
    assert g == [g[0]] + g[1..];
  }

  lemma SameHead(g: seq<Item>, h: seq<Item>)
    requires g != [] && h != [] && multiset(g) == multiset(h)
    requires Sorted(g)
    requires forall i, j :: 0 <= i < j < |h| ==> h[i].offset < h[j].offset
    ensures g[0] == h[0]
  {
    assert h[0] in multiset(g);
    var k :| 0 <= k < |g| && g[k] == h[0];
    assert g[0] in multiset(h);
    var m :| 0 <= m < |h| && h[m] == g[0];
    assert g[0].offset <= g[k].offset;
  }

  lemma {:induction false} WhereKeepsOrder(g: seq<Item>, p: Item -> bool)
    requires Sorted(g)
    ensures Sorted(Where(g, p))
  {
    if g != [] {
      var n := |g| - 1;
      WhereKeepsOrder(g[..n], p);
      forall k | 0 <= k < |Where(g[..n], p)|
        ensures Where(g[..n], p)[k].offset <= g[n].offset
      {
        assert Where(g[..n], p)[k] in g[..n];
      }
    }
  }

  lemma PlacedInOrder(a: Address, i: nat, base: nat)
    requires WellPlaced(a, base)
    ensures forall j, k :: 0 <= j < k < Elements(a) ==>
              PlacedAll(a, i, base)[j].offset < PlacedAll(a, i, base)[k].offset
  {
    WidthFits(a, base);
    var w := ElementWidth(a);
    forall j, k | 0 <= j < k < Elements(a)
      ensures PlacedAll(a, i, base)[j].offset < PlacedAll(a, i, base)[k].offset
    {
      assert (k - j) * w >= w;
      assert k * w == j * w + (k - j) * w;
    }
  }

  /**
   * However the sort breaks its ties, the elements of one address appear in the
   * sorted group of its area complete and in element order.
   */
  lemma GroupAtSlot(addresses: seq<Address>, base: nat, area: Area, group: seq<Item>, i: nat)
    requires AllWellPlaced(addresses, base)
    requires i < |addresses| && Sorted(group)
    requires multiset(group) == multiset(Where(Layout(addresses, base), InArea(addresses, area)))
    ensures Where(group, AtSlot(i))
            == if AreaParse(addresses[i].area) == Some(area) then PlacedAll(addresses[i], i, base) else []
  {
    var all, inArea, at := Layout(addresses, base), InArea(addresses, area), AtSlot(i);
    WhereKeepsMultiset(group, Where(all, inArea), at);
    if AreaParse(addresses[i].area) == Some(area) {
      WhereTwice(all, inArea, at);
      LayoutAtSlot(addresses, base, i);
      WhereKeepsOrder(group, at);
      PlacedInOrder(addresses[i], i, base);
      SameOrder(Where(group, at), PlacedAll(addresses[i], i, base));
    } else {
      WhereAll(Where(all, inArea), at);
      assert |Where(group, at)| == |multiset(Where(group, at))|;
    }
  }
}
