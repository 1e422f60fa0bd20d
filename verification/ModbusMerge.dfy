/**
 * What a batch read gives, for any batch that lies in the address space and any
 * merge gap: the elements its spans take, stored in the order they are taken. And
 * when that is what reading each address on its own gives.
 */
module ModbusMerge {
  import opened Common
  import opened ModbusTypes
  import opened ModbusPlan
  import opened ModbusCodec
  import opened ModbusDevice
  import opened ModbusItems
  import opened ModbusSlots

  // ------------------------------------------------------------- the groups

  /** The elements of one area of the batch, sorted; ties in any order. */
  ghost predicate IsGroup(addresses: seq<Address>, base: nat, area: Area, group: seq<Item>) {
    SortedItems(group) && multiset(group) == multiset(Where(Layout(addresses, base), InArea(addresses, area)))
  }

  /** A member of the sorted group is an element of the layout, in that area. */
  lemma MemberOfGroup(addresses: seq<Address>, base: nat, area: Area, group: seq<Item>, k: nat)
    requires AllWellPlaced(addresses, base) && k < |group| && IsGroup(addresses, base, area, group)
    ensures group[k] in Layout(addresses, base) && InArea(addresses, area)(group[k])
    ensures group[k].index < |addresses| && Readable(area, group[k])
  {
    hide Readable, Placed, WellPlaced;
    var it := group[k];
    assert it in multiset(Where(Layout(addresses, base), InArea(addresses, area)));
    LayoutHolds(addresses, base, it);
    PlacedIsReadable(addresses[it.index], it.index, base, it.element);
  }

  /** Every element of such a group can be asked for and decoded on its own. */
  lemma GroupIsReadable(addresses: seq<Address>, base: nat, area: Area, group: seq<Item>)
    requires AllWellPlaced(addresses, base) && IsGroup(addresses, base, area, group)
    ensures forall k :: 0 <= k < |group| ==> group[k].index < |addresses| && Readable(area, group[k])
    ensures Sorted(group) && OnBus(group, area.MaxRead())
  {
    hide Layout, Where, InArea, AllWellPlaced;
    forall k | 0 <= k < |group|
      ensures group[k].index < |addresses| && Readable(area, group[k])
    {
      MemberOfGroup(addresses, base, area, group, k);
    }
    forall i, j | 0 <= i < j < |group|
      ensures group[i].offset <= group[j].offset
    {
      assert NotAfter(group[i], group[j]);
    }
  }

  /** Elements of one area: none nested in another, equal offsets of equal width. */
  ghost predicate NoneNested(addresses: seq<Address>, items: seq<Item>, area: Area) {
    forall x, y :: x in items && y in items && InArea(addresses, area)(x) && InArea(addresses, area)(y) ==>
      && (x.offset < y.offset ==> x.End() <= y.End())
      && (x.offset == y.offset ==> x.width == y.width)
  }

  /** Well-placed addresses, none of whose elements is nested in another of its area. */
  ghost predicate Mergeable(addresses: seq<Address>, baseOne: bool) {
    && AllWellPlaced(addresses, BaseOf(baseOne))
    && forall area :: NoneNested(addresses, Layout(addresses, BaseOf(baseOne)), area)
  }

  /** Their groups meet everything the planner's theorems ask for. */
  lemma GroupIsReady(addresses: seq<Address>, baseOne: bool, area: Area, group: seq<Item>)
    requires Mergeable(addresses, baseOne) && IsGroup(addresses, BaseOf(baseOne), area, group)
    ensures EndsNeverDecrease(group) && SameStartSameWidth(group)
  {
    var all, inArea := Layout(addresses, BaseOf(baseOne)), InArea(addresses, area);
    forall k | 0 <= k < |group|
      ensures group[k] in all && inArea(group[k])
    {
      MemberOfGroup(addresses, BaseOf(baseOne), area, group, k);
    }
    hide Layout, Where, InArea, AllWellPlaced;
    assert NoneNested(addresses, all, area);
    forall i, j | 0 <= i < j < |group|
      ensures group[i].End() <= group[j].End() && (group[i].offset == group[j].offset ==>
                group[i].width == group[j].width)
    {
      assert NotAfter(group[i], group[j]);
      assert group[i] in all && group[j] in all;
    }
  }

  // --------------------------------------------------------- what is fetched

  /** Bits are merged over twice the gap, in 32 bits. */
  function GapOf(mergeGap: nat, area: Area): nat {
    if area.IsBits() then U32(mergeGap * 2) else mergeGap
  }

  /**
   * When an address of a mergeable batch is surely right: its gap fits, or no elements
   * overlap, or it has one element only.
   */
  ghost predicate SurelyRight(addresses: seq<Address>, baseOne: bool, mergeGap: nat, i: nat)
    requires i < |addresses|
  {
    GapFits(mergeGap) || Separate(addresses, baseOne) || IsScalar(addresses[i])
  }

  /** A sorted group of the batch and its plan under a merge gap. */
  ghost predicate Planned(addresses: seq<Address>, baseOne: bool, mergeGap: nat, area: Area, group: seq<Item>,
                          spans: seq<Span>, cuts: seq<nat>) {
    && IsGroup(addresses, BaseOf(baseOne), area, group)
    && IsPlan(group, GapOf(mergeGap, area), area.MaxRead(), spans, cuts)
  }

  /** Every planned span is a request that a device answers with data. */
  lemma SpansAreLegal(addresses: seq<Address>, baseOne: bool, mergeGap: nat, area: Area, group: seq<Item>,
                      spans: seq<Span>, cuts: seq<nat>)
    requires AllWellPlaced(addresses, BaseOf(baseOne))
    requires Planned(addresses, baseOne, mergeGap, area, group, spans, cuts)
    ensures |spans| == |cuts| && Increasing(cuts, |group|) && Sorted(group) && OnBus(group, area.MaxRead())
    ensures forall k :: 0 <= k < |group| ==> group[k].index < |addresses| && Readable(area, group[k])
    ensures forall r :: 0 <= r < |spans| ==>
              && 1 <= spans[r].count <= area.MaxRead() && spans[r].End() <= 0x1_0000
              && spans[r].count <= if area == Coil || area == Discrete then 2000 else 125
  {
    hide Layout, Where, AllWellPlaced, Readable;
    var gap, limit := GapOf(mergeGap, area), area.MaxRead();
    GroupIsReadable(addresses, BaseOf(baseOne), area, group);
    SpansWithinLimit(group, gap, limit, spans, cuts);
    forall r | 0 <= r < |spans|
      ensures 1 <= spans[r].count && spans[r].End() <= 0x1_0000
    {
      SpanSize(group, gap, limit, spans, cuts, r);
      var last := Stop(cuts, |group|, r) - 1;
      assert group[cuts[r]].offset <= group[last].offset;
    }
  }

  /** No two neighbouring spans could have been one: the gap is too wide, or together they exceed a request. */
  lemma SpansAreFull(addresses: seq<Address>, baseOne: bool, mergeGap: nat, area: Area, group: seq<Item>,
                     spans: seq<Span>, cuts: seq<nat>, r: nat)
    requires AllWellPlaced(addresses, BaseOf(baseOne))
    requires Planned(addresses, baseOne, mergeGap, area, group, spans, cuts)
    requires 0 < r < |spans| && |cuts| == |spans|
    ensures 0 < cuts[r] < |group|
    ensures var (last, next) := (group[cuts[r] - 1], group[cuts[r]]);
            || next.offset > U32(last.End() + GapOf(mergeGap, area))
            || next.End() - spans[r - 1].start > if area == Coil || area == Discrete then 2000 else 125
  {
    hide Layout, Where, AllWellPlaced, Readable, GapOf;
    SpansAreLegal(addresses, baseOne, mergeGap, area, group, spans, cuts);
    assert SpanOfRun(group, |group|, spans, cuts, r - 1);
    assert cuts[r - 1] < cuts[r] && Readable(area, group[cuts[r]]);
    assert group[cuts[r - 1]].offset <= group[cuts[r]].offset;
    EndsOnBus(area, group[cuts[r]]);
  }

  lemma EndsOnBus(area: Area, it: Item)
    requires Readable(area, it)
    ensures it.End() <= 0x1_0000
  {
  }

  /** The elements taken span by span, in the order in which they are stored. */
  function FetchedBy(g: seq<Item>, spans: seq<Span>): (h: seq<Item>)
    ensures forall k :: 0 <= k < |h| ==> h[k] in g
  {
    if spans == [] then []
    else FetchedBy(g, spans[..|spans| - 1]) + Where(g, TakenBy(spans[|spans| - 1]))
  }

  lemma FetchedByOneMore(g: seq<Item>, spans: seq<Span>, k: nat)
    requires k < |spans|
    ensures FetchedBy(g, spans[..k + 1]) == FetchedBy(g, spans[..k]) + Where(g, TakenBy(spans[k]))
  {
    assert spans[..k + 1][..k] == spans[..k];
  }

  /** What ends up in slot i of the batch. */
  function SlotFrom(d: Device, a: Address, i: nat, area: Area, order: Order, group: seq<Item>, spans: seq<Span>): Slot
    requires d.Valid()
  {
    StoreRun(None, a, Where(FetchedBy(group, spans), AtSlot(i)), d, area, order)
  }

  /** The slot is filled by some sorted group of its area and the plan of that group. */
  ghost predicate Gives(d: Device, addresses: seq<Address>, baseOne: bool, mergeGap: nat, order: Order, i: nat,
                        slot: Slot)
    requires d.Valid() && i < |addresses|
  {
    && AreaParse(addresses[i].area).Some?
    && var area := AreaParse(addresses[i].area).value;
       exists group: seq<Item>, spans: seq<Span>, cuts: seq<nat> ::
         Planned(addresses, baseOne, mergeGap, area, group, spans, cuts) &&
         slot == SlotFrom(d, addresses[i], i, area, order, group, spans)
  }

  // ---------------------------------------------------- when an address is right

  /** Each element of address i is taken by the span it was merged into, and by no other. */
  ghost predicate FetchedOnce(group: seq<Item>, spans: seq<Span>, cuts: seq<nat>, i: nat)
    requires |spans| == |cuts| && Increasing(cuts, |group|)
  {
    forall r, k :: 0 <= r < |spans| && 0 <= k < |group| && group[k].index == i ==>
      (Takes(spans[r], group[k]) <==> cuts[r] <= k < Stop(cuts, |group|, r))
  }

  predicate IsScalar(a: Address) {
    a.length <= 1 || a.dtype == Text
  }

  /** The items of g that are both, when that is a stretch of g. */
  lemma {:induction false} WhereBoth(g: seq<Item>, p: Item -> bool, q: Item -> bool, from: nat, to: nat, n: nat)
    requires from <= to <= |g| && n <= |g|
    requires forall k :: 0 <= k < |g| && q(g[k]) ==> (p(g[k]) <==> from <= k < to)
    ensures var upto := if n < from then from else if n > to then to else n;
            Where(Where(g[..n], p), q) == Where(g[from..upto], q)
  {
    hide Where;
    if n == 0 {
      WhereAll(g[..0], p);
      WhereAll(g[from..from], q);
      WhereAll(Where(g[..0], p), q);
    } else {
      WhereBoth(g, p, q, from, to, n - 1);
      assert g[..n][..n - 1] == g[..n - 1];
      WhereLast(g[..n], p);
      WhereJoins(Where(g[..n - 1], p), if p(g[n - 1]) then [g[n - 1]] else [], q);
      WhereOne(g[n - 1], q);
      WhereAll([], q);
      if from < n <= to {
        assert g[from..n] == g[from..n - 1] + [g[n - 1]];
        WhereJoins(g[from..n - 1], [g[n - 1]], q);
      }
    }
  }

  lemma WhereOne(it: Item, q: Item -> bool)
    ensures Where([it], q) == if q(it) then [it] else []
  {
    WhereAll([it], q);
  }

  /** Where the elements of the first r runs end. */
  function RunsEnd(cuts: seq<nat>, n: nat, r: nat): nat
    requires r <= |cuts|
  {
    if r < |cuts| then cuts[r] else n
  }

  /** An address whose elements are fetched once is stored from its elements in order. */
  lemma {:induction false} FetchedInOrder(group: seq<Item>, spans: seq<Span>, cuts: seq<nat>, i: nat, r: nat)
    requires |spans| == |cuts| && Increasing(cuts, |group|) && r <= |cuts| && FetchedOnce(group, spans, cuts, i)
    ensures RunsEnd(cuts, |group|, r) <= |group|
    ensures Where(FetchedBy(group, spans[..r]), AtSlot(i)) == Where(group[..RunsEnd(cuts, |group|, r)], AtSlot(i))
  {
    hide Where;
    if r == 0 {
      assert FetchedBy(group, spans[..0]) == [] && group[..0] == [];
    } else {
      FetchedInOrder(group, spans, cuts, i, r - 1);
      FetchedByOneMore(group, spans, r - 1);
      var from, to := cuts[r - 1], Stop(cuts, |group|, r - 1);
      WhereJoins(FetchedBy(group, spans[..r - 1]), Where(group, TakenBy(spans[r - 1])), AtSlot(i));
      WhereBoth(group, TakenBy(spans[r - 1]), AtSlot(i), from, to, |group|);
      assert group[..|group|] == group && group[..to] == group[..from] + group[from..to];
      WhereJoins(group[..from], group[from..to], AtSlot(i));
    }
  }

  /** Then its slot holds what reading it alone gives. */
  lemma OnceIsAlone(d: Device, addresses: seq<Address>, baseOne: bool, mergeGap: nat, order: Order, area: Area,
                    group: seq<Item>, spans: seq<Span>, cuts: seq<nat>, i: nat)
    requires d.Valid() && i < |addresses| && AreaParse(addresses[i].area) == Some(area)
    requires AllWellPlaced(addresses, BaseOf(baseOne))
    requires Planned(addresses, baseOne, mergeGap, area, group, spans, cuts) && FetchedOnce(group, spans, cuts, i)
    ensures SlotFrom(d, addresses[i], i, area, order, group, spans)
              == Some(ReadAlone(d, addresses[i], BaseOf(baseOne), order))
  {
    hide Layout, Where, StoreRun, ReadAlone, Takes;
    FetchedInOrder(group, spans, cuts, i, |cuts|);
    assert spans[..|cuts|] == spans && group[..|group|] == group;
    GroupIsReadable(addresses, BaseOf(baseOne), area, group);
    GroupAtSlot(addresses, BaseOf(baseOne), area, group, i);
    StoreRunIsAlone(addresses[i], i, BaseOf(baseOne), d, order);
  }

  /** Without nested elements each element lies in the span it was merged into, whatever the gap. */
  lemma OwnSpanTakes(addresses: seq<Address>, baseOne: bool, mergeGap: nat, area: Area, group: seq<Item>,
                     spans: seq<Span>, cuts: seq<nat>, r: nat, k: nat)
    requires Mergeable(addresses, baseOne) && Planned(addresses, baseOne, mergeGap, area, group, spans, cuts)
    requires r < |cuts| && cuts[r] <= k < Stop(cuts, |group|, r)
    ensures r < |spans| && Takes(spans[r], group[k])
  {
    hide Layout, Where, Mergeable, Takes, Span.Covers, IsGroup, Readable, SpanOfRun, RunJoins, Joins, AllWellPlaced;
    GroupIsReady(addresses, baseOne, area, group);
    MergeableIsPlaced(addresses, baseOne);
    SpansAreLegal(addresses, baseOne, mergeGap, area, group, spans, cuts);
    OwnSpanExactly(group, GapOf(mergeGap, area), area.MaxRead(), spans, cuts, r, k);
    TakesIsCovers(spans[r], group[k]);
  }

  lemma MergeableIsPlaced(addresses: seq<Address>, baseOne: bool)
    requires Mergeable(addresses, baseOne)
    ensures AllWellPlaced(addresses, BaseOf(baseOne))
  {
  }

  /** How often an element was fetched, one span more. */
  lemma FetchedCounts(g: seq<Item>, spans: seq<Span>, n: nat, x: Item)
    requires n < |spans|
    ensures multiset(FetchedBy(g, spans[..n + 1]))[x]
              == multiset(FetchedBy(g, spans[..n]))[x] + if Takes(spans[n], x) then multiset(g)[x] else 0
  {
    hide Takes;
    FetchedByOneMore(g, spans, n);
    WhereCounts(g, TakenBy(spans[n]), x);
  }

  /** A span that takes an element contributes it, and so does a second one. */
  lemma {:induction false} FetchedAtLeast(g: seq<Item>, spans: seq<Span>, n: nat, x: Item, p: nat, q: nat)
    requires n <= |spans| && p < |spans| && q < |spans| && Takes(spans[p], x) && Takes(spans[q], x)
    ensures p < n ==> multiset(FetchedBy(g, spans[..n]))[x] >= multiset(g)[x]
    ensures p < q < n ==> multiset(FetchedBy(g, spans[..n]))[x] >= 2 * multiset(g)[x]
  {
    hide FetchedBy, Takes;
    if n > 0 {
      FetchedAtLeast(g, spans, n - 1, x, p, q);
      FetchedCounts(g, spans, n - 1, x);
    }
  }

  /** The list of an array address has one entry for every element stored. */
  lemma {:induction false} StoreRunLength(a: Address, g: seq<Item>, d: Device, area: Area, order: Order)
    requires d.Valid() && !IsScalar(a)
    ensures var slot := StoreRun(None, a, g, d, area, order); ListOrNone(slot) && Entries(slot) == |g|
    ensures g != [] ==> StoreRun(None, a, g, d, area, order).Some?
  {
    hide ValueOrZero;
    if g != [] {
      StoreRunLength(a, g[..|g| - 1], d, area, order);
    }
  }

  /** An element of the address that a second span takes makes its list too long. */
  lemma RepeatIsLonger(d: Device, addresses: seq<Address>, baseOne: bool, mergeGap: nat, order: Order, area: Area,
                       group: seq<Item>, spans: seq<Span>, cuts: seq<nat>, r: nat, k: nat)
    requires d.Valid() && Mergeable(addresses, baseOne)
    requires Planned(addresses, baseOne, mergeGap, area, group, spans, cuts)
    requires |spans| == |cuts| && Increasing(cuts, |group|) && r < |spans| && k < |group|
    requires Takes(spans[r], group[k]) && !(cuts[r] <= k < Stop(cuts, |group|, r))
    requires group[k].index < |addresses| && AreaParse(addresses[group[k].index].area) == Some(area)
    requires !IsScalar(addresses[group[k].index])
    ensures var i := group[k].index;
            var slot := SlotFrom(d, addresses[i], i, area, order, group, spans);
            slot.Some? && Entries(slot) > addresses[i].length
  {
    hide Layout, Where, StoreRun, Takes, Mergeable, Planned, FetchedBy;
    var i, x := group[k].index, group[k];
    var got, own := Where(FetchedBy(group, spans), AtSlot(i)), Where(group, AtSlot(i));
    assert IsGroup(addresses, BaseOf(baseOne), area, group) by {
      PlannedIsGroup(addresses, baseOne, mergeGap, area, group, spans, cuts);
    }
    MergeableIsPlaced(addresses, baseOne);
    GroupIsReadable(addresses, BaseOf(baseOne), area, group);
    GroupAtSlot(addresses, BaseOf(baseOne), area, group, i);
    forall y: Item
      ensures multiset(got)[y] >= multiset(own)[y]
    {
      NothingIsMissing(addresses, baseOne, mergeGap, area, group, spans, cuts, i, y);
    }
    TakenTwice(addresses, baseOne, mergeGap, area, group, spans, cuts, r, k);
    MoreIsLonger(own, got, x);
    StoreRunLength(addresses[i], got, d, area, order);
  }

  lemma PlannedIsGroup(addresses: seq<Address>, baseOne: bool, mergeGap: nat, area: Area, group: seq<Item>,
                       spans: seq<Span>, cuts: seq<nat>)
    requires Planned(addresses, baseOne, mergeGap, area, group, spans, cuts)
    ensures IsGroup(addresses, BaseOf(baseOne), area, group) && |spans| == |cuts| && Increasing(cuts, |group|)
  {
  }

  lemma NothingIsMissing(addresses: seq<Address>, baseOne: bool, mergeGap: nat, area: Area, group: seq<Item>,
                         spans: seq<Span>, cuts: seq<nat>, i: nat, x: Item)
    requires Mergeable(addresses, baseOne) && Planned(addresses, baseOne, mergeGap, area, group, spans, cuts)
    ensures multiset(Where(FetchedBy(group, spans), AtSlot(i)))[x] >= multiset(Where(group, AtSlot(i)))[x]
  {
    hide Layout, Where, Takes, Mergeable, Planned, FetchedBy;
    PlannedIsGroup(addresses, baseOne, mergeGap, area, group, spans, cuts);
    WhereCounts(FetchedBy(group, spans), AtSlot(i), x);
    WhereCounts(group, AtSlot(i), x);
    assert spans[..|spans|] == spans;
    if x in group {
      var m :| 0 <= m < |group| && group[m] == x;
      var home := RunOf(cuts, |group|, m);
      OwnSpanTakes(addresses, baseOne, mergeGap, area, group, spans, cuts, home, m);
      FetchedAtLeast(group, spans, |spans|, x, home, home);
    }
  }

  lemma TakenTwice(addresses: seq<Address>, baseOne: bool, mergeGap: nat, area: Area, group: seq<Item>,
                   spans: seq<Span>, cuts: seq<nat>, r: nat, k: nat)
    requires Mergeable(addresses, baseOne) && Planned(addresses, baseOne, mergeGap, area, group, spans, cuts)
    requires |spans| == |cuts| && Increasing(cuts, |group|) && r < |spans| && k < |group|
    requires Takes(spans[r], group[k]) && !(cuts[r] <= k < Stop(cuts, |group|, r))
    ensures var x := group[k];
            multiset(Where(FetchedBy(group, spans), AtSlot(x.index)))[x] > multiset(Where(group, AtSlot(x.index)))[x]
  {
    hide Layout, Where, Takes, Mergeable, Planned, FetchedBy;
    var x := group[k];
    var home := RunOf(cuts, |group|, k);
    OwnSpanTakes(addresses, baseOne, mergeGap, area, group, spans, cuts, home, k);
    assert spans[..|spans|] == spans;
    FetchedAtLeast(group, spans, |spans|, x, if home < r then home else r, if home < r then r else home);
    WhereCounts(FetchedBy(group, spans), AtSlot(x.index), x);
    WhereCounts(group, AtSlot(x.index), x);
    assert x in multiset(group);
  }

  lemma MoreIsLonger(own: seq<Item>, got: seq<Item>, x: Item)
    requires forall y: Item :: multiset(got)[y] >= multiset(own)[y]
    requires multiset(got)[x] > multiset(own)[x]
    ensures |got| > |own|
  {
    var rest := multiset(got) - multiset(own);
    assert multiset(got) == multiset(own) + rest;
    assert x in rest;
    assert |multiset(got)| == |got| && |multiset(own)| == |own|;
  }

  /** Without nested elements every element of an address is among what is stored in its slot. */
  lemma IsFetched(addresses: seq<Address>, baseOne: bool, mergeGap: nat, area: Area, group: seq<Item>,
                  spans: seq<Span>, cuts: seq<nat>, k: nat)
    requires Mergeable(addresses, baseOne) && Planned(addresses, baseOne, mergeGap, area, group, spans, cuts)
    requires k < |group|
    ensures group[k] in Where(FetchedBy(group, spans), AtSlot(group[k].index))
  {
    hide Layout, Where, Takes, Mergeable, SpanOfRun, RunJoins, Joins, IsGroup;
    var home := RunOf(cuts, |group|, k);
    OwnSpanTakes(addresses, baseOne, mergeGap, area, group, spans, cuts, home, k);
    FetchedAtLeast(group, spans, |spans|, group[k], home, home);
    assert spans[..|spans|] == spans;
    assert group[k] in multiset(group) && group[k] in multiset(FetchedBy(group, spans));
    MemberAtSlot(FetchedBy(group, spans), group[k].index, group[k]);
  }

  /** An address of one element is overwritten with its own value however often it is fetched. */
  lemma ScalarIsAlone(d: Device, addresses: seq<Address>, baseOne: bool, mergeGap: nat, order: Order, area: Area,
                      group: seq<Item>, spans: seq<Span>, cuts: seq<nat>, i: nat)
    requires d.Valid() && Mergeable(addresses, baseOne)
    requires Planned(addresses, baseOne, mergeGap, area, group, spans, cuts)
    requires i < |addresses| && AreaParse(addresses[i].area) == Some(area) && IsScalar(addresses[i])
    ensures SlotFrom(d, addresses[i], i, area, order, group, spans)
              == Some(ReadAlone(d, addresses[i], BaseOf(baseOne), order))
  {
    hide Layout, Where, Takes, Mergeable, IsPlanTo, ValueOrZero, Placed, FetchedBy;
    var base := BaseOf(baseOne);
    var a, got := addresses[i], Where(FetchedBy(group, spans), AtSlot(i));
    MergeableIsPlaced(addresses, baseOne);
    OnlyElement(addresses, base, area, group, i);
    var x := Placed(a, i, base, 0);
    var k :| 0 <= k < |group| && group[k] == x;
    IsFetched(addresses, baseOne, mergeGap, area, group, spans, cuts, k);
    var last := got[|got| - 1];
    MemberAtSlot(group, i, last);
    assert last in [x];
    SlotDoesNotMatter(a, i, base, 0, d, area, order);
  }

  lemma OnlyElement(addresses: seq<Address>, base: nat, area: Area, group: seq<Item>, i: nat)
    requires AllWellPlaced(addresses, base) && IsGroup(addresses, base, area, group)
    requires i < |addresses| && AreaParse(addresses[i].area) == Some(area) && IsScalar(addresses[i])
    ensures Where(group, AtSlot(i)) == [Placed(addresses[i], i, base, 0)]
    ensures Placed(addresses[i], i, base, 0) in group && Placed(addresses[i], i, base, 0).index == i
  {
    hide Layout, Where;
    GroupIsReadable(addresses, base, area, group);
    GroupAtSlot(addresses, base, area, group, i);
    var a := addresses[i];
    assert WellPlaced(a, base) && Elements(a) == 1;
    assert PlacedAll(a, i, base) == [Placed(a, i, base, 0)];
    assert Where(group, AtSlot(i))[0] in group;
  }

  lemma MemberAtSlot(g: seq<Item>, i: nat, x: Item)
    requires x in g && x.index == i
    ensures x in Where(g, AtSlot(i))
  {
    WhereCounts(g, AtSlot(i), x);
    assert x in multiset(g) && x in multiset(Where(g, AtSlot(i)));
  }

  /**
   * For a batch without nested elements, and any gap: an address of one element is
   * always right, and an array address is right exactly when every element of it is
   * fetched by one span only.
   */
  lemma AddressIsRightExactly(d: Device, addresses: seq<Address>, baseOne: bool, mergeGap: nat, order: Order,
                              area: Area, group: seq<Item>, spans: seq<Span>, cuts: seq<nat>, i: nat)
    requires d.Valid() && Mergeable(addresses, baseOne)
    requires Planned(addresses, baseOne, mergeGap, area, group, spans, cuts)
    requires |spans| == |cuts| && Increasing(cuts, |group|)
    requires i < |addresses| && AreaParse(addresses[i].area) == Some(area)
    ensures SlotFrom(d, addresses[i], i, area, order, group, spans)
              == Some(ReadAlone(d, addresses[i], BaseOf(baseOne), order))
            <==> IsScalar(addresses[i]) || FetchedOnce(group, spans, cuts, i)
  {
    hide Layout, Where, Takes, Mergeable, Planned, SlotFrom, ValueOrZero;
    MergeableIsPlaced(addresses, baseOne);
    if IsScalar(addresses[i]) {
      ScalarIsAlone(d, addresses, baseOne, mergeGap, order, area, group, spans, cuts, i);
    } else if FetchedOnce(group, spans, cuts, i) {
      OnceIsAlone(d, addresses, baseOne, mergeGap, order, area, group, spans, cuts, i);
    } else {
      var r, k :| 0 <= r < |spans| && 0 <= k < |group| && group[k].index == i &&
        (Takes(spans[r], group[k]) != (cuts[r] <= k < Stop(cuts, |group|, r)));
      if cuts[r] <= k < Stop(cuts, |group|, r) {
        OwnSpanTakes(addresses, baseOne, mergeGap, area, group, spans, cuts, r, k);
      } else {
        RepeatIsLonger(d, addresses, baseOne, mergeGap, order, area, group, spans, cuts, r, k);
      }
    }
  }

  // ------------------------------------------------------ elements that do not overlap

  /** No two elements of an area share a place. */
  ghost predicate Separate(addresses: seq<Address>, baseOne: bool) {
    forall area, x, y :: Neighbours(addresses, BaseOf(baseOne), area, x, y) ==>
      x.End() <= y.offset || y.End() <= x.offset
  }

  ghost predicate Neighbours(addresses: seq<Address>, base: nat, area: Area, x: Item, y: Item) {
    && x in Layout(addresses, base) && y in Layout(addresses, base) && x != y
    && InArea(addresses, area)(x) && InArea(addresses, area)(y)
  }

  lemma {:induction false} DistinctElements(g: seq<Item>, n: nat, x: Item)
    requires n <= |g| && forall e :: 0 <= e < |g| ==> g[e].element == e
    ensures multiset(g[..n])[x] <= 1
    ensures multiset(g[..n])[x] == 1 ==> x.element < n
  {
    if n > 0 {
      DistinctElements(g, n - 1, x);
      assert g[..n] == g[..n - 1] + [g[n - 1]];
    } else {
      assert g[..n] == [];
    }
  }

  /** The layout lists every element once. */
  lemma {:induction false} LayoutIsDistinct(addresses: seq<Address>, base: nat, x: Item)
    ensures multiset(Layout(addresses, base))[x] <= 1
  {
    if addresses != [] {
      hide Placed, Layout;
      var n := |addresses| - 1;
      LayoutIsDistinct(addresses[..n], base, x);
      var front, own := Layout(addresses[..n], base), PlacedAll(addresses[n], n, base);
      LayoutGrows(addresses, base);
      LayoutHolds(addresses[..n], base, x);
      assert own[..|own|] == own;
      DistinctElements(own, |own|, x);
      assert multiset(front + own)[x] == multiset(front)[x] + multiset(own)[x];
      assert x in own ==> x.index == n;
      assert x in multiset(own) <==> x in own;
      assert x in multiset(front) <==> x in front;
    }
  }

  lemma LayoutGrows(addresses: seq<Address>, base: nat)
    requires addresses != []
    ensures var n := |addresses| - 1;
            Layout(addresses, base) == Layout(addresses[..n], base) + PlacedAll(addresses[n], n, base)
  {
  }

  /** Two places of a group never hold the same element. */
  lemma GroupIsDistinct(addresses: seq<Address>, base: nat, area: Area, group: seq<Item>, j: nat, k: nat)
    requires IsGroup(addresses, base, area, group) && j < k < |group|
    ensures group[j] != group[k]
  {
    hide Layout, Where, InArea;
    LayoutIsDistinct(addresses, base, group[k]);
    WhereCounts(Layout(addresses, base), InArea(addresses, area), group[k]);
    CountedTwice(group, j, k);
  }

  lemma CountedTwice(g: seq<Item>, j: nat, k: nat)
    requires j < k < |g|
    ensures g[j] == g[k] ==> multiset(g)[g[k]] >= 2
  {
    var front, back := g[..k], g[k + 1..];
    assert g == front + [g[k]] + back;
    assert front[j] == g[j];
    assert g[j] in multiset(front);
  }

  /** Then with any gap whatever each element is fetched once. */
  lemma SeparateIsOnce(addresses: seq<Address>, baseOne: bool, mergeGap: nat, area: Area, group: seq<Item>,
                       spans: seq<Span>, cuts: seq<nat>, i: nat)
    requires Mergeable(addresses, baseOne) && Separate(addresses, baseOne)
    requires Planned(addresses, baseOne, mergeGap, area, group, spans, cuts)
    ensures |spans| == |cuts| && Increasing(cuts, |group|) && FetchedOnce(group, spans, cuts, i)
  {
    hide Layout, Where, Mergeable, Takes, IsPlanTo, Span.Covers, Separate, Readable, InArea;
    MergeableIsPlaced(addresses, baseOne);
    SpansAreLegal(addresses, baseOne, mergeGap, area, group, spans, cuts);
    GroupIsReady(addresses, baseOne, area, group);
    forall q | 0 < q < |cuts|
      ensures Apart(group, cuts[q])
    {
      GroupIsApart(addresses, baseOne, area, group, cuts[q]);
    }
    forall r, k | 0 <= r < |spans| && 0 <= k < |group|
      ensures Takes(spans[r], group[k]) <==> cuts[r] <= k < Stop(cuts, |group|, r)
    {
      ApartIsOnce(group, GapOf(mergeGap, area), area.MaxRead(), spans, cuts, r, k);
      TakesIsCovers(spans[r], group[k]);
    }
  }

  lemma GroupIsApart(addresses: seq<Address>, baseOne: bool, area: Area, group: seq<Item>, c: nat)
    requires AllWellPlaced(addresses, BaseOf(baseOne)) && Separate(addresses, baseOne)
    requires IsGroup(addresses, BaseOf(baseOne), area, group) && 0 < c < |group|
    ensures Apart(group, c)
  {
    var base := BaseOf(baseOne);
    MemberOfGroup(addresses, base, area, group, c - 1);
    MemberOfGroup(addresses, base, area, group, c);
    GroupIsDistinct(addresses, base, area, group, c - 1, c);
    hide Layout, Where, InArea, AllWellPlaced;
    assert Neighbours(addresses, base, area, group[c - 1], group[c]);
    assert NotAfter(group[c - 1], group[c]);
  }

  /** Such a batch has no nested elements either. */
  lemma SeparateIsMergeable(addresses: seq<Address>, baseOne: bool)
    requires AllWellPlaced(addresses, BaseOf(baseOne)) && Separate(addresses, baseOne)
    ensures Mergeable(addresses, baseOne)
  {
    var base := BaseOf(baseOne);
    var all := Layout(addresses, base);
    hide Layout, Placed, AreaParse, AllWellPlaced;
    forall area, x, y | x in all && y in all && InArea(addresses, area)(x) && InArea(addresses, area)(y)
      ensures (x.offset < y.offset ==> x.End() <= y.End()) && (x.offset == y.offset ==> x.width == y.width)
    {
      HasWidth(addresses, base, x);
      HasWidth(addresses, base, y);
      assert x != y ==> Neighbours(addresses, base, area, x, y);
    }
  }

  lemma HasWidth(addresses: seq<Address>, base: nat, x: Item)
    requires AllWellPlaced(addresses, base) && x in Layout(addresses, base)
    ensures x.width >= 1
  {
    LayoutHolds(addresses, base, x);
    WidthFits(addresses[x.index], base);
  }

  // ------------------------------------------------ the gaps that keep the promise

  /** No sum of an element's end and the gap of its area leaves 32 bits. */
  predicate GapFits(mergeGap: nat) {
    mergeGap < 0xFFFF_0000 && U32(mergeGap * 2) < 0xFFFF_0000
  }

  /** The gap of 2^32 - 1 that would do for registers is of no use for bits. */
  lemma GapFitsMeans(mergeGap: nat)
    requires mergeGap < 0x1_0000_0000
    ensures GapFits(mergeGap) <==> forall area: Area :: GapKeeps(GapOf(mergeGap, area))
  {
    assert GapOf(mergeGap, Holding) == mergeGap && GapOf(mergeGap, Coil) == U32(mergeGap * 2);
    if mergeGap >= 0x8000_0000 {
      ShiftedByWraps(mergeGap * 2, 1);
    }
    if GapFits(mergeGap) {
      forall area: Area
        ensures GapKeeps(GapOf(mergeGap, area))
      {
      }
    }
  }

  lemma KeptIsOnce(addresses: seq<Address>, baseOne: bool, mergeGap: nat, area: Area, group: seq<Item>,
                   spans: seq<Span>, cuts: seq<nat>, i: nat)
    requires Mergeable(addresses, baseOne) && Planned(addresses, baseOne, mergeGap, area, group, spans, cuts)
    requires GapKeeps(GapOf(mergeGap, area))
    ensures |spans| == |cuts| && Increasing(cuts, |group|) && FetchedOnce(group, spans, cuts, i)
  {
    hide Layout, Where, Mergeable, Takes, IsPlanTo, Span.Covers;
    MergeableIsPlaced(addresses, baseOne);
    SpansAreLegal(addresses, baseOne, mergeGap, area, group, spans, cuts);
    GroupIsReady(addresses, baseOne, area, group);
    forall r, k | 0 <= r < |spans| && 0 <= k < |group|
      ensures Takes(spans[r], group[k]) <==> cuts[r] <= k < Stop(cuts, |group|, r)
    {
      ExactlyOnce(group, GapOf(mergeGap, area), area.MaxRead(), spans, cuts, r, k);
      TakesIsCovers(spans[r], group[k]);
    }
  }

  /** With a gap that fits, or elements that do not overlap, every address of a mergeable batch is right. */
  lemma GivesAlone(d: Device, addresses: seq<Address>, baseOne: bool, mergeGap: nat, order: Order, i: nat, slot: Slot)
    requires d.Valid() && i < |addresses| && mergeGap < 0x1_0000_0000
    requires Mergeable(addresses, baseOne) && (GapFits(mergeGap) || Separate(addresses, baseOne))
    requires Gives(d, addresses, baseOne, mergeGap, order, i, slot)
    ensures slot == Some(ReadAlone(d, addresses[i], BaseOf(baseOne), order))
  {
    hide Mergeable, Planned, SlotFrom, ReadAlone, GapFits, GapKeeps, Separate;
    var area := AreaParse(addresses[i].area).value;
    var group: seq<Item>, spans: seq<Span>, cuts: seq<nat> :|
      Planned(addresses, baseOne, mergeGap, area, group, spans, cuts) &&
      slot == SlotFrom(d, addresses[i], i, area, order, group, spans);
    MergeableIsPlaced(addresses, baseOne);
    if GapFits(mergeGap) {
      GapFitsMeans(mergeGap);
      KeptIsOnce(addresses, baseOne, mergeGap, area, group, spans, cuts, i);
    } else {
      SeparateIsOnce(addresses, baseOne, mergeGap, area, group, spans, cuts, i);
    }
    OnceIsAlone(d, addresses, baseOne, mergeGap, order, area, group, spans, cuts, i);
  }

  /** Two addresses for the last two places of an area. */
  function Twins(area: Area, baseOne: bool): seq<Address> {
    var a := if area.IsBits() then Address("coil", 0xFFFE + BaseOf(baseOne), 2, Bit)
             else Address("holding", 0xFFFE + BaseOf(baseOne), 2, Int16);
    [a, a]
  }

  function TwinArea(area: Area): Area {
    if area.IsBits() then Coil else Holding
  }

  lemma TwinsAreLaidOut(area: Area, baseOne: bool)
    ensures var pair := Twins(area, baseOne);
            var base := BaseOf(baseOne);
            && AreaParse(pair[0].area) == Some(TwinArea(area)) && AllWellPlaced(pair, base)
            && Layout(pair, base) == PlacedAll(pair[0], 0, base) + PlacedAll(pair[1], 1, base)
            && PlacedAll(pair[0], 0, base) == [Placed(pair[0], 0, base, 0), Placed(pair[0], 0, base, 1)]
            && PlacedAll(pair[1], 1, base) == [Placed(pair[1], 1, base, 0), Placed(pair[1], 1, base, 1)]
            && forall i, e :: 0 <= i < 2 && 0 <= e < 2 ==>
                 Placed(pair[i], i, base, e).offset == 0xFFFE + e && Placed(pair[i], i, base, e).width == 1
  {
    var pair, base := Twins(area, baseOne), BaseOf(baseOne);
    assert AreaParse("coil") == Some(Coil) && AreaParse("holding") == Some(Holding);
    hide AreaParse;
    assert pair[..1] == [pair[0]] && pair[..1][..0] == [];
    assert Layout(pair[..1], base) == [] + PlacedAll(pair[0], 0, base);
  }

  lemma TwinsAreMergeable(area: Area, baseOne: bool)
    ensures Mergeable(Twins(area, baseOne), baseOne)
  {
    TwinsAreLaidOut(area, baseOne);
    hide AreaParse, Layout, PlacedAll, Placed, ElementWidth;
  }

  /** However the sort breaks the ties, both last places come last. */
  lemma TwinsEnd(area: Area, baseOne: bool, group: seq<Item>)
    requires IsGroup(Twins(area, baseOne), BaseOf(baseOne), TwinArea(area), group)
    ensures |group| == 4 && group[2].offset == group[3].offset == 0xFFFF
    ensures group[2].index != group[3].index && group[2].index < 2 && group[3].index < 2
  {
    var pair, base := Twins(area, baseOne), BaseOf(baseOne);
    TwinsAreLaidOut(area, baseOne);
    var all := Layout(pair, base);
    forall k | 0 <= k < |all|
      ensures InArea(pair, TwinArea(area))(all[k])
    {
    }
    WhereAll(all, InArea(pair, TwinArea(area)));
    hide AreaParse, Layout, PlacedAll, Placed, ElementWidth, Where;
    TwoLargestLast(group, all);
  }

  /** Four items, the second and the fourth in the last place: sorted, these two come last. */
  lemma TwoLargestLast(group: seq<Item>, all: seq<Item>)
    requires SortedItems(group) && multiset(group) == multiset(all) && |all| == 4
    requires all[0].offset == all[2].offset == 0xFFFE && all[1].offset == all[3].offset == 0xFFFF
    requires all[0].index == all[1].index == 0 && all[2].index == all[3].index == 1
    ensures |group| == 4 && group[2].offset == group[3].offset == 0xFFFF
    ensures group[2].index != group[3].index && group[2].index < 2 && group[3].index < 2
  {
    assert |multiset(group)| == |group| && |multiset(all)| == |all|;
    var k0 := PlaceOf(group, all, 0);
    var k1 := PlaceOf(group, all, 1);
    var k2 := PlaceOf(group, all, 2);
    var k3 := PlaceOf(group, all, 3);
    BehindInOrder(group, k0, k1);
    BehindInOrder(group, k2, k1);
    BehindInOrder(group, k0, k3);
    BehindInOrder(group, k2, k3);
  }

  lemma BehindInOrder(group: seq<Item>, j: nat, k: nat)
    requires SortedItems(group) && j < |group| && k < |group|
    ensures group[j].offset < group[k].offset ==> j < k
  {
    if k < j {
      assert NotAfter(group[k], group[j]);
    }
  }

  lemma PlaceOf(group: seq<Item>, all: seq<Item>, k: nat) returns (m: nat)
    requires multiset(group) == multiset(all) && k < |all|
    ensures m < |group| && group[m] == all[k]
  {
    assert all[k] in multiset(all) && all[k] in multiset(group);
    m :| m < |group| && group[m] == all[k];
  }

  /** With a gap that does not fit, reading the twins gives two lists that are both too long. */
  lemma TwinsGoWrong(d: Device, baseOne: bool, mergeGap: nat, order: Order, area: Area, group: seq<Item>,
                     spans: seq<Span>, cuts: seq<nat>, i: nat)
    requires d.Valid() && mergeGap < 0x1_0000_0000 && !GapKeeps(GapOf(mergeGap, area)) && area == TwinArea(area)
    requires Planned(Twins(area, baseOne), baseOne, mergeGap, area, group, spans, cuts) && i < 2
    ensures var slot := SlotFrom(d, Twins(area, baseOne)[i], i, area, order, group, spans);
            slot.Some? && Entries(slot) > 2
  {
    hide Layout, Where, Takes, SlotFrom, IsPlanTo, Mergeable, Span.Covers, AreaParse, IsGroup, AllWellPlaced, Readable,
        Placed, PlacedAll, ElementWidth, GapKeeps;
    var pair, gap, limit := Twins(area, baseOne), GapOf(mergeGap, area), area.MaxRead();
    TwinsAreLaidOut(area, baseOne);
    TwinsAreMergeable(area, baseOne);
    TwinsEnd(area, baseOne, group);
    SpansAreLegal(pair, baseOne, mergeGap, area, group, spans, cuts);
    GroupIsReady(pair, baseOne, area, group);
    var r := LastTwins(group, gap, limit, spans, cuts);
    if i == group[3].index {
      TakesIsCovers(spans[r], group[3]);
      RepeatIsLonger(d, pair, baseOne, mergeGap, order, area, group, spans, cuts, r, 3);
    } else {
      TakesIsCovers(spans[r + 1], group[2]);
      RepeatIsLonger(d, pair, baseOne, mergeGap, order, area, group, spans, cuts, r + 1, 2);
    }
  }

  /** Any mergeable batch is read right, whatever the sort makes of its ties. */
  ghost predicate AlwaysRight(d: Device, baseOne: bool, mergeGap: nat, order: Order)
    requires d.Valid()
  {
    forall addresses: seq<Address>, i: nat, slot: Slot ::
      i < |addresses| && Mergeable(addresses, baseOne) && Gives(d, addresses, baseOne, mergeGap, order, i, slot) ==>
        slot == Some(ReadAlone(d, addresses[i], BaseOf(baseOne), order))
  }

  /** A configuration keeps the promise of the batch read exactly when its gap fits. */
  lemma GapFitsExactly(d: Device, baseOne: bool, mergeGap: nat, order: Order)
    requires d.Valid() && mergeGap < 0x1_0000_0000
    ensures AlwaysRight(d, baseOne, mergeGap, order) <==> GapFits(mergeGap)
  {
    hide Mergeable, ReadAlone, GapFits, Planned, SlotFrom;
    if GapFits(mergeGap) {
      forall addresses: seq<Address>, i: nat, slot: Slot
        | i < |addresses| && Mergeable(addresses, baseOne) && Gives(d, addresses, baseOne, mergeGap, order, i, slot)
        ensures slot == Some(ReadAlone(d, addresses[i], BaseOf(baseOne), order))
      {
        GivesAlone(d, addresses, baseOne, mergeGap, order, i, slot);
      }
    } else {
      GapFitsMeans(mergeGap);
      var area :| !GapKeeps(GapOf(mergeGap, area));
      var slot := TwinsAreRead(d, baseOne, mergeGap, order, TwinArea(area), 0);
      TwinsAreMergeable(TwinArea(area), baseOne);
      assert slot != Some(ReadAlone(d, Twins(TwinArea(area), baseOne)[0], BaseOf(baseOne), order)) by {
        AloneIsTwo(d, baseOne, order, TwinArea(area), 0);
      }
    }
  }

  lemma AloneIsTwo(d: Device, baseOne: bool, order: Order, area: Area, i: nat)
    requires d.Valid() && i < 2 && area == TwinArea(area)
    ensures AreaParse(Twins(area, baseOne)[i].area).Some?
    ensures Entries(Some(ReadAlone(d, Twins(area, baseOne)[i], BaseOf(baseOne), order))) == 2
  {
    TwinsAreLaidOut(area, baseOne);
  }

  /** Such a read exists: one order of the ties and its plan. */
  lemma TwinsAreRead(d: Device, baseOne: bool, mergeGap: nat, order: Order, area: Area, i: nat) returns (slot: Slot)
    requires d.Valid() && mergeGap < 0x1_0000_0000 && !GapKeeps(GapOf(mergeGap, area)) && area == TwinArea(area)
    requires i < 2
    ensures Gives(d, Twins(area, baseOne), baseOne, mergeGap, order, i, slot) && Entries(slot) > 2
  {
    hide Layout, Where, Takes, SlotFrom, IsPlanTo, AreaParse, Placed, PlacedAll, ElementWidth;
    var pair, base := Twins(area, baseOne), BaseOf(baseOne);
    TwinsAreLaidOut(area, baseOne);
    var all := Layout(pair, base);
    var group := [all[0], all[2], all[1], all[3]];
    TwinsSorted(area, baseOne, group);
    var spans, cuts := PlanExists(group, |group|, GapOf(mergeGap, area), area.MaxRead());
    TwinsGoWrong(d, baseOne, mergeGap, order, area, group, spans, cuts, i);
    slot := SlotFrom(d, pair[i], i, area, order, group, spans);
  }

  lemma TwinsSorted(area: Area, baseOne: bool, group: seq<Item>)
    requires |Layout(Twins(area, baseOne), BaseOf(baseOne))| == 4 && area == TwinArea(area)
    requires var all := Layout(Twins(area, baseOne), BaseOf(baseOne)); group == [all[0], all[2], all[1], all[3]]
    ensures IsGroup(Twins(area, baseOne), BaseOf(baseOne), area, group) && Sorted(group)
  {
    var pair, all := Twins(area, baseOne), Layout(Twins(area, baseOne), BaseOf(baseOne));
    TwinsAreLaidOut(area, baseOne);
    hide AreaParse, Layout, PlacedAll, ElementWidth, Where;
    forall k | 0 <= k < |all|
      ensures InArea(pair, area)(all[k])
    {
    }
    WhereAll(all, InArea(pair, area));
    FourReordered(all, group);
  }

  lemma FourReordered(all: seq<Item>, group: seq<Item>)
    requires |all| == 4 && group == [all[0], all[2], all[1], all[3]]
    requires all[0].offset == all[2].offset == 0xFFFE && all[1].offset == all[3].offset == 0xFFFF
    requires all[0].element == all[2].element && all[1].element == all[3].element
    ensures multiset(group) == multiset(all) && SortedItems(group) && Sorted(group)
  {
    var a, b, c, e := all[0], all[1], all[2], all[3];
    assert SortedItems(group);
    hide SortedItems, Sorted;
    SwapMiddle(all, group, [a], b, c, [e]);
  }

  lemma SwapMiddle(g: seq<Item>, h: seq<Item>, front: seq<Item>, b: Item, c: Item, back: seq<Item>)
    requires g == front + [b, c] + back && h == front + [c, b] + back
    ensures multiset(g) == multiset(h)
  {
    assert multiset([b, c]) == multiset{b, c} == multiset([c, b]);
  }

  /** What a slot becomes in the result: a lost value reads as zero. */
  function Shown(slot: Slot): Value {
    if slot == None then Int(0) else slot.value
  }

  ghost predicate GivesValue(d: Device, addresses: seq<Address>, baseOne: bool, mergeGap: nat, order: Order, i: nat,
                             v: Value)
    requires d.Valid() && i < |addresses|
  {
    exists slot: Slot :: Gives(d, addresses, baseOne, mergeGap, order, i, slot) && v == Shown(slot)
  }

  /**
   * What the result promises without nested elements: for any gap right scalars, and
   * right lists when no elements overlap; for a gap that fits everything.
   */
  lemma ValueIsRight(d: Device, addresses: seq<Address>, baseOne: bool, mergeGap: nat, order: Order, i: nat, v: Value)
    requires d.Valid() && i < |addresses| && mergeGap < 0x1_0000_0000 && Mergeable(addresses, baseOne)
    requires GivesValue(d, addresses, baseOne, mergeGap, order, i, v)
    ensures AreaParse(addresses[i].area).Some?
    ensures SurelyRight(addresses, baseOne, mergeGap, i) ==>
              v == ReadAlone(d, addresses[i], BaseOf(baseOne), order)
  {
    hide Mergeable, Planned, SlotFrom, ReadAlone, GapFits, Separate;
    var slot: Slot :| Gives(d, addresses, baseOne, mergeGap, order, i, slot) && v == Shown(slot);
    if GapFits(mergeGap) || Separate(addresses, baseOne) {
      GivesAlone(d, addresses, baseOne, mergeGap, order, i, slot);
    } else if IsScalar(addresses[i]) {
      var area := AreaParse(addresses[i].area).value;
      var group: seq<Item>, spans: seq<Span>, cuts: seq<nat> :|
        Planned(addresses, baseOne, mergeGap, area, group, spans, cuts) &&
        slot == SlotFrom(d, addresses[i], i, area, order, group, spans);
      ScalarIsAlone(d, addresses, baseOne, mergeGap, order, area, group, spans, cuts, i);
    }
  }

  /** The twins, read with a gap that does not fit: a list of more than two. */
  lemma TwinIsTooLong(d: Device, baseOne: bool, mergeGap: nat, order: Order, area: Area, i: nat, v: Value)
    requires d.Valid() && mergeGap < 0x1_0000_0000 && !GapKeeps(GapOf(mergeGap, area)) && area == TwinArea(area)
    requires i < 2 && GivesValue(d, Twins(area, baseOne), baseOne, mergeGap, order, i, v)
    ensures v.List? && |v.items| > 2
  {
    hide Planned, SlotFrom, AreaParse;
    TwinsAreLaidOut(area, baseOne);
    var pair := Twins(area, baseOne);
    var slot: Slot :| Gives(d, pair, baseOne, mergeGap, order, i, slot) && v == Shown(slot);
    var group: seq<Item>, spans: seq<Span>, cuts: seq<nat> :|
      Planned(pair, baseOne, mergeGap, area, group, spans, cuts) &&
      slot == SlotFrom(d, pair[i], i, area, order, group, spans);
    TwinsGoWrong(d, baseOne, mergeGap, order, area, group, spans, cuts, i);
  }

  /** A register inside a float: whatever the memory holds, the float reads as zero. */
  lemma NestedReadsZero(d: Device, addresses: seq<Address>, mergeGap: nat, order: Order, v: Value)
    requires d.Valid() && mergeGap < 0xFFFF_0000
    requires addresses == [Address("holding", 0, 1, Float64), Address("holding", 1, 1, Int16)]
    requires GivesValue(d, addresses, false, mergeGap, order, 0, v)
    ensures v == Int(0)
  {
    hide IsPlanTo, StoreRun, AreaParse, IsGroup, FetchedBy, Where, Layout;
    PairIsLaidOut(addresses);
    var slot: Slot :| Gives(d, addresses, false, mergeGap, order, 0, slot) && v == Shown(slot);
    var group: seq<Item>, spans: seq<Span>, cuts: seq<nat> :|
      Planned(addresses, false, mergeGap, Holding, group, spans, cuts) &&
      slot == SlotFrom(d, addresses[0], 0, Holding, order, group, spans);
    GroupIsLayout(addresses, 0, Holding, Layout(addresses, 0), group);
    NestedPair(group, mergeGap, Holding.MaxRead(), spans, cuts);
    OuterNotTaken(group, spans);
    StoreNothing(addresses[0], d, Holding, order);
  }

  lemma OuterNotTaken(g: seq<Item>, spans: seq<Span>)
    requires |g| == 2 && g[0].index == 0 && g[1].index == 1 && g[0].End() <= 0x1_0000
    requires |spans| == 1 && spans[0].End() <= 0x1_0000 && !Fetched(spans, g[0])
    ensures Where(FetchedBy(g, spans), AtSlot(0)) == []
  {
    hide Takes, Span.Covers;
    assert !spans[0].Covers(g[0]);
    TakesIsCovers(spans[0], g[0]);
    assert spans[..0] == [] && FetchedBy(g, spans) == [] + Where(g, TakenBy(spans[0]));
    hide Where, FetchedBy;
    forall k | 0 <= k < |FetchedBy(g, spans)|
      ensures FetchedBy(g, spans)[k].index != 0
    {
      assert FetchedBy(g, spans)[k] in Where(g, TakenBy(spans[0]));
    }
    WhereAll(FetchedBy(g, spans), AtSlot(0));
  }

  /** A group is the whole layout in order when all of it lies in one area, at rising offsets. */
  lemma GroupIsLayout(addresses: seq<Address>, base: nat, area: Area, all: seq<Item>, group: seq<Item>)
    requires IsGroup(addresses, base, area, group) && all == Layout(addresses, base)
    requires forall k :: 0 <= k < |all| ==> InArea(addresses, area)(all[k])
    requires forall i, j :: 0 <= i < j < |all| ==> all[i].offset < all[j].offset
    ensures group == all
  {
    hide Layout, Where, SortedItems;
    WhereAll(all, InArea(addresses, area));
    OnlyOrder(all, group);
  }

  lemma OnlyOrder(all: seq<Item>, group: seq<Item>)
    requires SortedItems(group) && multiset(group) == multiset(all)
    requires forall i, j :: 0 <= i < j < |all| ==> all[i].offset < all[j].offset
    ensures group == all
  {
    forall i, j | 0 <= i < j < |group|
      ensures group[i].offset <= group[j].offset
    {
      assert NotAfter(group[i], group[j]);
    }
    SameOrder(group, all);
  }

  lemma PairIsLaidOut(addresses: seq<Address>)
    requires addresses == [Address("holding", 0, 1, Float64), Address("holding", 1, 1, Int16)]
    ensures Layout(addresses, 0) == [Item(0, 0, 0, 4, 0, Float64), Item(1, 0, 1, 1, 0, Int16)]
    ensures AreaParse(addresses[0].area) == AreaParse(addresses[1].area) == Some(Holding)
  {
    assert AreaParse("holding") == Some(Holding);
    hide AreaParse;
    var front := addresses[..1];
    assert front == [addresses[0]] && front[..0] == [];
    LayoutGrows(front, 0);
    LayoutGrows(addresses, 0);
    hide Layout;
    NothingLaidOut(0);
    assert PlacedAll(addresses[0], 0, 0) == [Item(0, 0, 0, 4, 0, Float64)];
    assert PlacedAll(addresses[1], 1, 0) == [Item(1, 0, 1, 1, 0, Int16)];
  }

  lemma NothingLaidOut(base: nat)
    ensures Layout([], base) == []
  {
  }
}
