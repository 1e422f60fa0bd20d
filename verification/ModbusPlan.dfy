/**
 * The read planner: one pass over the elements of an area, sorted by offset,
 * that grows the last span while the next element is near enough and the span
 * stays within what one request may ask for.
 */
module ModbusPlan {
  import opened ModbusTypes

  /** A request: its first offset and how many bits or registers it asks for. */
  datatype Span = Span(start: nat, count: nat) {
    function End(): nat {
      start + count
    }

    predicate Covers(item: Item) {
      start <= item.offset && item.End() <= End()
    }
  }

  /** Offsets, ends, gaps and their differences are kept in 32 bits. */
  function U32(x: int): (u: nat)
    ensures 0 <= x < 0x1_0000_0000 ==> u == x
  {
    x % 0x1_0000_0000
  }

  /** Sums that wrap on the way wrap to the same 32 bits in the end. */
  lemma WrapsOnce(x: int, y: int)
    ensures U32(U32(x) + y) == U32(x + y)
  {
    var q := x / 0x1_0000_0000;
    assert U32(x) + y == x + y - 0x1_0000_0000 * q;
    ShiftedByWraps(x + y, q);
  }

  lemma ShiftedByWraps(x: int, q: int)
    ensures U32(x - 0x1_0000_0000 * q) == U32(x)
  {
    var a, b := x / 0x1_0000_0000, (x - 0x1_0000_0000 * q) / 0x1_0000_0000;
    assert U32(x - 0x1_0000_0000 * q) - U32(x) == 0x1_0000_0000 * (a - q - b);
  }

  ghost predicate Sorted(g: seq<Item>) {
    forall i, j :: 0 <= i < j < |g| ==> g[i].offset <= g[j].offset
  }

  /** The guard of the merge: may element k join the span that began at element s? */
  predicate Joins(g: seq<Item>, s: nat, k: nat, gap: nat, limit: nat)
    requires s < k < |g|
  {
    && g[k].offset <= U32(g[k - 1].End() + gap)
    && U32(g[k].End() - g[s].offset) <= limit
  }

  /** Where the run of elements that opened span r stops. */
  function Stop(cuts: seq<nat>, n: nat, r: nat): nat
    requires r < |cuts|
  {
    if r + 1 < |cuts| then cuts[r + 1] else n
  }

  ghost predicate Increasing(cuts: seq<nat>, n: nat) {
    && (forall i, j :: 0 <= i < j < |cuts| ==> cuts[i] < cuts[j])
    && (forall i :: 0 <= i < |cuts| ==> cuts[i] < n)
    && (|cuts| > 0 ==> cuts[0] == 0)
    && (|cuts| == 0 <==> n == 0)
  }

  /**
   * The planner's result for the first n elements: `cuts` are the elements that
   * opened a span; all others joined the span before them, and a span ends
   * where the LAST element that joined it ends.
   */
  ghost predicate IsPlanTo(g: seq<Item>, n: nat, gap: nat, limit: nat, spans: seq<Span>, cuts: seq<nat>)
    requires n <= |g|
  {
    && |cuts| == |spans|
    && Increasing(cuts, n)
    && (forall r :: 0 <= r < |cuts| ==> SpanOfRun(g, n, spans, cuts, r))
    && (forall r :: 0 <= r < |cuts| ==> RunJoins(g, n, gap, limit, cuts, r))
    && (forall r :: 0 < r < |cuts| ==> !Joins(g, cuts[r - 1], cuts[r], gap, limit))
  }

  ghost predicate SpanOfRun(g: seq<Item>, n: nat, spans: seq<Span>, cuts: seq<nat>, r: nat)
    requires n <= |g| && |cuts| == |spans| && Increasing(cuts, n) && r < |cuts|
  {
    var last := Stop(cuts, n, r) - 1;
    && spans[r].start == g[cuts[r]].offset
    && spans[r].count == Reach(g, cuts[r], last)
  }

  /** The count of a span that began at element s and that element k joined last. */
  function Reach(g: seq<Item>, s: nat, k: nat): nat
    requires s <= k < |g|
  {
    if s == k then g[s].width else U32(g[k].End() - g[s].offset)
  }

  /** Where such a span ends, in 32 bits. */
  lemma ReachEnds(g: seq<Item>, s: nat, k: nat, gap: nat)
    requires s <= k < |g|
    ensures U32(g[s].offset + Reach(g, s, k) + gap) == U32(g[k].End() + gap)
    ensures g[s].offset <= g[k].offset && g[k].End() < 0x1_0000_0000 ==> g[s].offset + Reach(g, s, k) == g[k].End()
  {
    WrapsOnce(g[k].End() - g[s].offset, g[s].offset + gap);
  }

  ghost predicate RunJoins(g: seq<Item>, n: nat, gap: nat, limit: nat, cuts: seq<nat>, r: nat)
    requires n <= |g| && Increasing(cuts, n) && r < |cuts|
  {
    forall k :: cuts[r] < k < Stop(cuts, n, r) ==> Joins(g, cuts[r], k, gap, limit)
  }

  ghost predicate IsPlan(g: seq<Item>, gap: nat, limit: nat, spans: seq<Span>, cuts: seq<nat>) {
    IsPlanTo(g, |g|, gap, limit, spans, cuts)
  }

  /** The span that is still growing. */
  lemma LastSpan(g: seq<Item>, n: nat, gap: nat, limit: nat, spans: seq<Span>, cuts: seq<nat>)
    requires n <= |g| && IsPlanTo(g, n, gap, limit, spans, cuts)
    ensures |cuts| == |spans| && (|cuts| == 0 <==> n == 0)
    ensures |cuts| > 0 ==>
              var last := |cuts| - 1;
              cuts[last] < n && spans[last] == Span(g[cuts[last]].offset, Reach(g, cuts[last], n - 1))
  {
    hide Reach, Joins;
    assert |cuts| > 0 ==> SpanOfRun(g, n, spans, cuts, |cuts| - 1);
  }

  /** The step that grows the last span. */
  lemma PlanGrows(g: seq<Item>, n: nat, gap: nat, limit: nat, spans: seq<Span>, cuts: seq<nat>, spans': seq<Span>)
    requires n < |g| && |spans| > 0
    requires IsPlanTo(g, n, gap, limit, spans, cuts)
    requires Joins(g, cuts[|cuts| - 1], n, gap, limit)
    requires |spans'| == |spans| && spans'[..|spans| - 1] == spans[..|spans| - 1]
    requires spans'[|spans| - 1].start == spans[|spans| - 1].start
    requires spans'[|spans| - 1].count == U32(g[n].End() - g[cuts[|cuts| - 1]].offset)
    ensures IsPlanTo(g, n + 1, gap, limit, spans', cuts)
  {
    var m := n + 1;
    forall r | 0 <= r < |cuts|
      ensures SpanOfRun(g, m, spans', cuts, r) && RunJoins(g, m, gap, limit, cuts, r)
    {
      assert SpanOfRun(g, n, spans, cuts, r);
      assert RunJoins(g, n, gap, limit, cuts, r);
      if r + 1 < |cuts| {
        assert spans'[r] == spans'[..|spans| - 1][r] == spans[r];
      }
    }
  }

  /** The step that opens a new span. */
  lemma PlanOpens(g: seq<Item>, n: nat, gap: nat, limit: nat, spans: seq<Span>, cuts: seq<nat>)
    requires n < |g|
    requires IsPlanTo(g, n, gap, limit, spans, cuts)
    requires |cuts| > 0 ==> !Joins(g, cuts[|cuts| - 1], n, gap, limit)
    ensures IsPlanTo(g, n + 1, gap, limit, spans + [Span(g[n].offset, g[n].width)], cuts + [n])
  {
    var spans', cuts' := spans + [Span(g[n].offset, g[n].width)], cuts + [n];
    var m := n + 1;
    forall r | 0 <= r < |cuts'|
      ensures SpanOfRun(g, m, spans', cuts', r) && RunJoins(g, m, gap, limit, cuts', r)
    {
      if r < |cuts| {
        assert SpanOfRun(g, n, spans, cuts, r);
        assert RunJoins(g, n, gap, limit, cuts, r);
        assert Stop(cuts', n + 1, r) == Stop(cuts, n, r);
      }
    }
  }

  // ------------------------------------------------- what the plan guarantees

  /** Nobody is wider than one request, and no end leaves 32 bits. */
  ghost predicate Narrow(g: seq<Item>, limit: nat) {
    forall i :: 0 <= i < |g| ==> 1 <= g[i].width <= limit && g[i].End() < 0x1_0000_0000
  }

  /** And no sum of an end and the gap does either. */
  ghost predicate Fits(g: seq<Item>, gap: nat, limit: nat) {
    forall i :: 0 <= i < |g| ==> 1 <= g[i].width <= limit && g[i].End() + gap < 0x1_0000_0000
  }

  /** No element is nested strictly inside an earlier one. */
  ghost predicate EndsNeverDecrease(g: seq<Item>) {
    forall i, j :: 0 <= i < j < |g| ==> g[i].End() <= g[j].End()
  }

  ghost predicate EndsNeverDecreaseTo(g: seq<Item>, k: nat)
    requires k < |g|
  {
    forall i, j :: 0 <= i < j <= k ==> g[i].End() <= g[j].End()
  }

  ghost predicate SameStartSameWidth(g: seq<Item>) {
    forall i, j :: 0 <= i < j < |g| && g[i].offset == g[j].offset ==> g[i].width == g[j].width
  }

  /** The run element k belongs to. */
  lemma {:induction false} RunOf(cuts: seq<nat>, n: nat, k: nat) returns (r: nat)
    requires Increasing(cuts, n) && k < n
    ensures r < |cuts| && cuts[r] <= k < Stop(cuts, n, r)
  {
    r := 0;
    while r + 1 < |cuts| && cuts[r + 1] <= k
      invariant r < |cuts| && cuts[r] <= k
    {
      r := r + 1;
    }
  }

  /** Every element of a run keeps the run within the limit, so each span does. */
  lemma RunWithinLimit(g: seq<Item>, n: nat, gap: nat, limit: nat, spans: seq<Span>, cuts: seq<nat>, r: nat, k: nat)
    requires n <= |g| && IsPlanTo(g, n, gap, limit, spans, cuts) && Narrow(g, limit)
    requires r < |cuts| && cuts[r] <= k < Stop(cuts, n, r)
    ensures g[k].End() - g[cuts[r]].offset <= limit
    ensures spans[r].count <= limit
  {
    assert RunJoins(g, n, gap, limit, cuts, r);
    assert SpanOfRun(g, n, spans, cuts, r);
    var last := Stop(cuts, n, r) - 1;
    assert last == cuts[r] || Joins(g, cuts[r], last, gap, limit);
    assert k == cuts[r] || Joins(g, cuts[r], k, gap, limit);
  }

  /** No span asks for more than one request may. */
  lemma SpansWithinLimit(g: seq<Item>, gap: nat, limit: nat, spans: seq<Span>, cuts: seq<nat>)
    requires IsPlan(g, gap, limit, spans, cuts) && Narrow(g, limit)
    ensures forall r :: 0 <= r < |spans| ==> spans[r].count <= limit
  {
    forall r | 0 <= r < |spans|
      ensures spans[r].count <= limit
    {
      RunWithinLimit(g, |g|, gap, limit, spans, cuts, r, cuts[r]);
    }
  }

  /** In sorted order and 32 bits a span ends where its last element does. */
  lemma SpanSize(g: seq<Item>, gap: nat, limit: nat, spans: seq<Span>, cuts: seq<nat>, r: nat)
    requires IsPlan(g, gap, limit, spans, cuts) && Sorted(g) && Narrow(g, limit) && r < |cuts|
    ensures spans[r].start == g[cuts[r]].offset && spans[r].End() == g[Stop(cuts, |g|, r) - 1].End()
  {
    assert SpanOfRun(g, |g|, spans, cuts, r);
    ReachEnds(g, cuts[r], Stop(cuts, |g|, r) - 1, gap);
  }

  /** When a span is closed, the element that closed it ends past the span. */
  lemma NextRunEndsLater(g: seq<Item>, n: nat, gap: nat, limit: nat, spans: seq<Span>, cuts: seq<nat>, r: nat)
    requires n <= |g| && IsPlanTo(g, n, gap, limit, spans, cuts) && Sorted(g) && Fits(g, gap, limit)
    requires r + 1 < |cuts|
    ensures g[cuts[r + 1]].End() > spans[r].End()
  {
    var c := cuts[r + 1];
    assert SpanOfRun(g, n, spans, cuts, r);
    RunWithinLimit(g, n, gap, limit, spans, cuts, r, cuts[r]);
    assert !Joins(g, cuts[(r + 1) - 1], c, gap, limit);
  }

  /** An element that begins behind the offset of the one before it and ends behind its end. */
  predicate Apart(g: seq<Item>, c: nat)
    requires 0 < c < |g|
  {
    g[c - 1].offset < g[c].offset && g[c - 1].End() < g[c].End()
  }

  /**
   * A new span begins behind the offsets of all earlier elements and its first
   * element ends behind all their ends. A gap of 2^32 - 1, which wraps to one
   * offset less, does no harm.
   */
  lemma NextRunIsApart(g: seq<Item>, gap: nat, limit: nat, spans: seq<Span>, cuts: seq<nat>, r: nat)
    requires IsPlan(g, gap, limit, spans, cuts) && Sorted(g) && Narrow(g, limit)
    requires Fits(g, gap, limit) || gap == 0xFFFF_FFFF
    requires EndsNeverDecrease(g) && SameStartSameWidth(g)
    requires 0 < r < |cuts|
    ensures Apart(g, cuts[r])
  {
    var c := cuts[r];
    assert cuts[r - 1] <= c - 1 < Stop(cuts, |g|, r - 1);
    RunWithinLimit(g, |g|, gap, limit, spans, cuts, r - 1, c - 1);
    assert !Joins(g, cuts[r - 1], c, gap, limit);
    GapReaches(g, gap, limit, c - 1);
  }

  /** The sum the guard compares with is not below the last offset of the element. */
  lemma GapReaches(g: seq<Item>, gap: nat, limit: nat, k: nat)
    requires Narrow(g, limit) && k < |g| && (Fits(g, gap, limit) || gap == 0xFFFF_FFFF)
    ensures U32(g[k].End() + gap) >= g[k].End() - 1
  {
    assert g[k].width >= 1;
    if gap == 0xFFFF_FFFF {
      ShiftedByWraps(g[k].End() + gap, 1);
    }
  }

  /** When every span is opened by such an element, no span covers the elements of another. */
  lemma ApartIsOnce(g: seq<Item>, gap: nat, limit: nat, spans: seq<Span>, cuts: seq<nat>, r: nat, k: nat)
    requires IsPlan(g, gap, limit, spans, cuts) && Sorted(g) && Narrow(g, limit) && EndsNeverDecrease(g)
    requires forall q :: 0 < q < |cuts| ==> Apart(g, cuts[q])
    requires r < |spans| && k < |g|
    ensures spans[r].Covers(g[k]) <==> cuts[r] <= k < Stop(cuts, |g|, r)
  {
    SpanSize(g, gap, limit, spans, cuts, r);
    if k < cuts[r] {
      assert Apart(g, cuts[r]);
    } else if k >= Stop(cuts, |g|, r) {
      assert Apart(g, cuts[r + 1]);
    }
  }

  /**
   * With no nested element, a span covers the elements that were merged into
   * it and no others: each element is fetched by exactly one request.
   */
  lemma ExactlyOnce(g: seq<Item>, gap: nat, limit: nat, spans: seq<Span>, cuts: seq<nat>, r: nat, k: nat)
    requires IsPlan(g, gap, limit, spans, cuts) && Sorted(g) && Narrow(g, limit)
    requires Fits(g, gap, limit) || gap == 0xFFFF_FFFF
    requires EndsNeverDecrease(g) && SameStartSameWidth(g)
    requires r < |spans| && k < |g|
    ensures spans[r].Covers(g[k]) <==> cuts[r] <= k < Stop(cuts, |g|, r)
  {
    forall q | 0 < q < |cuts|
      ensures Apart(g, cuts[q])
    {
      NextRunIsApart(g, gap, limit, spans, cuts, q);
    }
    ApartIsOnce(g, gap, limit, spans, cuts, r, k);
  }

  /** A stretch of gap + 1 offsets inside the span that no element touches. */
  ghost predicate HasHole(p: Span, g: seq<Item>, gap: nat) {
    exists a :: p.start <= a && a + gap < p.End() && Untouched(g, a, gap)
  }

  ghost predicate Untouched(g: seq<Item>, a: nat, gap: nat) {
    forall i :: 0 <= i < |g| ==> g[i].End() <= a || a + gap < g[i].offset
  }

  /** The planner never asks for more than `gap` unwanted offsets in a row. */
  lemma SpansHaveNoHole(g: seq<Item>, gap: nat, limit: nat, spans: seq<Span>, cuts: seq<nat>, r: nat)
    requires IsPlan(g, gap, limit, spans, cuts) && Sorted(g) && Fits(g, gap, limit) && EndsNeverDecrease(g)
    requires r < |spans|
    ensures !HasHole(spans[r], g, gap)
  {
    assert SpanOfRun(g, |g|, spans, cuts, r);
    assert RunJoins(g, |g|, gap, limit, cuts, r);
    if HasHole(spans[r], g, gap) {
      var a :| spans[r].start <= a && a + gap < spans[r].End() && Untouched(g, a, gap);
      var k := cuts[r];
      while g[k].End() <= a
        invariant cuts[r] <= k < Stop(cuts, |g|, r)
        invariant g[k].offset <= a + gap
        decreases |g| - k
      {
        assert Joins(g, cuts[r], k + 1, gap, limit);
        k := k + 1;
      }
      assert false;
    }
  }

  // -------------------------------------------------------------- optimality

  ghost predicate Fetched(plan: seq<Span>, item: Item) {
    exists p :: 0 <= p < |plan| && plan[p].Covers(item)
  }

  /** Any other way of fetching every element under the same rules. */
  ghost predicate IsAllowed(g: seq<Item>, gap: nat, limit: nat, plan: seq<Span>) {
    && (forall k :: 0 <= k < |g| ==> Fetched(plan, g[k]))
    && (forall p :: 0 <= p < |plan| ==> plan[p].count <= limit && !HasHole(plan[p], g, gap))
  }

  /** No allowed request can fetch the first elements of two different runs. */
  lemma RunsAreIncompatible(g: seq<Item>, gap: nat, limit: nat, spans: seq<Span>, cuts: seq<nat>, r: nat, q: nat,
                            p: Span)
    requires IsPlan(g, gap, limit, spans, cuts) && Sorted(g) && Fits(g, gap, limit) && EndsNeverDecrease(g)
    requires r < q < |cuts|
    requires p.Covers(g[cuts[r]]) && p.Covers(g[cuts[q]])
    ensures p.count > limit || HasHole(p, g, gap)
  {
    var c := cuts[r + 1];
    assert !Joins(g, cuts[(r + 1) - 1], c, gap, limit);
    assert c <= cuts[q];
    assert g[c].End() <= g[cuts[q]].End() <= p.End();
    if p.count <= limit {
      assert g[c - 1].End() + gap < 0x1_0000_0000;
      var a := g[c - 1].End();
      assert Untouched(g, a, gap);
      assert p.start <= a && a + gap < p.End();
    }
  }

  lemma Largest(f: seq<nat>) returns (i: nat)
    requires f != []
    ensures i < |f| && forall j :: 0 <= j < |f| ==> f[j] <= f[i]
  {
    i := 0;
    for k := 1 to |f|
      invariant i < |f| && forall j :: 0 <= j < k ==> f[j] <= f[i]
    {
      i := if f[k] > f[i] then k else i;
    }
  }

  /** Distinct values below n, one for each of m places: m is at most n. */
  lemma {:induction false} Pigeonhole(f: seq<nat>, n: nat)
    requires forall i :: 0 <= i < |f| ==> f[i] < n
    requires forall i, j :: 0 <= i < j < |f| ==> f[i] != f[j]
    ensures |f| <= n
  {
    if f != [] {
      var i := Largest(f);
      Pigeonhole(f[..i] + f[i + 1..], f[i]);
    }
  }

  /** Greedy stays ahead: no allowed plan uses fewer requests. */
  lemma Optimal(g: seq<Item>, gap: nat, limit: nat, spans: seq<Span>, cuts: seq<nat>, other: seq<Span>)
    requires IsPlan(g, gap, limit, spans, cuts) && Sorted(g) && Fits(g, gap, limit) && EndsNeverDecrease(g)
    requires IsAllowed(g, gap, limit, other)
    ensures |spans| <= |other|
  {
    var f: seq<nat> := [];
    while |f| < |spans|
      invariant |f| <= |spans|
      invariant forall r :: 0 <= r < |f| ==> f[r] < |other| && other[f[r]].Covers(g[cuts[r]])
    {
      assert Fetched(other, g[cuts[|f|]]);
      var p :| 0 <= p < |other| && other[p].Covers(g[cuts[|f|]]);
      f := f + [p];
    }
    forall r, q | 0 <= r < q < |f|
      ensures f[r] != f[q]
    {
      if f[r] == f[q] {
        RunsAreIncompatible(g, gap, limit, spans, cuts, r, q, other[f[r]]);
      }
    }
    Pigeonhole(f, |other|);
  }

  /** And the planner's own result is one of the allowed plans. */
  lemma PlanIsAllowed(g: seq<Item>, gap: nat, limit: nat, spans: seq<Span>, cuts: seq<nat>)
    requires IsPlan(g, gap, limit, spans, cuts) && Sorted(g) && Fits(g, gap, limit) && EndsNeverDecrease(g)
    ensures IsAllowed(g, gap, limit, spans)
  {
    forall k | 0 <= k < |g|
      ensures Fetched(spans, g[k])
    {
      var r := RunOf(cuts, |g|, k);
      assert SpanOfRun(g, |g|, spans, cuts, r);
      assert spans[r].Covers(g[k]);
    }
    forall p | 0 <= p < |spans|
      ensures spans[p].count <= limit && !HasHole(spans[p], g, gap)
    {
      SpansWithinLimit(g, gap, limit, spans, cuts);
      SpansHaveNoHole(g, gap, limit, spans, cuts, p);
    }
  }

  lemma NothingPlanned(g: seq<Item>, gap: nat, limit: nat)
    ensures IsPlanTo(g, 0, gap, limit, [], [])
  {
  }

  lemma PlanIsBest(g: seq<Item>, gap: nat, limit: nat, spans: seq<Span>, cuts: seq<nat>)
    requires IsPlan(g, gap, limit, spans, cuts) && Sorted(g) && Fits(g, gap, limit) && EndsNeverDecrease(g)
    ensures IsAllowed(g, gap, limit, spans)
    ensures forall other: seq<Span> :: IsAllowed(g, gap, limit, other) ==> |spans| <= |other|
  {
    hide IsPlanTo, IsAllowed, Fits;
    PlanIsAllowed(g, gap, limit, spans, cuts);
    forall other: seq<Span> | IsAllowed(g, gap, limit, other)
      ensures |spans| <= |other|
    {
      Optimal(g, gap, limit, spans, cuts, other);
    }
  }

  /** The merge loop over the sorted elements; `cuts` are the elements that opened a span. */
  method Plan(g: seq<Item>, gap: nat, limit: nat) returns (spans: seq<Span>, ghost cuts: seq<nat>)
    requires Sorted(g)
    ensures IsPlan(g, gap, limit, spans, cuts)
    ensures Fits(g, gap, limit) && EndsNeverDecrease(g) ==> IsAllowed(g, gap, limit, spans)
    ensures Fits(g, gap, limit) && EndsNeverDecrease(g) ==>
              forall other: seq<Span> :: IsAllowed(g, gap, limit, other) ==> |spans| <= |other|
  {
    spans, cuts := [], [];
    NothingPlanned(g, gap, limit);
    hide IsPlanTo, Fits, EndsNeverDecrease, IsAllowed, Reach, U32;
    for i := 0 to |g|
      invariant IsPlanTo(g, i, gap, limit, spans, cuts)
    {
      LastSpan(g, i, gap, limit, spans, cuts);
      var end := U32(g[i].offset + g[i].width);
      if |spans| > 0 {
        var last := spans[|spans| - 1];
        ReachEnds(g, cuts[|cuts| - 1], i - 1, gap);
        WrapsOnce(g[i].End(), 0 - last.start);
        if g[i].offset <= U32(last.start + last.count + gap) && U32(end - last.start) <= limit {
          ghost var was := spans;
          spans := spans[|spans| - 1 := last.(count := U32(end - last.start))];
          PlanGrows(g, i, gap, limit, was, cuts, spans);
          continue;
        }
      }
      PlanOpens(g, i, gap, limit, spans, cuts);
      spans := spans + [Span(g[i].offset, g[i].width)];
      cuts := cuts + [i];
    }
    if Fits(g, gap, limit) && EndsNeverDecrease(g) {
      PlanIsBest(g, gap, limit, spans, cuts);
    }
  }

  // ------------------------------------------------- when elements get lost

  lemma {:induction false} PlanExists(g: seq<Item>, n: nat, gap: nat, limit: nat)
    returns (spans: seq<Span>, cuts: seq<nat>)
    requires n <= |g| && Sorted(g)
    ensures IsPlanTo(g, n, gap, limit, spans, cuts)
  {
    NothingPlanned(g, gap, limit);
    hide IsPlanTo, Reach, U32;
    if n == 0 {
      spans, cuts := [], [];
    } else {
      spans, cuts := PlanExists(g, n - 1, gap, limit);
      LastSpan(g, n - 1, gap, limit, spans, cuts);
      if |cuts| > 0 && Joins(g, cuts[|cuts| - 1], n - 1, gap, limit) {
        var was, last := spans, spans[|spans| - 1];
        spans := spans[|spans| - 1 := Span(last.start, U32(g[n - 1].End() - last.start))];
        PlanGrows(g, n - 1, gap, limit, was, cuts, spans);
      } else {
        PlanOpens(g, n - 1, gap, limit, spans, cuts);
        spans, cuts := spans + [Span(g[n - 1].offset, g[n - 1].width)], cuts + [n - 1];
      }
    }
  }

  /** The plan of every prefix of the sorted batch fetches all of its elements. */
  ghost predicate LosesNothing(g: seq<Item>, gap: nat, limit: nat) {
    forall n: nat, spans: seq<Span>, cuts: seq<nat> :: n <= |g| && IsPlanTo(g, n, gap, limit, spans, cuts) ==>
      forall k :: 0 <= k < n ==> Fetched(spans, g[k])
  }

  /**
   * The span-shrinking assignment is harmless exactly when no element is nested
   * in an earlier one: otherwise the batch that stops at the first nested
   * element loses the element around it.
   */
  lemma LosesNothingExactly(g: seq<Item>, gap: nat, limit: nat)
    requires Sorted(g) && Fits(g, gap, limit)
    ensures LosesNothing(g, gap, limit) <==> EndsNeverDecrease(g)
  {
    if EndsNeverDecrease(g) {
      forall n: nat, spans: seq<Span>, cuts: seq<nat>, k | n <= |g| && IsPlanTo(g, n, gap, limit, spans, cuts)
          && 0 <= k < n
        ensures Fetched(spans, g[k])
      {
        var r := RunOf(cuts, n, k);
        assert SpanOfRun(g, n, spans, cuts, r);
        assert spans[r].Covers(g[k]);
      }
    } else {
      var k := FirstNested(g);
      var spans, cuts := NestedLoses(g, gap, limit, k);
      assert !Fetched(spans, g[k]);
    }
  }

  /** In a given plan an element lies in the span it joined exactly when the last to join ends no earlier. */
  lemma OwnSpanExactly(g: seq<Item>, gap: nat, limit: nat, spans: seq<Span>, cuts: seq<nat>, r: nat, k: nat)
    requires IsPlan(g, gap, limit, spans, cuts) && Sorted(g) && Narrow(g, limit)
    requires r < |cuts| && cuts[r] <= k < Stop(cuts, |g|, r)
    ensures spans[r].Covers(g[k]) <==> g[k].End() <= g[Stop(cuts, |g|, r) - 1].End()
  {
    assert SpanOfRun(g, |g|, spans, cuts, r);
    ReachEnds(g, cuts[r], Stop(cuts, |g|, r) - 1, gap);
  }

  /** Some element is covered by a span it was not merged into. */
  ghost predicate Repeats(g: seq<Item>, spans: seq<Span>, cuts: seq<nat>)
    requires |spans| == |cuts| && Increasing(cuts, |g|)
  {
    exists r, k :: 0 <= r < |spans| && 0 <= k < |g| && spans[r].Covers(g[k]) && !(cuts[r] <= k < Stop(cuts, |g|, r))
  }

  /** A span was opened by an element that has the offset of the one before it. */
  ghost predicate SplitsEqualOffsets(g: seq<Item>, cuts: seq<nat>)
    requires Increasing(cuts, |g|)
  {
    exists r :: 0 < r < |cuts| && g[cuts[r] - 1].offset == g[cuts[r]].offset
  }

  /**
   * Without nested elements one is fetched twice exactly when the merge breaks
   * off between two elements of equal offset.
   */
  lemma RepeatsExactly(g: seq<Item>, gap: nat, limit: nat, spans: seq<Span>, cuts: seq<nat>)
    requires IsPlan(g, gap, limit, spans, cuts) && Sorted(g) && Fits(g, gap, limit) && EndsNeverDecrease(g)
    ensures Repeats(g, spans, cuts) <==> SplitsEqualOffsets(g, cuts)
  {
    hide Joins, SpanOfRun, RunJoins;
    if r, k :| 0 <= r < |spans| && 0 <= k < |g| && spans[r].Covers(g[k]) && !(cuts[r] <= k < Stop(cuts, |g|, r)) {
      RepeatSplits(g, gap, limit, spans, cuts, r, k);
    }
    if r :| 0 < r < |cuts| && g[cuts[r] - 1].offset == g[cuts[r]].offset {
      SplitRepeats(g, gap, limit, spans, cuts, r);
    }
  }

  lemma RepeatSplits(g: seq<Item>, gap: nat, limit: nat, spans: seq<Span>, cuts: seq<nat>, r: nat, k: nat)
    requires IsPlan(g, gap, limit, spans, cuts) && Sorted(g) && Fits(g, gap, limit) && EndsNeverDecrease(g)
    requires r < |spans| && k < |g| && spans[r].Covers(g[k]) && !(cuts[r] <= k < Stop(cuts, |g|, r))
    ensures 0 < r && g[cuts[r] - 1].offset == g[cuts[r]].offset
  {
    assert SpanOfRun(g, |g|, spans, cuts, r);
    if k >= Stop(cuts, |g|, r) {
      NextRunEndsLater(g, |g|, gap, limit, spans, cuts, r);
    } else {
      var last := cuts[r] - 1;
      assert g[k].offset <= g[last].offset <= g[last + 1].offset;
    }
  }

  lemma SplitRepeats(g: seq<Item>, gap: nat, limit: nat, spans: seq<Span>, cuts: seq<nat>, r: nat)
    requires IsPlan(g, gap, limit, spans, cuts) && Sorted(g) && Fits(g, gap, limit) && EndsNeverDecrease(g)
    requires 0 < r < |cuts| && g[cuts[r] - 1].offset == g[cuts[r]].offset
    ensures Repeats(g, spans, cuts)
  {
    SpanSize(g, gap, limit, spans, cuts, r);
    assert SpanOfRun(g, |g|, spans, cuts, r);
    var k := cuts[r] - 1;
    assert g[k].End() <= g[Stop(cuts, |g|, r) - 1].End();
    assert spans[r].Covers(g[k]) && k < cuts[r];
  }

  /** The merge breaks off there only because of the limit, and only for elements of unequal width. */
  lemma SplitNeedsUnequalWidth(g: seq<Item>, gap: nat, limit: nat, spans: seq<Span>, cuts: seq<nat>, r: nat)
    requires IsPlan(g, gap, limit, spans, cuts) && Sorted(g) && Fits(g, gap, limit) && EndsNeverDecrease(g)
    requires 0 < r < |cuts| && g[cuts[r] - 1].offset == g[cuts[r]].offset
    ensures g[cuts[r] - 1].width < g[cuts[r]].width
    ensures g[cuts[r]].End() - spans[r - 1].start > limit
  {
    var c := cuts[r];
    assert !Joins(g, cuts[r - 1], c, gap, limit);
    assert SpanOfRun(g, |g|, spans, cuts, r - 1);
    assert cuts[r - 1] <= c - 1 < Stop(cuts, |g|, r - 1);
    RunWithinLimit(g, |g|, gap, limit, spans, cuts, r - 1, c - 1);
    assert g[c - 1].End() + gap < 0x1_0000_0000;
  }

  /** The next element stays in a run exactly when it joins. */
  lemma StaysOrOpens(g: seq<Item>, gap: nat, limit: nat, spans: seq<Span>, cuts: seq<nat>, r: nat, k: nat)
    requires IsPlan(g, gap, limit, spans, cuts) && r < |cuts| && cuts[r] < k < |g| && k <= Stop(cuts, |g|, r)
    ensures k < Stop(cuts, |g|, r) <==> Joins(g, cuts[r], k, gap, limit)
  {
    assert RunJoins(g, |g|, gap, limit, cuts, r);
    var next := r + 1;
    assert next < |cuts| ==> !Joins(g, cuts[next - 1], cuts[next], gap, limit);
  }

  /** A batch without nested elements of which one, at offset 124, is fetched by two spans. */
  lemma EqualOffsetsRepeat(g: seq<Item>, spans: seq<Span>, cuts: seq<nat>)
    requires g == [Item(0, 0, 0, 1, 0, Int16), Item(1, 0, 124, 1, 0, Int16), Item(2, 0, 124, 2, 0, Int32),
              Item(1, 1, 125, 1, 0, Int16)]
    requires IsPlan(g, 200, 125, spans, cuts)
    ensures EndsNeverDecrease(g) && Fits(g, 200, 125)
    ensures spans == [Span(0, 125), Span(124, 2)] && spans[0].Covers(g[1]) && spans[1].Covers(g[1])
  {
    StaysOrOpens(g, 200, 125, spans, cuts, 0, 1);
    StaysOrOpens(g, 200, 125, spans, cuts, 0, 2);
    StaysOrOpens(g, 200, 125, spans, cuts, 1, 3);
    assert SpanOfRun(g, 4, spans, cuts, 0) && SpanOfRun(g, 4, spans, cuts, 1);
  }

  // ------------------------------------------------------- gaps that wrap

  /** Elements of a 16 bit address space, none wider than one request. */
  ghost predicate OnBus(g: seq<Item>, limit: nat) {
    forall i :: 0 <= i < |g| ==> 1 <= g[i].width <= limit && g[i].End() <= 0x1_0000
  }

  /** The gaps with which no end of such an element wraps to the wrong side. */
  predicate GapKeeps(gap: nat) {
    gap < 0xFFFF_0000 || gap == 0xFFFF_FFFF
  }

  /** No batch without nested elements and unequal twins has an element fetched twice. */
  ghost predicate NeverRepeats(gap: nat, limit: nat) {
    forall g: seq<Item>, spans: seq<Span>, cuts: seq<nat> ::
      IsPlan(g, gap, limit, spans, cuts) ==>
        Sorted(g) && OnBus(g, limit) && EndsNeverDecrease(g) && SameStartSameWidth(g) ==> !Repeats(g, spans, cuts)
  }

  lemma KeptApart(g: seq<Item>, gap: nat, limit: nat, spans: seq<Span>, cuts: seq<nat>)
    requires IsPlan(g, gap, limit, spans, cuts) && Sorted(g) && OnBus(g, limit) && GapKeeps(gap)
    requires EndsNeverDecrease(g) && SameStartSameWidth(g)
    ensures !Repeats(g, spans, cuts)
  {
    if r, k :| 0 <= r < |spans| && 0 <= k < |g| && spans[r].Covers(g[k]) && !(cuts[r] <= k < Stop(cuts, |g|, r)) {
      ExactlyOnce(g, gap, limit, spans, cuts, r, k);
    }
  }

  /** With any other gap two elements in the last place of the address space are asked for apart, and both twice. */
  lemma LastTwins(g: seq<Item>, gap: nat, limit: nat, spans: seq<Span>, cuts: seq<nat>) returns (r: nat)
    requires IsPlan(g, gap, limit, spans, cuts) && Sorted(g) && OnBus(g, limit) && EndsNeverDecrease(g)
    requires gap < 0x1_0000_0000 && !GapKeeps(gap)
    requires |g| >= 2 && g[|g| - 2].offset == g[|g| - 1].offset == 0xFFFF
    ensures |spans| == |cuts| == r + 2 && cuts[r + 1] == |g| - 1
    ensures spans[r].Covers(g[|g| - 1]) && spans[r + 1].Covers(g[|g| - 2])
    ensures Repeats(g, spans, cuts)
  {
    var n := |g| - 2;
    ShiftedByWraps(g[n].End() + gap, 1);
    assert U32(g[n].End() + gap) < 0xFFFF;
    r := RunOf(cuts, |g|, n);
    assert !Joins(g, cuts[r], n + 1, gap, limit);
    assert RunJoins(g, |g|, gap, limit, cuts, r);
    SpanSize(g, gap, limit, spans, cuts, r);
    SpanSize(g, gap, limit, spans, cuts, r + 1);
    assert spans[r].Covers(g[n + 1]) && !(cuts[r] <= n + 1 < Stop(cuts, |g|, r));
  }

  /** Which gaps, once their sums wrap, still fetch every element of every such batch once. */
  lemma NeverRepeatsExactly(gap: nat, limit: nat)
    requires gap < 0x1_0000_0000 && limit >= 1
    ensures NeverRepeats(gap, limit) <==> GapKeeps(gap)
  {
    if GapKeeps(gap) {
      forall g: seq<Item>, spans: seq<Span>, cuts: seq<nat>
        | IsPlan(g, gap, limit, spans, cuts) && Sorted(g) && OnBus(g, limit) && EndsNeverDecrease(g)
          && SameStartSameWidth(g)
        ensures !Repeats(g, spans, cuts)
      {
        KeptApart(g, gap, limit, spans, cuts);
      }
    } else {
      var twins := [Item(0, 0, 0xFFFF, 1, 0, Int16), Item(1, 0, 0xFFFF, 1, 0, Int16)];
      var spans, cuts := PlanExists(twins, 2, gap, limit);
      var r := LastTwins(twins, gap, limit, spans, cuts);
      assert IsPlan(twins, gap, limit, spans, cuts);
    }
  }

  lemma {:induction false} FirstNested(g: seq<Item>) returns (k: nat)
    requires !EndsNeverDecrease(g)
    ensures k + 1 < |g| && g[k + 1].End() < g[k].End() && EndsNeverDecreaseTo(g, k)
  {
    k := 0;
    while k + 1 < |g| && g[k].End() <= g[k + 1].End()
      invariant k < |g|
      invariant EndsNeverDecreaseTo(g, k)
    {
      k := k + 1;
    }
  }

  lemma NestedLoses(g: seq<Item>, gap: nat, limit: nat, k: nat) returns (spans: seq<Span>, cuts: seq<nat>)
    requires Sorted(g) && Fits(g, gap, limit)
    requires k + 1 < |g| && g[k + 1].End() < g[k].End() && EndsNeverDecreaseTo(g, k)
    ensures IsPlanTo(g, k + 2, gap, limit, spans, cuts) && !Fetched(spans, g[k])
  {
    var before: seq<Span>;
    before, cuts := PlanExists(g, k + 1, gap, limit);
    var top := |cuts| - 1;
    NestedJoins(g, gap, limit, k, before, cuts);
    LastSpan(g, k + 1, gap, limit, before, cuts);
    var shrunk := Span(before[top].start, U32(g[k + 1].End() - before[top].start));
    spans := before[top := shrunk];
    ShrunkEnds(g, gap, limit, k, before[top].start);
    PlanGrows(g, k + 1, gap, limit, before, cuts, spans);
    forall p | 0 <= p < |spans|
      ensures !spans[p].Covers(g[k])
    {
      if p < top {
        ClosedBefore(g, gap, limit, k, before, cuts, p);
      }
    }
  }

  lemma ShrunkEnds(g: seq<Item>, gap: nat, limit: nat, k: nat, start: nat)
    requires Fits(g, gap, limit) && k + 1 < |g| && start <= g[k + 1].offset
    ensures start + U32(g[k + 1].End() - start) == g[k + 1].End()
  {
  }

  /** A span that was closed before element k opened or joined one does not cover it. */
  lemma ClosedBefore(g: seq<Item>, gap: nat, limit: nat, k: nat, spans: seq<Span>, cuts: seq<nat>, p: nat)
    requires k < |g| && IsPlanTo(g, k + 1, gap, limit, spans, cuts) && Sorted(g) && Fits(g, gap, limit)
    requires EndsNeverDecreaseTo(g, k) && p + 1 < |cuts|
    ensures spans[p].End() < g[k].End()
  {
    NextRunEndsLater(g, k + 1, gap, limit, spans, cuts, p);
    assert cuts[p + 1] <= k;
  }

  lemma NestedJoins(g: seq<Item>, gap: nat, limit: nat, k: nat, spans: seq<Span>, cuts: seq<nat>)
    requires Sorted(g) && Fits(g, gap, limit)
    requires k + 1 < |g| && g[k + 1].End() < g[k].End()
    requires IsPlanTo(g, k + 1, gap, limit, spans, cuts)
    ensures Joins(g, cuts[|cuts| - 1], k + 1, gap, limit)
    ensures spans[|cuts| - 1].start <= g[k].offset
  {
    var top := |cuts| - 1;
    RunWithinLimit(g, k + 1, gap, limit, spans, cuts, top, k);
    assert SpanOfRun(g, k + 1, spans, cuts, top);
    assert g[k].End() + gap < 0x1_0000_0000;
  }

  /** Of a batch of two, the outer element is lost exactly as drawn: one short span. */
  lemma NestedPair(g: seq<Item>, gap: nat, limit: nat, spans: seq<Span>, cuts: seq<nat>)
    requires |g| == 2 && Sorted(g) && Fits(g, gap, limit) && g[1].End() < g[0].End()
    requires IsPlan(g, gap, limit, spans, cuts)
    ensures |spans| == 1 && spans[0].start == g[0].offset && spans[0].End() == g[1].End()
    ensures !Fetched(spans, g[0])
  {
    assert g[0].End() + gap < 0x1_0000_0000;
    assert Joins(g, 0, 1, gap, limit);
    assert SpanOfRun(g, 2, spans, cuts, 0);
  }

  /** The smallest case: the planner asks for [0, 2) and drops the element at [0, 4). */
  lemma NestedElementIsLost(g: seq<Item>, spans: seq<Span>, cuts: seq<nat>)
    requires g == [Item(0, 0, 0, 4, 0, Float64), Item(1, 0, 1, 1, 0, Int16)]
    requires IsPlan(g, 8, 125, spans, cuts)
    ensures spans == [Span(0, 2)] && !Fetched(spans, g[0])
  {
    hide IsPlanTo;
    NestedPair(g, 8, 125, spans, cuts);
  }
}
