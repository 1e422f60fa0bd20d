/**
 * PMC reads and writes against a machine that may answer anything: a segment, a
 * single point, an error, or a value its ladder program has changed meanwhile.
 */
module FocasPmc {
  import opened Common
  import opened Bits

  /** A request as it goes out: letter family, first number, end number, width. */
  datatype Req =
    | ReadReq(adr: int, start: int, end: int, width: int)
    | WriteReq(adr: int, start: int, end: int, width: int, data: seq<byte>)

  /** One request and what came back. */
  datatype Event = Event(req: Req, answer: Result<seq<byte>>)

  /** Bytes of one point: byte, word or long. */
  function Point(width: int): (n: nat)
    ensures n == 1 || n == 2 || n == 4
  {
    if width == 2 then 4 else if width == 1 then 2 else 1
  }

  /** Point i of a run of big endian points. */
  function PointAt(bytes: seq<byte>, point: nat, i: nat): (v: nat)
    requires point * i + point <= |bytes|
  {
    BeNat(bytes[point * i..point * i + point])
  }

  /** Point i of an answer or a payload is v: two bytes of a word, four of a long, else a byte; the high one first. */
  predicate Says(bytes: seq<byte>, width: int, i: nat, v: int) {
    if width == 1 then 2 * i + 1 < |bytes| && v == bytes[2 * i] as int * 0x100 + bytes[2 * i + 1] as int
    else if width == 2 then
      && 4 * i + 3 < |bytes|
      && v == bytes[4 * i] as int * 0x100_0000 + bytes[4 * i + 1] as int * 0x1_0000
              + bytes[4 * i + 2] as int * 0x100 + bytes[4 * i + 3] as int
    else i < |bytes| && v == bytes[i] as int
  }

  /** The bytes of so many points. */
  function SizeOf(width: int, count: int): int {
    if width == 1 then 2 * count else if width == 2 then 4 * count else count
  }

  /** The whole points in so many bytes. */
  function Whole(width: int, size: nat): nat {
    if width == 1 then size / 2 else if width == 2 then size / 4 else size
  }

  /** What is left of a number in a point. */
  function Cut(width: int, v: int): nat {
    if width == 1 then v % 0x1_0000 else if width == 2 then v % 0x1_0000_0000 else v % 0x100
  }

  /** The payload of a write: the values, each cut to its point. */
  ghost predicate Carries(data: seq<byte>, width: int, values: seq<int>) {
    && |data| == SizeOf(width, |values|)
    && forall i :: 0 <= i < |values| ==> Says(data, width, i, Cut(width, values[i]))
  }

  /** A read whose answer said that point p is v. */
  ghost predicate Showed(e: Event, adr: int, width: int, p: int, v: int) {
    && e.req.ReadReq? && e.req.adr == adr && e.req.width == width && e.answer.Ok?
    && e.req.start <= p < e.req.end
    && Says(e.answer.value, width, p - e.req.start, v)
  }

  /** A write that asked to change point p. */
  ghost predicate Touches(e: Event, adr: int, p: int) {
    && e.req.WriteReq? && e.req.adr == adr
    && e.req.start <= p < e.req.start + Whole(e.req.width, |e.req.data|)
  }

  /** Since position `from`, some read showed v at p. */
  ghost predicate Seen(log: seq<Event>, from: nat, adr: int, width: int, p: int, v: int) {
    exists k :: from <= k < |log| && Showed(log[k], adr, width, p, v)
  }

  /** Since `from`: a write touched p, a later read showed v there, and no write touched p after that read. */
  ghost predicate Confirmed(log: seq<Event>, from: nat, adr: int, width: int, p: int, v: int) {
    exists w, k :: from <= w < k < |log| && Touches(log[w], adr, p) && Showed(log[k], adr, width, p, v) &&
      forall j :: k < j < |log| ==> !Touches(log[j], adr, p)
  }

  ghost predicate OnlyReads(log: seq<Event>, from: nat) {
    forall k :: from <= k < |log| ==> log[k].req.ReadReq?
  }

  /** An answer that lets a read of `count` points fail although its arguments are in range. */
  ghost predicate Excuses(e: Event, count: int, width: int) {
    && e.req.ReadReq? && e.req.width == width && e.req.start < e.req.end
    && (e.answer.Fail? || |e.answer.value| < SizeOf(width, 1)
        || (count > 64 && e.req.end - e.req.start == count && |e.answer.value| < SizeOf(width, count)))
  }

  ghost predicate Excused(log: seq<Event>, from: nat, count: int, width: int) {
    exists k :: from <= k < |log| && Excuses(log[k], count, width)
  }

  /** The payload of a write: each value in `point` big endian bytes, as a 64 bit number cut short. */
  function Image(values: seq<int>, point: nat): (data: seq<byte>)
    ensures |data| == point * |values|
  {
    if values == [] then [] else
      var last := |values| - 1;
      assert point * |values| == point * last + point;
      Image(values[..last], point) + PutBe(values[last] % 0x1_0000_0000_0000_0000, point)
  }

  /** A write of the values a..b of a run, at their own points. */
  ghost predicate AsksRun(req: Req, adr: int, width: int, start: int, values: seq<int>, a: nat, b: nat) {
    && a < b <= |values|
    && req.WriteReq? && req == WriteReq(adr, start + a, start + a + 1, width, req.data)
    && Carries(req.data, width, values[a..b])
  }

  /** Every write since `from` asks for some of these values, at their own points. */
  ghost predicate AsksOnly(log: seq<Event>, from: nat, adr: int, width: int, start: int, values: seq<int>) {
    forall k :: from <= k < |log| && log[k].req.WriteReq? ==>
      exists a: nat, b: nat :: AsksRun(log[k].req, adr, width, start, values, a, b)
  }

  /** Since `from`, a read showed something else than `wanted` at p. */
  ghost predicate Differed(log: seq<Event>, from: nat, adr: int, width: int, p: int, wanted: int) {
    exists v :: v != wanted && Seen(log, from, adr, width, p, v)
  }

  /** Why a write may be reported as failed: something failed or a point showed another value. */
  ghost predicate Refused(log: seq<Event>, from: nat, adr: int, width: int, start: int, values: seq<int>) {
    || (exists k :: from <= k < |log| && log[k].answer.Fail?)
    || Excused(log, from, |values|, width)
    || (exists i :: 0 <= i < |values| && Differed(log, from, adr, width, start + i, values[i]))
  }

  /** Bit k of b is on or off as wanted. */
  predicate BitIs(b: nat, k: nat, on: bool) {
    BitOf(b, k) == if on then 1 else 0
  }

  /** The byte b with bit k switched. */
  function OneBit(b: nat, k: nat, on: bool): nat {
    if on then SetBit(b, k) else ClearBit(b, k)
  }

  /** The machine reports one fixed memory, a whole segment at a time or only its first point. */
  ghost predicate Reports(machine: (seq<Event>, Req) -> Result<seq<byte>>, memory: (int, int, int) -> nat,
                          whole: bool) {
    forall log, adr, start, end, width :: start < end ==>
      var answer := machine(log, ReadReq(adr, start, end, width));
      && answer.Ok?
      && |answer.value| == SizeOf(width, if whole then end - start else 1)
      && forall i: nat :: SizeOf(width, i + 1) <= |answer.value| ==> Tells(answer.value, memory, adr, width, start, i)
  }

  /** Point i of a segment is what the memory holds there. */
  predicate Tells(bytes: seq<byte>, memory: (int, int, int) -> nat, adr: int, width: int, start: int, i: nat) {
    Says(bytes, width, i, memory(adr, width, start + i))
  }

  /** Since `from` the byte at p was shown as v before anything was written. */
  ghost predicate ShownBefore(log: seq<Event>, from: nat, adr: int, p: int, v: int) {
    exists n :: from < n <= |log| && OnlyReads(log[..n], from) && Seen(log[..n], from, adr, 0, p, v)
  }

  class Pmc {
    /** The machine: any reaction to what it has been asked before and is asked now. */
    const machine: (seq<Event>, Req) -> Result<seq<byte>>
    var log: seq<Event>

    /** The log is a run of this machine. */
    ghost predicate Valid()
      reads this
    {
      forall k :: 0 <= k < |log| ==> log[k].answer == machine(log[..k], log[k].req)
    }

    constructor (machine: (seq<Event>, Req) -> Result<seq<byte>>)
      ensures Valid() && log == [] && this.machine == machine
    {
      this.machine := machine;
      log := [];
    }

    method Call(req: Req) returns (r: Result<seq<byte>>)
      requires Valid()
      modifies this`log
      ensures Valid() && log == old(log) + [Event(req, r)]
    {
      r := machine(log, req);
      ghost var before := log;
      log := log + [Event(req, r)];
      forall k | 0 <= k < |log|
        ensures log[k].answer == machine(log[..k], log[k].req)
      {
        if k < |before| {
          assert log[..k] == before[..k];
        } else {
          assert log[..k] == before;
        }
      }
    }

    /**
     * Reads `count` points. A machine that answers only one point at a time is
     * asked point by point; each value returned is one that was shown for its
     * own point during this call.
     */
    method PmcRead(adr: int, start: int, count: int, width: int) returns (r: Result<seq<int>>)
      requires Valid()
      modifies this`log
      ensures Valid() && old(log) <= log && OnlyReads(log, |old(log)|)
      ensures adr < 0 || start < 0 || count <= 0 || width < 0 || width > 2 ==> r == Fail(InvalidArg) && log == old(log)
      ensures adr >= 0 && start >= 0 && count > 512 && 0 <= width <= 2 ==> r == Fail(OutOfRange) && log == old(log)
      ensures count == 1 ==> |log| <= |old(log)| + 1
      ensures count == 1 && r.Fail? && |log| > |old(log)| && log[|old(log)|].answer.Ok? ==> r == Fail(OutOfRange)
      ensures r.Ok? ==> |r.value| == count
      ensures r.Ok? ==> forall i :: 0 <= i < count ==> Seen(log, |old(log)|, adr, width, start + i, r.value[i])
      ensures r.Ok? ==> forall i :: 0 <= i < count ==> 0 <= r.value[i]
      ensures adr >= 0 && start >= 0 && 0 < count <= 512 && 0 <= width <= 2 ==>
                && |log| > |old(log)| && log[|old(log)|].req == ReadReq(adr, start, start + count, width)
                && var first := log[|old(log)|].answer;
                   first.Ok? && SizeOf(width, count) <= |first.value| ==>
                     r.Ok? && forall i :: 0 <= i < count ==> Says(first.value, width, i, r.value[i])
      ensures r.Ok? && count > 64 ==>
                |log| == |old(log)| + 1 && log[|old(log)|].req == ReadReq(adr, start, start + count, width) &&
                log[|old(log)|].answer.Ok? && SizeOf(width, count) <= |log[|old(log)|].answer.value|
      ensures r.Fail? && adr >= 0 && start >= 0 && 0 < count <= 512 && 0 <= width <= 2 ==>
                Excused(log, |old(log)|, count, width)
      decreases count
    {
      hide PointAt, Says, Showed, Seen;
      if adr < 0 || start < 0 || count <= 0 || width < 0 || width > 2 {
        return Fail(InvalidArg);
      }
      if count > 512 {
        return Fail(OutOfRange);
      }
      var point := Point(width);
      ghost var from := |log|;
      var bytes := Call(ReadReq(adr, start, start + count, width));
      if bytes.Fail? {
        assert Excuses(log[from], count, width);
        return Fail(bytes.error);
      }
      assert log[from] == Event(ReadReq(adr, start, start + count, width), bytes);
      if |bytes.value| < count * point {
        var got := |bytes.value| / point;
        if got == 0 || count > 64 {
          assert Excuses(log[from], count, width);
          return Fail(OutOfRange);
        }
        AtLeastTwo(point, count, |bytes.value|);
        ghost var asked := log;
        r := ReadSingly(adr, start, count, width);
        if r.Ok? {
          forall i | 0 <= i < count
            ensures Seen(log, from, adr, width, start + i, r.value[i])
          {
            SeenSooner(log, |asked|, from, adr, width, start + i, r.value[i]);
          }
        }
        return;
      }
      var values := Points(bytes.value, point, count);
      forall i | 0 <= i < count
        ensures Seen(log, from, adr, width, start + i, values[i]) && Says(bytes.value, width, i, values[i])
      {
        PointFits(point, i, count, |bytes.value|);
        PointSays(bytes.value, width, i);
        ShownAt(log, from, adr, width, start, count, i, values[i]);
      }
      return Ok(values);
    }

    /** The answer cut into points. */
    static method Points(bytes: seq<byte>, point: nat, count: nat) returns (values: seq<int>)
      requires count * point <= |bytes|
      ensures |values| == count
      ensures forall i :: 0 <= i < count ==> point * i + point <= |bytes| && values[i] == PointAt(bytes, point, i)
    {
      values := [];
      for i := 0 to count
        invariant |values| == i
        invariant forall k :: 0 <= k < i ==> point * k + point <= |bytes| && values[k] == PointAt(bytes, point, k)
      {
        PointFits(point, i, count, |bytes|);
        var v := PointValue(bytes, point, i);
        values := values + [v];
      }
    }

    /** The fallback: one request per point. */
    method ReadSingly(adr: int, start: int, count: int, width: int) returns (r: Result<seq<int>>)
      requires Valid()
      requires adr >= 0 && start >= 0 && 1 < count <= 64 && 0 <= width <= 2
      modifies this`log
      ensures Valid() && old(log) <= log && OnlyReads(log, |old(log)|)
      ensures r.Ok? ==> |r.value| == count
      ensures r.Ok? ==> forall i :: 0 <= i < count ==> Seen(log, |old(log)|, adr, width, start + i, r.value[i])
      ensures r.Ok? ==> forall i :: 0 <= i < count ==> 0 <= r.value[i]
      ensures r.Fail? ==> Excused(log, |old(log)|, 1, width)
      decreases count, 0
    {
      ghost var from := |log|;
      var values: seq<int> := [];
      for i := 0 to count
        invariant Valid() && old(log) <= log && OnlyReads(log, from)
        invariant |values| == i
        invariant forall k :: 0 <= k < i ==> 0 <= values[k] && Seen(log, from, adr, width, start + k, values[k])
      {
        ghost var before := log;
        var one := PmcRead(adr, start + i, 1, width);
        if one.Fail? {
          return Fail(one.error);
        }
        forall k | 0 <= k < i
          ensures Seen(log, from, adr, width, start + k, values[k])
        {
          StillSeen(before, log, from, adr, width, start + k, values[k]);
        }
        assert Seen(log, |before|, adr, width, start + i + 0, one.value[0]);
        values := values + [one.value[0]];
      }
      return Ok(values);
    }

    /**
     * Writes a run of points and reads them back. Success is only reported for
     * points that a read, made after the last write to them, showed to hold the
     * requested value; when the machine took only the first of several points,
     * each is written on its own.
     */
    method PmcWrite(adr: int, start: int, values: seq<int>, width: int) returns (r: Result<()>)
      requires Valid()
      modifies this`log
      ensures Valid() && old(log) <= log
      ensures values == [] || |values| > 128 || adr < 0 || start < 0 || width < 0 || width > 2 ==>
                r == Fail(InvalidArg) && log == old(log)
      ensures r.Ok? ==> forall i :: 0 <= i < |values| ==> Confirmed(log, |old(log)|, adr, width, start + i, values[i])
      ensures AsksOnly(log, |old(log)|, adr, width, start, values)
      ensures r.Fail? && 0 < |values| <= 128 && adr >= 0 && start >= 0 && 0 <= width <= 2 ==>
                Refused(log, |old(log)|, adr, width, start, values)
      ensures |values| == 1 && r == Fail(Unavailable) && (forall k :: |old(log)| <= k < |log| ==> log[k].answer.Ok?) ==>
                |log| == |old(log)| + 4
      decreases |values|, 1
    {
      hide Confirmed, Image, Excused, Seen, PointAt, Says, Refused, Carries, Differed, AsksOnly, Touches;
      NothingAsked(log, adr, width, start, values);
      if values == [] {
        return Fail(InvalidArg);
      }
      if adr < 0 || start < 0 || width < 0 || width > 2 || |values| > 128 {
        return Fail(InvalidArg);
      }
      var data := WriteBytes(values, Point(width));
      ghost var from := |log|;
      var answer := Call(WriteReq(adr, start, start + 1, width, data));
      ghost var written := log;
      ImageCarries(values, width);
      WholeRunAsked(log, from, adr, width, start, values);
      if answer.Fail? {
        FailureRefuses(log, from, adr, width, start, values);
        return Fail(answer.error);
      }
      var same := Compare(adr, start, values, width);
      AskedBefore(written, log, from, adr, width, start, values);
      if same.Fail? {
        ExcusedSooner(log, |written|, from, |values|, width);
        ExcuseRefuses(log, from, adr, width, start, values);
        return Fail(same.error);
      }
      if same.value {
        forall i | 0 <= i < |values|
          ensures Confirmed(log, from, adr, width, start + i, values[i])
        {
          WriteTouches(log[from], adr, width, start, values, i);
          ReadBack(log, from, |written|, adr, width, start + i, values[i]);
        }
        return Ok(());
      }
      ghost var i :| 0 <= i < |values| && Differed(log, |written|, adr, width, start + i, values[i]);
      DifferedSooner(log, |written|, from, adr, width, start + i, values[i]);
      DifferenceRefuses(log, from, adr, width, start, values, i);
      if |values| > 1 {
        ghost var tried := log;
        r := WriteSingly(adr, start, values, width);
        AskedTogether(tried, log, from, adr, width, start, values);
        if r.Ok? {
          forall i | 0 <= i < |values|
            ensures Confirmed(log, from, adr, width, start + i, values[i])
          {
            ConfirmedSooner(log, |tried|, from, adr, width, start + i, values[i]);
          }
        } else {
          RefusedSooner(log, |tried|, from, adr, width, start, values);
        }
        return;
      }
      return Fail(Unavailable);
    }

    /** The part of it that reads the points back, up to three times, until they are as wanted. */
    method Compare(adr: int, start: int, values: seq<int>, width: int) returns (same: Result<bool>)
      requires Valid()
      requires 0 < |values| <= 128 && adr >= 0 && start >= 0 && 0 <= width <= 2
      modifies this`log
      ensures Valid() && old(log) <= log && OnlyReads(log, |old(log)|)
      ensures same == Ok(true) ==>
                forall i :: 0 <= i < |values| ==> Seen(log, |old(log)|, adr, width, start + i, values[i])
      ensures same == Ok(false) ==>
                exists i :: 0 <= i < |values| && Differed(log, |old(log)|, adr, width, start + i, values[i])
      ensures same.Fail? ==> Excused(log, |old(log)|, |values|, width)
      ensures |values| == 1 && same == Ok(false) ==> |log| == |old(log)| + 3
      ensures |values| == 1 && same.Fail? && (forall k :: |old(log)| <= k < |log| ==> log[k].answer.Ok?) ==>
                same == Fail(OutOfRange)
    {
      hide Excused, Seen, Says, SizeOf, Showed;
      ghost var written := log;
      for attempt := 0 to 3
        invariant Valid() && written <= log && OnlyReads(log, |written|)
        invariant |values| == 1 ==> |log| == |written| + attempt
        invariant attempt > 0 ==>
                    exists i :: 0 <= i < |values| && Differed(log, |written|, adr, width, start + i, values[i])
      {
        ghost var asked := log;
        var back := PmcRead(adr, start, |values|, width);
        if back.Fail? {
          ExcusedSooner(log, |asked|, |written|, |values|, width);
          return Fail(back.error);
        }
        var equal := SameValues(back.value, values);
        if equal {
          forall i | 0 <= i < |values|
            ensures Seen(log, |written|, adr, width, start + i, values[i])
          {
            SeenSooner(log, |asked|, |written|, adr, width, start + i, values[i]);
          }
          return Ok(true);
        }
        ghost var i :| 0 <= i < |values| && back.value[i] != values[i];
        SeenSooner(log, |asked|, |written|, adr, width, start + i, back.value[i]);
        assert Differed(log, |written|, adr, width, start + i, values[i]);
      }
      return Ok(false);
    }

    /** The fallback: every point written and read back on its own, in order. */
    method WriteSingly(adr: int, start: int, values: seq<int>, width: int) returns (r: Result<()>)
      requires Valid()
      requires adr >= 0 && start >= 0 && 1 < |values| <= 128 && 0 <= width <= 2
      modifies this`log
      ensures Valid() && old(log) <= log
      ensures r.Ok? ==> forall i :: 0 <= i < |values| ==> Confirmed(log, |old(log)|, adr, width, start + i, values[i])
      ensures AsksOnly(log, |old(log)|, adr, width, start, values)
      ensures r.Fail? ==> Refused(log, |old(log)|, adr, width, start, values)
      decreases |values|, 0
    {
      hide Confirmed, AsksOnly, Image, Refused, Pmc.Valid;
      ghost var from := |log|;
      NothingAsked(log, adr, width, start, values);
      for i := 0 to |values|
        invariant Valid() && old(log) <= log
        invariant AsksOnly(log, from, adr, width, start, values)
        invariant forall k :: 0 <= k < i ==> Confirmed(log, from, adr, width, start + k, values[k])
      {
        ghost var before := log;
        r := PmcWrite(adr, start + i, [values[i]], width);
        SingleAsks(before, log, from, adr, width, start, values, i);
        if r.Fail? {
          SingleRefused(log, |before|, from, adr, width, start, values, i);
          return;
        }
        forall k | 0 <= k < i
          ensures Confirmed(log, from, adr, width, start + k, values[k])
        {
          StillConfirmed(before, log, from, adr, width, start, values, i, k);
        }
        assert Confirmed(log, |before|, adr, width, start + i + 0, [values[i]][0]);
        ConfirmedSooner(log, |before|, from, adr, width, start + i, values[i]);
      }
      return Ok(());
    }

    /**
     * Switches one bit: reads its byte, and writes the byte back only when the bit
     * has to change. Whatever is asked of the machine differs from the byte it
     * showed in that bit alone.
     */
    method PmcBitWrite(adr: int, bit: int, on: bool) returns (r: Result<()>, ghost shown: nat)
      requires Valid()
      modifies this`log
      ensures Valid() && old(log) <= log
      ensures bit < 0 || adr < 0 ==> r == Fail(InvalidArg) && log == old(log)
      ensures r.Ok? ==> shown < 0x100 && Seen(log, |old(log)|, adr, 0, bit / 8, shown)
      ensures r.Ok? ==> bit >= 0 && (BitIs(shown, bit % 8, on) <==> OnlyReads(log, |old(log)|))
      ensures !OnlyReads(log, |old(log)|) ==> bit >= 0 && ShownBefore(log, |old(log)|, adr, bit / 8, shown)
      ensures r.Fail? && bit >= 0 && adr >= 0 ==>
                Refused(log, |old(log)|, adr, 0, bit / 8, [OneBit(shown, bit % 8, on)])
      ensures r.Ok? && !OnlyReads(log, |old(log)|) ==>
                Confirmed(log, |old(log)|, adr, 0, bit / 8, OneBit(shown, bit % 8, on))
      ensures !OnlyReads(log, |old(log)|) ==>
                bit >= 0 && AsksOnly(log, |old(log)|, adr, 0, bit / 8, [OneBit(shown, bit % 8, on)])
    {
      hide Confirmed, Seen, Image, SetBit, ClearBit, Excused, BitOf, Refused;
      shown := 0;
      if bit < 0 {
        return Fail(InvalidArg), shown;
      }
      ghost var from := |log|;
      var one := PmcRead(adr, bit / 8, 1, 0);
      if one.Fail? {
        if adr >= 0 {
          ReadRefused(log, from, adr, bit / 8, [OneBit(shown, bit % 8, on)]);
        }
        return Fail(one.error), shown;
      }
      ghost var read := log;
      var value := one.value[0];
      assert Seen(log, from, adr, 0, bit / 8 + 0, value);
      ByteShown(log, from, adr, bit / 8, value);
      var out := if on then SetBit(value, bit % 8) else ClearBit(value, bit % 8);
      OneBitDiffers(value, bit % 8, on);
      if out == value {
        return Ok(()), value;
      }
      r := PmcWrite(adr, bit / 8, [out], 0);
      shown := value;
      StillSeen(read, log, from, adr, 0, bit / 8, value);
      AsksFromReads(read, log, from, adr, bit / 8, out);
      BeforeWrites(read, log, from, adr, bit / 8, value);
      if r.Fail? {
        RefusedSooner(log, |read|, from, adr, 0, bit / 8, [out]);
      }
      if r.Ok? {
        assert Confirmed(log, |read|, adr, 0, bit / 8 + 0, [out][0]);
        ConfirmedSooner(log, |read|, from, adr, 0, bit / 8, out);
        ConfirmedWrites(log, from, adr, bit / 8, out);
      }
    }

    static method SameValues(a: seq<int>, b: seq<int>) returns (same: bool)
      requires |a| == |b|
      ensures same <==> a == b
      ensures !same ==> exists i :: 0 <= i < |a| && a[i] != b[i]
    {
      for i := 0 to |a|
        invariant a[..i] == b[..i]
      {
        if a[i] != b[i] {
          return false;
        }
      }
      return true;
    }

    /** The payload, value by value and byte by byte from the high end. */
    static method WriteBytes(values: seq<int>, point: nat) returns (data: seq<byte>)
      ensures data == Image(values, point)
    {
      data := [];
      for i := 0 to |values|
        invariant data == Image(values[..i], point)
      {
        var v := values[i] % 0x1_0000_0000_0000_0000;
        ghost var start := data;
        for j := 0 to point
          invariant data == start + PutBe(v, point)[..j]
        {
          PutBeByte(v, point, j);
          data := data + [v / Pow256(point - 1 - j) % 0x100];
        }
        assert values[..i + 1][..i] == values[..i];
        assert PutBe(v, point)[..point] == PutBe(v, point);
      }
      assert values[..|values|] == values;
    }

    /** The bytes of one point, shifted together. */
    static method PointValue(bytes: seq<byte>, point: nat, i: nat) returns (v: nat)
      requires point * i + point <= |bytes|
      ensures v == PointAt(bytes, point, i)
    {
      v := 0;
      ghost var mine := bytes[point * i..point * i + point];
      for j := 0 to point
        invariant v == BeNat(mine[..j])
      {
        assert mine[..j + 1][..j] == mine[..j];
        assert mine[j] == bytes[point * i + j];
        v := v * 0x100 + bytes[point * i + j];
      }
      assert mine[..point] == mine;
    }
  }

  lemma {:induction false} PutBeByte(v: nat, n: nat, j: nat)
    requires j < n
    ensures PutBe(v, n)[j] == v / Pow256(n - 1 - j) % 0x100
    decreases n
  {
    if j < n - 1 {
      PutBeByte(v / 0x100, n - 1, j);
      var p := Pow256(n - 2 - j);
      assert Pow256(n - 1 - j) == 0x100 * p;
      DivTwice(v, p);
    } else {
      assert Pow256(0) == 1;
    }
  }

  lemma DivTwice(v: nat, p: nat)
    requires p > 0
    ensures v / 0x100 / p == v / (0x100 * p)
  {
    var q := v / 0x100 / p;
    var r := v / 0x100 % p;
    assert v / 0x100 == q * p + r;
    var low := 0x100 * r + v % 0x100;
    assert v == q * (0x100 * p) + low by {
      assert 0x100 * (q * p) == q * (0x100 * p);
    }
    assert low < 0x100 * p;
    ModUnique(v, 0x100 * p, q, low);
    var d := v / (0x100 * p) - q;
    assert d * (0x100 * p) == 0;
    if d != 0 {
      MulAtLeast(if d > 0 then d else -d, 0x100 * p);
    }
  }

  // ------------------------------------------------------------ main results

  /** What a machine with a fixed memory shows for a point is what it holds there. */
  lemma ShownIsHeld(pmc: Pmc, memory: (int, int, int) -> nat, whole: bool, from: nat, adr: int, width: int, p: int,
                    v: int)
    requires pmc.Valid() && Reports(pmc.machine, memory, whole) && Seen(pmc.log, from, adr, width, p, v)
    ensures v == memory(adr, width, p)
  {
    hide Says;
    var k :| from <= k < |pmc.log| && Showed(pmc.log[k], adr, width, p, v);
    var e := pmc.log[k];
    assert e.answer == pmc.machine(pmc.log[..k], e.req);
    assert e.req == ReadReq(adr, e.req.start, e.req.end, width);
    SaysOnce(e.answer.value, width, p - e.req.start, v);
    assert Tells(e.answer.value, memory, adr, width, e.req.start, p - e.req.start);
  }

  lemma SaysOnce(bytes: seq<byte>, width: int, i: nat, v: int)
    requires Says(bytes, width, i, v)
    ensures SizeOf(width, i + 1) <= |bytes|
    ensures forall w: int :: Says(bytes, width, i, w) ==> w == v
  {
  }

  /**
   * Against a fixed memory, a segment read that the machine answers whole, or
   * point by point, gives that memory; only a long segment from a machine that
   * answers point by point is refused.
   */
  method ReadFromMemory(pmc: Pmc, ghost memory: (int, int, int) -> nat, ghost whole: bool,
                        adr: int, start: int, count: int, width: int) returns (r: Result<seq<int>>)
    requires pmc.Valid() && Reports(pmc.machine, memory, whole)
    requires adr >= 0 && start >= 0 && 0 < count <= 512 && 0 <= width <= 2
    modifies pmc`log
    ensures r.Ok? <==> whole || count <= 64
    ensures r.Ok? ==> |r.value| == count && forall i :: 0 <= i < count ==> r.value[i] == memory(adr, width, start + i)
  {
    hide Says, Seen;
    ghost var from := |pmc.log|;
    r := pmc.PmcRead(adr, start, count, width);
    if r.Ok? {
      forall i | 0 <= i < count
        ensures r.value[i] == memory(adr, width, start + i)
      {
        ShownIsHeld(pmc, memory, whole, from, adr, width, start + i, r.value[i]);
      }
      if count > 64 {
        AnswerSize(pmc, memory, whole, from);
        assert Point(width) * count > Point(width);
      }
    } else {
      NoExcuse(pmc, memory, whole, from, count, width);
    }
  }

  lemma AnswerSize(pmc: Pmc, memory: (int, int, int) -> nat, whole: bool, k: nat)
    requires pmc.Valid() && Reports(pmc.machine, memory, whole)
    requires k < |pmc.log| && pmc.log[k].req.ReadReq? && pmc.log[k].req.start < pmc.log[k].req.end
    ensures var e := pmc.log[k];
            e.answer.Ok? &&
            |e.answer.value| == SizeOf(e.req.width, if whole then e.req.end - e.req.start else 1)
  {
    hide Says;
    var e := pmc.log[k];
    assert e.answer == pmc.machine(pmc.log[..k], e.req);
    assert e.req == ReadReq(e.req.adr, e.req.start, e.req.end, e.req.width);
  }

  /** A value that was confirmed fits the width of its points, so a wider one never succeeds. */
  lemma ConfirmedFits(log: seq<Event>, from: nat, adr: int, width: int, p: int, v: int)
    requires Confirmed(log, from, adr, width, p, v)
    ensures v == Cut(width, v)
  {
    hide Says;
    var w, k :| from <= w < k < |log| && Touches(log[w], adr, p) && Showed(log[k], adr, width, p, v) &&
      forall j :: k < j < |log| ==> !Touches(log[j], adr, p);
    ShownFits(log[k], adr, width, p, v);
  }

  lemma ShownFits(e: Event, adr: int, width: int, p: int, v: int)
    requires Showed(e, adr, width, p, v)
    ensures v == Cut(width, v)
  {
    SaysFits(e.answer.value, width, p - e.req.start, v);
  }

  lemma SaysFits(bytes: seq<byte>, width: int, i: nat, v: int)
    requires Says(bytes, width, i, v)
    ensures v == Cut(width, v)
  {
  }

  /** A point taken out of the bytes and shifted together is what they say there. */
  lemma PointSays(bytes: seq<byte>, width: int, i: nat)
    requires Point(width) * i + Point(width) <= |bytes|
    ensures Says(bytes, width, i, PointAt(bytes, Point(width), i))
  {
    hide BeNat;
    var s := bytes[Point(width) * i..Point(width) * i + Point(width)];
    SizeIs(width, i);
    assert forall k :: 0 <= k < |s| ==> s[k] == bytes[Point(width) * i + k];
    if |s| == 1 {
      OneByte(s);
    } else if |s| == 2 {
      TwoBytes(s);
    } else {
      FourBytes(s);
    }
  }

  lemma SizeIs(width: int, n: int)
    ensures SizeOf(width, n) == Point(width) * n
  {
  }

  lemma OneByte(s: seq<byte>)
    requires |s| == 1
    ensures BeNat(s) == s[0]
  {
    assert s[..0] == [];
  }

  lemma TwoBytes(s: seq<byte>)
    requires |s| == 2
    ensures BeNat(s) == s[0] as int * 0x100 + s[1] as int
  {
    OneByte(s[..1]);
  }

  lemma FourBytes(s: seq<byte>)
    requires |s| == 4
    ensures BeNat(s) == s[0] as int * 0x100_0000 + s[1] as int * 0x1_0000 + s[2] as int * 0x100 + s[3] as int
  {
    TwoBytes(s[..2]);
    assert s[..3][..2] == s[..2];
    assert BeNat(s[..3]) == BeNat(s[..2]) * 0x100 + s[2] as int;
  }

  /** The payload the driver writes carries the values. */
  lemma ImageCarries(values: seq<int>, width: int)
    ensures Carries(Image(values, Point(width)), width, values)
  {
    hide Image, Says, PointAt, Pow256;
    var data := Image(values, Point(width));
    SizeIs(width, |values|);
    forall i | 0 <= i < |values|
      ensures Says(data, width, i, Cut(width, values[i]))
    {
      ImageReads(values, width, i);
      PointSays(data, width, i);
      CutIs(width, values[i]);
    }
  }

  lemma CutIs(width: int, v: int)
    ensures v % Pow256(Point(width)) == Cut(width, v)
  {
    assert Pow256(1) == 0x100 && Pow256(2) == 0x1_0000;
    assert Pow256(4) == 0x1_0000_0000 by {
      assert Pow256(4) == 0x100 * Pow256(3) && Pow256(3) == 0x100 * Pow256(2);
    }
  }

  /** Read as big endian points, a write payload is the values cut to the width. */
  lemma {:induction false} ImageReads(values: seq<int>, width: int, i: nat)
    requires i < |values|
    ensures var point := Point(width);
            point * i + point <= |Image(values, point)| &&
            PointAt(Image(values, point), point, i) == values[i] % Pow256(point)
  {
    hide PutBe, BeNat, Image, PointAt;
    var point, last := Point(width), |values| - 1;
    var rest, one := Image(values[..last], point), PutBe(values[last] % 0x1_0000_0000_0000_0000, point);
    ImageLast(values, point);
    PointFits(point, i, |values|, point * |values|);
    if i < last {
      ImageReads(values[..last], width, i);
      PointOfFront(rest, one, point, i);
    } else {
      PointOfBack(rest, one, point, i);
      PutBeReads(values[last] % 0x1_0000_0000_0000_0000, point);
      CutTwice(values[last], point);
    }
  }

  lemma ImageLast(values: seq<int>, point: nat)
    requires values != []
    ensures var last := |values| - 1;
            Image(values, point) == Image(values[..last], point) + PutBe(values[last] % 0x1_0000_0000_0000_0000, point)
  {
    hide PutBe;
  }

  lemma PointOfFront(rest: seq<byte>, one: seq<byte>, point: nat, i: nat)
    requires point * i + point <= |rest|
    ensures PointAt(rest + one, point, i) == PointAt(rest, point, i)
  {
    hide BeNat;
    assert (rest + one)[point * i..point * i + point] == rest[point * i..point * i + point];
  }

  lemma PointOfBack(rest: seq<byte>, one: seq<byte>, point: nat, i: nat)
    requires |rest| == point * i && |one| == point
    ensures PointAt(rest + one, point, i) == BeNat(one)
  {
    hide BeNat;
    assert (rest + one)[point * i..point * i + point] == one;
  }

  lemma CutTwice(v: int, point: nat)
    requires point == 1 || point == 2 || point == 4
    ensures v % 0x1_0000_0000_0000_0000 % Pow256(point) == v % Pow256(point)
  {
    assert Pow256(1) == 0x100 && Pow256(2) == 0x1_0000;
    assert Pow256(4) == 0x1_0000_0000 by {
      assert Pow256(4) == 0x100 * Pow256(3) && Pow256(3) == 0x100 * Pow256(2);
    }
    hide Pow256;
    CutAgain(v, 0x100);
    CutAgain(v, 0x1_0000);
    CutAgain(v, 0x1_0000_0000);
  }

  lemma CutAgain(v: int, m: nat)
    requires m == 0x100 || m == 0x1_0000 || m == 0x1_0000_0000
    ensures v % 0x1_0000_0000_0000_0000 % m == v % m
  {
    var big := 0x1_0000_0000_0000_0000;
    var q, r := v / big, v % big;
    var a, s := r / m, r % m;
    var c := if m == 0x100 then 0x100_0000_0000_0000 else if m == 0x1_0000 then 0x1_0000_0000_0000 else 0x1_0000_0000;
    assert v == q * big + r && r == a * m + s;
    assert v == (q * c + a) * m + s;
    ModUnique(v, m, q * c + a, s);
  }

  /** Switching a bit changes that bit only, and nothing when it is already as wanted. */
  lemma OneBitDiffers(b: nat, k: nat, on: bool)
    requires b < 0x100 && k < 8
    ensures OneBit(b, k, on) < 0x100
    ensures forall j :: 0 <= j < 8 && j != k ==> BitOf(OneBit(b, k, on), j) == BitOf(b, j)
    ensures BitIs(OneBit(b, k, on), k, on)
    ensures OneBit(b, k, on) == b <==> BitIs(b, k, on)
  {
    hide BitOf, SetBit, ClearBit, Pow2;
    var c := OneBit(b, k, on);
    PowersOfTwo();
    SetBitFits(b, k, 8);
    forall j | 0 <= j < 8
      ensures BitOf(c, j) == if j == k then (if on then 1 else 0) else BitOf(b, j)
    {
      SetBitSets(b, k, j);
      ClearBitClears(b, k, j);
    }
    if BitIs(b, k, on) {
      SameBits(b, c, 8);
    }
  }

  // -------------------------------------------- how facts about a log carry over

  /** The first event since `from` is the write of the whole run. */
  lemma WholeRunAsked(log: seq<Event>, from: nat, adr: int, width: int, start: int, values: seq<int>)
    requires |log| == from + 1 && values != [] && log[from].req.WriteReq?
    requires log[from].req == WriteReq(adr, start, start + 1, width, log[from].req.data)
    requires Carries(log[from].req.data, width, values)
    ensures AsksOnly(log, from, adr, width, start, values)
  {
    hide Carries;
    assert values[0..|values|] == values;
    assert AsksRun(log[from].req, adr, width, start, values, 0, |values|);
  }

  lemma AskedTogether(before: seq<Event>, after: seq<Event>, from: nat, adr: int, width: int, start: int,
                      values: seq<int>)
    requires before <= after && from <= |before|
    requires AsksOnly(before, from, adr, width, start, values) && AsksOnly(after, |before|, adr, width, start, values)
    ensures AsksOnly(after, from, adr, width, start, values)
  {
    hide AsksRun;
    assert forall k :: 0 <= k < |before| ==> after[k] == before[k];
  }

  lemma AskedBefore(before: seq<Event>, after: seq<Event>, from: nat, adr: int, width: int, start: int,
                    values: seq<int>)
    requires before <= after && from <= |before|
    requires AsksOnly(before, from, adr, width, start, values) && OnlyReads(after, |before|)
    ensures AsksOnly(after, from, adr, width, start, values)
  {
    hide AsksRun;
    assert forall k :: 0 <= k < |before| ==> after[k] == before[k];
  }

  lemma FailureRefuses(log: seq<Event>, from: nat, adr: int, width: int, start: int, values: seq<int>)
    requires from < |log| && log[from].answer.Fail?
    ensures Refused(log, from, adr, width, start, values)
  {
  }

  lemma ExcuseRefuses(log: seq<Event>, from: nat, adr: int, width: int, start: int, values: seq<int>)
    requires Excused(log, from, |values|, width)
    ensures Refused(log, from, adr, width, start, values)
  {
  }

  lemma DifferenceRefuses(log: seq<Event>, from: nat, adr: int, width: int, start: int, values: seq<int>, i: nat)
    requires i < |values| && Differed(log, from, adr, width, start + i, values[i])
    ensures Refused(log, from, adr, width, start, values)
  {
    hide Differed;
  }

  lemma WriteTouches(e: Event, adr: int, width: int, start: int, values: seq<int>, i: nat)
    requires i < |values| && e.req.WriteReq? && |e.req.data| == SizeOf(width, |values|)
    requires e.req == WriteReq(adr, start, start + 1, width, e.req.data)
    ensures Touches(e, adr, start + i)
  {
  }

  lemma ReadBack(log: seq<Event>, w: nat, asked: nat, adr: int, width: int, p: int, v: int)
    requires w < asked <= |log| && Touches(log[w], adr, p) && OnlyReads(log, w + 1)
    requires Seen(log, asked, adr, width, p, v)
    ensures Confirmed(log, w, adr, width, p, v)
  {
    hide Says;
    var k :| asked <= k < |log| && Showed(log[k], adr, width, p, v);
    assert w <= w < k < |log| && Touches(log[w], adr, p);
  }

  lemma ExcusedSooner(log: seq<Event>, later: nat, from: nat, count: int, width: int)
    requires from <= later && Excused(log, later, count, width)
    ensures Excused(log, from, count, width)
  {
  }

  lemma ConfirmedSooner(log: seq<Event>, later: nat, from: nat, adr: int, width: int, p: int, v: int)
    requires from <= later && Confirmed(log, later, adr, width, p, v)
    ensures Confirmed(log, from, adr, width, p, v)
  {
    hide Says;
    var w, k :| later <= w < k < |log| && Touches(log[w], adr, p) && Showed(log[k], adr, width, p, v) &&
      forall j :: k < j < |log| ==> !Touches(log[j], adr, p);
    assert from <= w < k < |log|;
  }

  lemma DifferedSooner(log: seq<Event>, later: nat, from: nat, adr: int, width: int, p: int, wanted: int)
    requires from <= later && Differed(log, later, adr, width, p, wanted)
    ensures Differed(log, from, adr, width, p, wanted)
  {
    hide Seen;
    var v :| v != wanted && Seen(log, later, adr, width, p, v);
    SeenSooner(log, later, from, adr, width, p, v);
  }

  lemma RefusedSooner(log: seq<Event>, later: nat, from: nat, adr: int, width: int, start: int, values: seq<int>)
    requires from <= later && Refused(log, later, adr, width, start, values)
    ensures Refused(log, from, adr, width, start, values)
  {
    hide Seen;
    if i :| 0 <= i < |values| && Differed(log, later, adr, width, start + i, values[i]) {
      DifferedSooner(log, later, from, adr, width, start + i, values[i]);
    }
  }

  lemma SingleRefused(log: seq<Event>, later: nat, from: nat, adr: int, width: int, start: int, values: seq<int>,
                      i: nat)
    requires from <= later && i < |values| && Refused(log, later, adr, width, start + i, [values[i]])
    ensures Refused(log, from, adr, width, start, values)
  {
    hide Seen;
    var single := [values[i]];
    if j :| 0 <= j < |single| && Differed(log, later, adr, width, start + i + j, single[j]) {
      DifferedSooner(log, later, from, adr, width, start + i, values[i]);
    }
  }

  lemma NothingAsked(log: seq<Event>, adr: int, width: int, start: int, values: seq<int>)
    ensures AsksOnly(log, |log|, adr, width, start, values)
  {
  }

  lemma SingleAsks(before: seq<Event>, after: seq<Event>, from: nat, adr: int, width: int, start: int,
                   values: seq<int>, i: nat)
    requires before <= after && i < |values| && from <= |before|
    requires AsksOnly(before, from, adr, width, start, values)
    requires AsksOnly(after, |before|, adr, width, start + i, [values[i]])
    ensures AsksOnly(after, from, adr, width, start, values)
  {
    hide AsksRun;
    forall k | from <= k < |after| && after[k].req.WriteReq?
      ensures exists a: nat, b: nat :: AsksRun(after[k].req, adr, width, start, values, a, b)
    {
      if k < |before| {
        assert after[k] == before[k];
      } else {
        var a: nat, b: nat :| AsksRun(after[k].req, adr, width, start + i, [values[i]], a, b);
        RunOfOne(after[k].req, adr, width, start, values, i, a, b);
      }
    }
  }

  lemma RunOfOne(req: Req, adr: int, width: int, start: int, values: seq<int>, i: nat, a: nat, b: nat)
    requires i < |values| && AsksRun(req, adr, width, start + i, [values[i]], a, b)
    ensures AsksRun(req, adr, width, start, values, i, i + 1)
  {
    assert [values[i]][0..1] == values[i..i + 1];
  }

  lemma StillConfirmed(before: seq<Event>, after: seq<Event>, from: nat, adr: int, width: int, start: int,
                       values: seq<int>,
                       i: nat, k: nat)
    requires before <= after && k < i < |values|
    requires Confirmed(before, from, adr, width, start + k, values[k])
    requires AsksOnly(after, |before|, adr, width, start + i, [values[i]])
    ensures Confirmed(after, from, adr, width, start + k, values[k])
  {
    hide Says, AsksRun;
    var p := start + k;
    var w, c :| from <= w < c < |before| && Touches(before[w], adr, p) && Showed(before[c], adr, width, p, values[k]) &&
      forall j :: c < j < |before| ==> !Touches(before[j], adr, p);
    assert after[w] == before[w] && after[c] == before[c];
    forall j | c < j < |after|
      ensures !Touches(after[j], adr, p)
    {
      if j < |before| {
        assert after[j] == before[j];
      } else if after[j].req.WriteReq? {
        var a: nat, b: nat :| AsksRun(after[j].req, adr, width, start + i, [values[i]], a, b);
        RunOfOneTouches(after[j], adr, width, start + i, values[i], a, b);
      }
    }
  }

  lemma RunOfOneTouches(e: Event, adr: int, width: int, p: int, v: int, a: nat, b: nat)
    requires AsksRun(e.req, adr, width, p, [v], a, b)
    ensures forall q :: Touches(e, adr, q) ==> q == p
  {
    hide Says;
  }

  lemma ReadRefused(log: seq<Event>, from: nat, adr: int, p: int, values: seq<int>)
    requires |values| == 1 && Excused(log, from, 1, 0)
    ensures Refused(log, from, adr, 0, p, values)
  {
  }

  lemma BeforeWrites(read: seq<Event>, log: seq<Event>, from: nat, adr: int, p: int, v: int)
    requires read <= log && OnlyReads(read, from) && Seen(read, from, adr, 0, p, v)
    ensures ShownBefore(log, from, adr, p, v)
  {
    hide Says;
    assert log[..|read|] == read;
  }

  lemma ByteShown(log: seq<Event>, from: nat, adr: int, p: int, v: int)
    requires Seen(log, from, adr, 0, p, v)
    ensures 0 <= v < 0x100
  {
    hide Says;
    var k :| from <= k < |log| && Showed(log[k], adr, 0, p, v);
    ShownFits(log[k], adr, 0, p, v);
  }

  lemma AsksFromReads(read: seq<Event>, log: seq<Event>, from: nat, adr: int, p: int, v: int)
    requires read <= log && from <= |read| && OnlyReads(read, from) && AsksOnly(log, |read|, adr, 0, p, [v])
    ensures AsksOnly(log, from, adr, 0, p, [v])
  {
    hide AsksRun;
    assert forall k :: from <= k < |read| ==> log[k] == read[k];
  }

  lemma ConfirmedWrites(log: seq<Event>, from: nat, adr: int, p: int, v: int)
    requires Confirmed(log, from, adr, 0, p, v)
    ensures !OnlyReads(log, from)
  {
    hide Says;
    var w, k :| from <= w < k < |log| && Touches(log[w], adr, p) && Showed(log[k], adr, 0, p, v) &&
      forall j :: k < j < |log| ==> !Touches(log[j], adr, p);
    assert log[w].req.WriteReq?;
  }

  lemma NoExcuse(pmc: Pmc, memory: (int, int, int) -> nat, whole: bool, from: nat, count: int, width: int)
    requires pmc.Valid() && Reports(pmc.machine, memory, whole) && Excused(pmc.log, from, count, width)
    ensures !whole && count > 64
  {
    hide Says;
    var k :| from <= k < |pmc.log| && Excuses(pmc.log[k], count, width);
    AnswerSize(pmc, memory, whole, k);
  }

  lemma PointFits(point: nat, i: nat, count: nat, size: nat)
    requires i < count && count * point <= size
    ensures point * i + point <= size
  {
    assert point * i + point == point * (i + 1);
    assert point * (i + 1) <= point * count;
  }

  lemma AtLeastTwo(point: nat, count: int, size: nat)
    requires point > 0 && count > 0 && size < count * point && size / point > 0
    ensures count > 1
  {
  }

  lemma ShownAt(log: seq<Event>, k: nat, adr: int, width: int, start: int, count: int, i: nat, v: int)
    requires k < |log| && i < count && log[k].req == ReadReq(adr, start, start + count, width) && log[k].answer.Ok?
    requires Point(width) * i + Point(width) <= |log[k].answer.value|
    requires v == PointAt(log[k].answer.value, Point(width), i)
    ensures Seen(log, k, adr, width, start + i, v)
  {
    PointSays(log[k].answer.value, width, i);
    hide PointAt, Says;
    assert Showed(log[k], adr, width, start + i, v);
  }

  lemma SeenSooner(log: seq<Event>, from: nat, sooner: nat, adr: int, width: int, p: int, v: int)
    requires sooner <= from && Seen(log, from, adr, width, p, v)
    ensures Seen(log, sooner, adr, width, p, v)
  {
  }

  lemma StillSeen(before: seq<Event>, after: seq<Event>, from: nat, adr: int, width: int, p: int, v: int)
    requires before <= after && Seen(before, from, adr, width, p, v)
    ensures Seen(after, from, adr, width, p, v)
  {
    var k :| from <= k < |before| && Showed(before[k], adr, width, p, v);
    assert after[k] == before[k];
  }
}
