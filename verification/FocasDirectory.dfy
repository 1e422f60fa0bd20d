/**
 * The program directory, asked for in pages of eight from a start number upwards,
 * from machines that do page, that ignore the start number, or that fail half way.
 */
module FocasDirectory {
  import opened Common

  const RECORD: nat := 72
  const NUMBER_AT: nat := 2
  const COMMENT_AT: nat := 8
  const PAGE: nat := 8
  const PAGES: nat := 64

  datatype Entry = Entry(number: nat, comment: seq<byte>)

  /** One question and its answer. */
  datatype Ask = Ask(start: int, answer: Result<seq<byte>>)

  // ----------------------------------------------------------------- records

  function TrimSpaces(s: seq<byte>): (t: seq<byte>)
    ensures t <= s && (t != [] ==> t[|t| - 1] != ' ' as byte)
    ensures forall i :: |t| <= i < |s| ==> s[i] == ' ' as byte
  {
    if s == [] || s[|s| - 1] != ' ' as byte then s else TrimSpaces(s[..|s| - 1])
  }

  /** The i-th record of an answer. */
  function RecordAt(bytes: seq<byte>, i: nat): Entry
    requires RECORD * i + RECORD <= |bytes|
  {
    var r := bytes[RECORD * i..RECORD * i + RECORD];
    Entry(Be16(r[NUMBER_AT], r[NUMBER_AT + 1]), TrimSpaces(CString(r[COMMENT_AT..])))
  }

  /** A directory record as the machine lays it out. */
  function RecordBytes(e: Entry, head: seq<byte>, kind: seq<byte>): (s: seq<byte>)
    requires |head| == 2 && |kind| == 4 && |e.comment| <= RECORD - COMMENT_AT
    ensures |s| == RECORD
  {
    head + PutBe16(e.number) + kind + e.comment + seq(RECORD - COMMENT_AT - |e.comment|, _ => 0)
  }

  /** A record with a comment free of NULs and trailing blanks reads back as it was written, wherever it stands. */
  lemma RecordReads(e: Entry, head: seq<byte>, kind: seq<byte>, bytes: seq<byte>, i: nat)
    requires |head| == 2 && |kind| == 4 && |e.comment| <= RECORD - COMMENT_AT && e.number < 0x1_0000
    requires forall k :: 0 <= k < |e.comment| ==> e.comment[k] != 0
    requires e.comment != [] ==> e.comment[|e.comment| - 1] != ' ' as byte
    requires RECORD * i + RECORD <= |bytes| && bytes[RECORD * i..RECORD * i + RECORD] == RecordBytes(e, head, kind)
    ensures RecordAt(bytes, i) == e
  {
    hide PutBe16, CString, TrimSpaces;
    var r := RecordBytes(e, head, kind);
    assert r[2] == PutBe16(e.number)[0] && r[3] == PutBe16(e.number)[1];
    var field := r[COMMENT_AT..];
    assert field[..|e.comment|] == e.comment;
    CStringIs(field, e.comment);
    TrimDone(e.comment);
  }

  /** Reads the comment of a record byte by byte and cuts its blanks. */
  method Comment(bytes: seq<byte>, at: nat) returns (comment: seq<byte>)
    requires at + RECORD <= |bytes|
    ensures comment == TrimSpaces(CString(bytes[at..at + RECORD][COMMENT_AT..]))
  {
    hide TrimSpaces, CString;
    ghost var field := bytes[at..at + RECORD][COMMENT_AT..];
    comment := [];
    var j := COMMENT_AT;
    while at + j < |bytes| && j < RECORD
      invariant COMMENT_AT <= j <= RECORD && comment == field[..j - COMMENT_AT]
      invariant forall k :: 0 <= k < |comment| ==> comment[k] != 0
    {
      if bytes[at + j] == 0 {
        break;
      }
      comment := comment + [bytes[at + j]];
      j := j + 1;
    }
    CStringIs(field, comment);
    comment := Trim(comment);
  }

  /** The part of it that cuts the blanks. */
  method Trim(text: seq<byte>) returns (comment: seq<byte>)
    ensures comment == TrimSpaces(text)
  {
    hide TrimSpaces;
    var used := |text|;
    assert text[..used] == text;
    while used > 0 && text[used - 1] == ' ' as byte
      invariant 0 <= used <= |text| && TrimSpaces(text[..used]) == TrimSpaces(text)
    {
      TrimStep(text[..used]);
      assert text[..used][..used - 1] == text[..used - 1];
      used := used - 1;
    }
    TrimDone(text[..used]);
    return text[..used];
  }

  lemma TrimStep(s: seq<byte>)
    requires s != [] && s[|s| - 1] == ' ' as byte
    ensures TrimSpaces(s) == TrimSpaces(s[..|s| - 1])
  {
  }

  lemma TrimDone(s: seq<byte>)
    requires s == [] || s[|s| - 1] != ' ' as byte
    ensures TrimSpaces(s) == s
  {
  }

  // ------------------------------------------------------------------- pages

  predicate EmptySlot(e: Entry) {
    e.number == 0 && e.comment == []
  }

  /** The records among the first n that are no empty slots and lie above the floor. */
  function Kept(bytes: seq<byte>, n: nat, floor: int): seq<Entry>
    requires RECORD * n <= |bytes|
  {
    if n == 0 then [] else
      var e := RecordAt(bytes, n - 1);
      Kept(bytes, n - 1, floor) + if EmptySlot(e) || e.number <= floor then [] else [e]
  }

  function Floor(start: int): int {
    if start > 0 then start - 1 else 0
  }

  /** What a page adds to the directory. */
  function Page(ask: Ask): seq<Entry> {
    if ask.answer.Fail? then [] else
      WholeRecords(|ask.answer.value|);
      Kept(ask.answer.value, |ask.answer.value| / RECORD, Floor(ask.start))
  }

  lemma WholeRecords(size: nat)
    ensures RECORD * (size / RECORD) <= size
  {
  }

  function Highest(entries: seq<Entry>): (h: nat)
    ensures forall i :: 0 <= i < |entries| ==> entries[i].number <= h
    ensures entries != [] ==> exists i :: 0 <= i < |entries| && entries[i].number == h
  {
    if entries == [] then 0 else
      var n := |entries| - 1;
      var h := Highest(entries[..n]);
      assert forall i :: 0 <= i < n ==> entries[..n][i] == entries[i];
      if entries[n].number > h then entries[n].number else h
  }

  function Gathered(asks: seq<Ask>): seq<Entry> {
    if asks == [] then [] else Gathered(asks[..|asks| - 1]) + Page(asks[|asks| - 1])
  }

  /** A walk through the pages: each page but the last brought something, and the next starts behind it. */
  ghost predicate Walk(asks: seq<Ask>) {
    && 0 < |asks| <= PAGES && asks[0].start == 0
    && forall k :: 0 <= k < |asks| ==> k == 0 || Follows(asks[k - 1], asks[k])
  }

  predicate Follows(one: Ask, next: Ask) {
    Page(one) != [] && next.start == Highest(Page(one)) + 1
  }

  /** After these pages the next one is to start here. */
  ghost predicate Ready(asks: seq<Ask>, start: int) {
    if asks == [] then start == 0 else
      var one := asks[|asks| - 1];
      Walk(asks) && asks[0].answer.Ok? && Page(one) != [] && start == Highest(Page(one)) + 1
  }

  ghost predicate Answered(machine: (seq<Ask>, int) -> Result<seq<byte>>, before: seq<Ask>, asks: seq<Ask>) {
    forall k :: 0 <= k < |asks| ==> asks[k].answer == machine(before + asks[..k], asks[k].start)
  }

  ghost predicate Finished(asks: seq<Ask>)
    requires asks != []
  {
    |asks| == PAGES || Page(asks[|asks| - 1]) == []
  }

  class Directory {
    /** The machine: an answer to a start number, after whatever was asked before. */
    const machine: (seq<Ask>, int) -> Result<seq<byte>>
    var log: seq<Ask>

    constructor (machine: (seq<Ask>, int) -> Result<seq<byte>>)
      ensures log == [] && this.machine == machine
    {
      this.machine := machine;
      log := [];
    }

    /** Asks for one page and appends what it brings. */
    method ReadPage(start: int, floor: int, got: seq<Entry>) returns (r: Result<(seq<Entry>, nat, nat)>)
      requires floor == Floor(start)
      modifies this`log
      ensures |log| == |old(log)| + 1 && old(log) <= log && log[|old(log)|].start == start
      ensures log[|old(log)|].answer == machine(old(log), start)
      ensures r.Fail? <==> log[|old(log)|].answer.Fail?
      ensures r.Fail? ==> log[|old(log)|].answer == Fail(r.error)
      ensures r.Ok? ==>
                r.value == (got + Page(log[|old(log)|]), |Page(log[|old(log)|])|, Highest(Page(log[|old(log)|])))
    {
      hide Kept, Highest;
      var answer := machine(log, start);
      log := log + [Ask(start, answer)];
      if answer.Fail? {
        return Fail(answer.error);
      }
      WholeRecords(|answer.value|);
      var entries, records, last := TakeRecords(answer.value, |answer.value| / RECORD, floor, got);
      return Ok((entries, records, last));
    }

    /** Goes through the records of an answer. */
    static method TakeRecords(bytes: seq<byte>, count: nat, floor: int, got: seq<Entry>)
      returns (entries: seq<Entry>, records: nat, last: nat)
      requires RECORD * count <= |bytes|
      ensures entries == got + Kept(bytes, count, floor)
      ensures records == |Kept(bytes, count, floor)| && last == Highest(Kept(bytes, count, floor))
    {
      hide Kept, Highest, RecordAt;
      entries, records, last := got, 0, 0;
      KeptNone(bytes, floor);
      for i := 0 to count
        invariant RECORD * i <= |bytes|
        invariant entries == got + Kept(bytes, i, floor) && records == |Kept(bytes, i, floor)|
        invariant last == Highest(Kept(bytes, i, floor))
      {
        RecordFits(i, count, |bytes|);
        var e := ReadRecord(bytes, i);
        KeptNext(bytes, i, floor);
        if e.number == 0 && |e.comment| == 0 {
          continue;
        }
        if e.number <= floor {
          continue;
        }
        HighestNext(Kept(bytes, i, floor), e);
        entries := entries + [e];
        if e.number > last {
          last := e.number;
        }
        records := records + 1;
      }
    }

    static method ReadRecord(bytes: seq<byte>, i: nat) returns (e: Entry)
      requires RECORD * i + RECORD <= |bytes|
      ensures e == RecordAt(bytes, i)
    {
      hide TrimSpaces, CString;
      var at := i * RECORD;
      var comment := Comment(bytes, at);
      return Entry(Be16(bytes[at + NUMBER_AT], bytes[at + NUMBER_AT + 1]), comment);
    }

    /**
     * The whole directory. An error on the first page is the result; a later one
     * ends the walk with what was found.
     */
    method ProgramDirectory() returns (r: Result<seq<Entry>>, ghost asks: seq<Ask>)
      modifies this`log
      ensures log == old(log) + asks && Walk(asks) && Finished(asks) && Answered(machine, old(log), asks)
      ensures r == if asks[0].answer.Fail? then Fail(asks[0].answer.error) else Ok(Gathered(asks))
    {
      hide Page, Highest, Walk, Answered, Ready, Gathered;
      var entries: seq<Entry> := [];
      var start := 0;
      asks := [];
      Beginning(machine, log);
      var page := 0;
      while page < PAGES
        invariant 0 <= page <= PAGES && |asks| == page && log == old(log) + asks
        invariant Ready(asks, start) && Answered(machine, old(log), asks) && entries == Gathered(asks)
      {
        var floor := if start > 0 then start - 1 else 0;
        ghost var before := asks;
        var got := ReadPage(start, floor, entries);
        ghost var ask := log[|log| - 1];
        asks := before + [ask];
        PageTaken(before, start, ask);
        AnsweredNext(machine, old(log), before, ask);
        assert log == old(log) + asks;
        if got.Fail? {
          FailedPage(ask);
          if page == 0 {
            return Fail(got.error), asks;
          }
          break;
        }
        entries := got.value.0;
        if got.value.1 == 0 {
          break;
        }
        var last := got.value.2;
        PageIsAbove(ask);
        if last + 1 <= start {
          break;
        }
        start := last + 1;
        page := page + 1;
      }
      if page == PAGES {
        ReadyMeans(asks, start);
      }
      return Ok(entries), asks;
    }
  }

  lemma Beginning(machine: (seq<Ask>, int) -> Result<seq<byte>>, before: seq<Ask>)
    ensures Ready([], 0) && Gathered([]) == [] && Answered(machine, before, [])
  {
  }

  lemma GatheredNext(asks: seq<Ask>, ask: Ask)
    ensures Gathered(asks + [ask]) == Gathered(asks) + Page(ask)
  {
    hide Page;
    assert (asks + [ask])[..|asks|] == asks;
  }

  lemma WalkNext(asks: seq<Ask>, ask: Ask)
    requires Walk(asks) && |asks| < PAGES && Follows(asks[|asks| - 1], ask)
    ensures Walk(asks + [ask])
  {
    hide Follows;
    var more := asks + [ask];
    forall k | 0 <= k < |more|
      ensures k == 0 || Follows(more[k - 1], more[k])
    {
      if 0 < k < |asks| {
        assert asks[k] == more[k] && Follows(asks[k - 1], asks[k]);
      }
    }
  }

  lemma ReadyMeans(asks: seq<Ask>, start: int)
    requires Ready(asks, start)
    ensures asks != [] ==> Walk(asks) && asks[0].answer.Ok?
  {
  }

  lemma PageTaken(asks: seq<Ask>, start: int, ask: Ask)
    requires Ready(asks, start) && ask.start == start && |asks| < PAGES
    ensures Walk(asks + [ask]) && Gathered(asks + [ask]) == Gathered(asks) + Page(ask)
    ensures Page(ask) == [] ==> Gathered(asks + [ask]) == Gathered(asks)
    ensures asks != [] ==> asks[0].answer.Ok?
    ensures Page(ask) != [] && ask.answer.Ok? ==> Ready(asks + [ask], Highest(Page(ask)) + 1)
  {
    hide Page, Highest, Gathered;
    GatheredNext(asks, ask);
    if asks == [] {
      assert asks + [ask] == [ask];
    } else {
      WalkNext(asks, ask);
    }
  }

  lemma AnsweredNext(machine: (seq<Ask>, int) -> Result<seq<byte>>, before: seq<Ask>, asks: seq<Ask>, ask: Ask)
    requires Answered(machine, before, asks) && ask.answer == machine(before + asks, ask.start)
    ensures Answered(machine, before, asks + [ask])
  {
    var more := asks + [ask];
    forall k | 0 <= k < |more|
      ensures more[k].answer == machine(before + more[..k], more[k].start)
    {
      if k < |asks| {
        assert more[..k] == asks[..k];
      } else {
        assert more[..k] == asks;
      }
    }
  }

  lemma KeptNone(bytes: seq<byte>, floor: int)
    ensures Kept(bytes, 0, floor) == [] && Highest([]) == 0
  {
  }

  lemma RecordFits(i: nat, count: nat, size: nat)
    requires i < count && RECORD * count <= size
    ensures RECORD * (i + 1) <= size
  {
  }

  lemma KeptNext(bytes: seq<byte>, i: nat, floor: int)
    requires RECORD * (i + 1) <= |bytes|
    ensures var e := RecordAt(bytes, i);
            Kept(bytes, i + 1, floor)
                == if EmptySlot(e) || e.number <= floor then Kept(bytes, i, floor) else Kept(bytes, i, floor) + [e]
  {
  }

  lemma HighestNext(entries: seq<Entry>, e: Entry)
    ensures Highest(entries + [e]) == if e.number > Highest(entries) then e.number else Highest(entries)
  {
    assert (entries + [e])[..|entries|] == entries;
  }

  lemma FailedPage(ask: Ask)
    ensures ask.answer.Fail? ==> Page(ask) == []
  {
  }

  /** Whatever a page brings lies at or above the start number asked for, and above zero. */
  lemma PageIsAbove(ask: Ask)
    ensures forall i :: 0 <= i < |Page(ask)| ==> Page(ask)[i].number > Floor(ask.start)
    ensures Page(ask) != [] ==> Highest(Page(ask)) > Floor(ask.start)
  {
    if ask.answer.Ok? {
      WholeRecords(|ask.answer.value|);
      KeptAbove(ask.answer.value, |ask.answer.value| / RECORD, Floor(ask.start));
    }
  }

  lemma {:induction false} KeptAbove(bytes: seq<byte>, n: nat, floor: int)
    requires RECORD * n <= |bytes|
    ensures forall i :: 0 <= i < |Kept(bytes, n, floor)| ==> Kept(bytes, n, floor)[i].number > floor
  {
    hide RecordAt;
    if n > 0 {
      KeptAbove(bytes, n - 1, floor);
    }
  }

  // ------------------------------------------------------------ main results

  /** Whatever the machine answers, each page asks further on, and brings only numbers above all earlier ones. */
  lemma {:induction false} PagesAdvance(asks: seq<Ask>, i: nat, j: nat)
    requires Walk(asks) && i < j < |asks|
    ensures asks[i].start < asks[j].start
    ensures forall a, b :: 0 <= a < |Page(asks[i])| && 0 <= b < |Page(asks[j])| ==>
              Page(asks[i])[a].number < Page(asks[j])[b].number
    decreases j
  {
    hide Page, Highest;
    assert Follows(asks[j - 1], asks[j]);
    PageIsAbove(asks[j - 1]);
    PageIsAbove(asks[j]);
    HighestBounds(Page(asks[j - 1]));
    if i < j - 1 {
      PagesAdvance(asks, i, j - 1);
      Below(Page(asks[i]), Page(asks[j - 1]), Page(asks[j]));
    }
  }

  lemma HighestBounds(entries: seq<Entry>)
    ensures forall i :: 0 <= i < |entries| ==> entries[i].number <= Highest(entries)
  {
  }

  lemma Below(a: seq<Entry>, b: seq<Entry>, c: seq<Entry>)
    requires b != []
    requires forall i, k :: 0 <= i < |a| && 0 <= k < |b| ==> a[i].number < b[k].number
    requires forall i, k :: 0 <= i < |b| && 0 <= k < |c| ==> b[i].number < c[k].number
    ensures forall i, k :: 0 <= i < |a| && 0 <= k < |c| ==> a[i].number < c[k].number
  {
    forall i, k | 0 <= i < |a| && 0 <= k < |c|
      ensures a[i].number < c[k].number
    {
      assert a[i].number < b[0].number && b[0].number < c[k].number;
    }
  }

  /** The entries above a floor. */
  function Above(entries: seq<Entry>, floor: int): seq<Entry> {
    if entries == [] then [] else
      var e := entries[|entries| - 1];
      Above(entries[..|entries| - 1], floor) + if e.number <= floor then [] else [e]
  }

  /** A directory by ascending number, none of whose entries looks like an empty slot. */
  ghost predicate Ascending(dir: seq<Entry>) {
    && (forall i, j :: 0 <= i < j < |dir| ==> dir[i].number < dir[j].number)
    && forall i :: 0 <= i < |dir| ==> !EmptySlot(dir[i])
  }

  function FirstPage(entries: seq<Entry>): seq<Entry> {
    if |entries| > PAGE then entries[..PAGE] else entries
  }

  /** The answer holds the records of the first eight entries from the number asked for on, and perhaps empty slots. */
  ghost predicate Pages(dir: seq<Entry>, ask: Ask) {
    && ask.answer.Ok?
    && RECORD * (|ask.answer.value| / RECORD) <= |ask.answer.value|
    && Kept(ask.answer.value, |ask.answer.value| / RECORD, -1) == FirstPage(Above(dir, ask.start - 1))
  }

  function Upto(k: nat, n: nat): (m: nat) {
    if PAGE * k < n then PAGE * k else n
  }

  /** What a directory loses: an entry with number zero. */
  function Numbered(dir: seq<Entry>): seq<Entry> {
    Above(dir, 0)
  }

  lemma {:induction false} KeptIsAbove(bytes: seq<byte>, n: nat, floor: int)
    requires RECORD * n <= |bytes| && floor >= -1
    ensures Kept(bytes, n, floor) == Above(Kept(bytes, n, -1), floor)
  {
    KeptNone(bytes, floor);
    KeptNone(bytes, -1);
    AboveNone(floor);
    hide RecordAt, Kept, Above;
    if n > 0 {
      KeptIsAbove(bytes, n - 1, floor);
      KeptNext(bytes, n - 1, -1);
      KeptNext(bytes, n - 1, floor);
      AboveNext(Kept(bytes, n - 1, -1), RecordAt(bytes, n - 1), floor);
    }
  }

  lemma AboveNone(floor: int)
    ensures Above([], floor) == []
  {
  }

  lemma AboveNext(entries: seq<Entry>, e: Entry, floor: int)
    ensures Above(entries + [e], floor)
              == if e.number <= floor then Above(entries, floor) else Above(entries, floor) + [e]
  {
    assert (entries + [e])[..|entries|] == entries;
  }

  /** Where everything from c on lies above a floor and nothing before does, that is what lies above it. */
  lemma {:induction false} AboveIsTail(dir: seq<Entry>, c: nat, floor: int)
    requires c <= |dir|
    requires forall i :: 0 <= i < c ==> dir[i].number <= floor
    requires forall i :: c <= i < |dir| ==> dir[i].number > floor
    ensures Above(dir, floor) == dir[c..]
  {
    AboveNone(floor);
    hide Above;
    if dir != [] {
      var n := |dir| - 1;
      var rest, last := dir[..n], dir[n];
      assert dir == rest + [last];
      AboveNext(rest, last, floor);
      if c <= n {
        AboveIsTail(rest, c, floor);
        assert dir[c..] == rest[c..] + [last];
      } else {
        AboveIsTail(rest, n, floor);
      }
    }
  }

  lemma {:induction false} AboveSplits(a: seq<Entry>, b: seq<Entry>, floor: int)
    ensures Above(a + b, floor) == Above(a, floor) + Above(b, floor)
  {
    AboveNone(floor);
    hide Above;
    if b == [] {
      assert a + b == a;
    } else {
      var rest, e := b[..|b| - 1], b[|b| - 1];
      assert b == rest + [e];
      assert a + b == (a + rest) + [e];
      AboveSplits(a, rest, floor);
      AboveNext(a + rest, e, floor);
      AboveNext(rest, e, floor);
    }
  }

  /** In ascending order the highest number is the last. */
  lemma HighestIsLast(entries: seq<Entry>)
    requires Ascending(entries) && entries != []
    ensures Highest(entries) == entries[|entries| - 1].number
  {
    var h := Highest(entries);
    var i :| 0 <= i < |entries| && entries[i].number == h;
    assert entries[|entries| - 1].number <= h;
  }

  /** The first k answers are pages of the directory. */
  ghost predicate AllPage(dir: seq<Entry>, asks: seq<Ask>, k: nat)
    requires k <= |asks|
  {
    forall i :: 0 <= i < k ==> Pages(dir, asks[i])
  }

  lemma PartAscends(dir: seq<Entry>, c: nat, d: nat)
    requires Ascending(dir) && c <= d <= |dir|
    ensures Ascending(dir[c..d])
  {
  }

  lemma NumberedTail(dir: seq<Entry>)
    requires Ascending(dir)
    ensures Numbered(dir) == if dir != [] && dir[0].number == 0 then dir[1..] else dir
  {
    hide Above;
    var c := if dir != [] && dir[0].number == 0 then 1 else 0;
    AboveIsTail(dir, c, 0);
  }

  /** Where the page starts that follows the first c entries. */
  function StartAfter(dir: seq<Entry>, c: nat): int
    requires c <= |dir|
  {
    if c == 0 then 0 else dir[c - 1].number + 1
  }

  /** The page that follows the first c entries brings the next eight. */
  lemma PageAfter(dir: seq<Entry>, ask: Ask, c: nat, d: nat)
    requires Ascending(dir) && Pages(dir, ask) && c <= d <= |dir| && d == (if c + PAGE < |dir| then c + PAGE else |dir|)
    requires ask.start == StartAfter(dir, c)
    ensures Page(ask) == Numbered(dir[c..d])
  {
    hide Kept, Above, Ascending;
    BehindFirst(dir, c, ask.start);
    FirstOfRest(dir, c, d);
    PageKeeps(ask, dir[c..d]);
    if c > 0 {
      AllAbove(dir, c, d, Floor(ask.start));
    }
  }

  lemma FirstOfRest(dir: seq<Entry>, c: nat, d: nat)
    requires c <= d <= |dir| && d == (if c + PAGE < |dir| then c + PAGE else |dir|)
    ensures FirstPage(dir[c..]) == dir[c..d]
  {
  }

  lemma PageKeeps(ask: Ask, want: seq<Entry>)
    requires ask.answer.Ok? && RECORD * (|ask.answer.value| / RECORD) <= |ask.answer.value|
    requires Kept(ask.answer.value, |ask.answer.value| / RECORD, -1) == want
    ensures Page(ask) == Above(want, Floor(ask.start))
  {
    hide Kept, Above;
    KeptIsAbove(ask.answer.value, |ask.answer.value| / RECORD, Floor(ask.start));
  }

  lemma BehindFirst(dir: seq<Entry>, c: nat, start: int)
    requires Ascending(dir) && c <= |dir| && start == StartAfter(dir, c)
    ensures Above(dir, start - 1) == dir[c..]
  {
    hide Above, EmptySlot;
    AboveIsTail(dir, c, start - 1);
  }

  /** Behind the first c entries everything lies above the last of these, and above zero. */
  lemma AllAbove(dir: seq<Entry>, c: nat, d: nat, floor: int)
    requires Ascending(dir) && 0 < c <= d <= |dir| && floor == dir[c - 1].number
    ensures Above(dir[c..d], floor) == dir[c..d] == Above(dir[c..d], 0)
  {
    hide Above;
    var want := dir[c..d];
    PartAscends(dir, c, d);
    AboveIsTail(want, 0, floor);
    AboveIsTail(want, 0, 0);
    assert want[0..] == want;
  }

  lemma PageEnds(dir: seq<Entry>, c: nat, d: nat)
    requires Ascending(dir) && c <= d <= |dir| && d == (if c + PAGE < |dir| then c + PAGE else |dir|)
    ensures var page := Numbered(dir[c..d]);
            && (page != [] ==> Highest(page) == dir[d - 1].number)
            && (page == [] ==> d == |dir|)
  {
    hide Above, Highest, Ascending, Numbered;
    PartAscends(dir, c, d);
    NumberedTail(dir[c..d]);
    NumberedEnds(dir[c..d]);
  }

  lemma NumberedEnds(dir: seq<Entry>)
    requires Ascending(dir)
    ensures Numbered(dir) != [] ==> dir != [] && Highest(Numbered(dir)) == dir[|dir| - 1].number
  {
    hide Above, Highest, Numbered, Ascending;
    NumberedTail(dir);
    if dir != [] {
      var from := if dir[0].number == 0 then 1 else 0;
      assert dir[from..|dir|] == Numbered(dir);
      PartAscends(dir, from, |dir|);
      if from < |dir| {
        HighestIsLast(dir[from..|dir|]);
      }
    }
  }

  lemma {:induction false} GatherUpto(dir: seq<Entry>, asks: seq<Ask>, k: nat)
    requires Ascending(dir) && Walk(asks) && k <= |asks| && AllPage(dir, asks, k)
    ensures Gathered(asks[..k]) == Numbered(dir[..Upto(k, |dir|)])
    ensures k < |asks| ==> asks[k].start == StartAfter(dir, Upto(k, |dir|))
  {
    hide Page, Highest, Pages, Above, Ascending, Walk, Gathered;
    if k == 0 {
      FirstAsked(asks);
      NothingGathered();
      AboveNone(0);
      assert asks[..0] == [] && dir[..0] == [];
    } else {
      GatherUpto(dir, asks, k - 1);
      GatherStep(dir, asks, k - 1, Upto(k - 1, |dir|), Upto(k, |dir|));
    }
  }

  /** One page more. */
  lemma GatherStep(dir: seq<Entry>, asks: seq<Ask>, k: nat, c: nat, d: nat)
    requires Ascending(dir) && Walk(asks) && k < |asks| && Pages(dir, asks[k])
    requires c <= d <= |dir| && d == (if c + PAGE < |dir| then c + PAGE else |dir|)
    requires Gathered(asks[..k]) == Numbered(dir[..c]) && asks[k].start == StartAfter(dir, c)
    ensures Gathered(asks[..k + 1]) == Numbered(dir[..d])
    ensures k + 1 < |asks| ==> asks[k + 1].start == StartAfter(dir, d)
  {
    hide Page, Highest, Pages, Above, Ascending, Walk, Numbered, Gathered;
    PageAfter(dir, asks[k], c, d);
    GatherMore(dir, asks, k, c, d);
    if k + 1 < |asks| {
      PageEnds(dir, c, d);
      GoesOn(asks, k + 1);
      NothingNumbered(dir, c, d);
    }
  }

  lemma NothingGathered()
    ensures Gathered([]) == []
  {
  }

  lemma NothingNumbered(dir: seq<Entry>, c: nat, d: nat)
    requires c <= d <= |dir|
    ensures Numbered(dir[c..d]) != [] ==> c < d
  {
    AboveNone(0);
    assert c == d ==> dir[c..d] == [];
  }

  lemma FirstAsked(asks: seq<Ask>)
    requires Walk(asks)
    ensures asks[0].start == 0
  {
  }

  /** Behind a page the walk asks on, and the page was not empty. */
  lemma GoesOn(asks: seq<Ask>, k: nat)
    requires Walk(asks) && 0 < k < |asks|
    ensures Page(asks[k - 1]) != [] && asks[k].start == Highest(Page(asks[k - 1])) + 1
  {
    hide Page, Highest;
    assert Follows(asks[k - 1], asks[k]);
  }

  lemma GatherMore(dir: seq<Entry>, asks: seq<Ask>, k: nat, c: nat, d: nat)
    requires k < |asks| && c <= d <= |dir|
    requires Gathered(asks[..k]) == Numbered(dir[..c]) && Page(asks[k]) == Numbered(dir[c..d])
    ensures Gathered(asks[..k + 1]) == Numbered(dir[..d])
  {
    hide Page, Above, Gathered;
    assert asks[..k + 1] == asks[..k] + [asks[k]];
    GatheredNext(asks[..k], asks[k]);
    assert dir[..d] == dir[..c] + dir[c..d];
    AboveSplits(dir[..c], dir[c..d], 0);
  }

  /** What the first c entries make of a directory that loses number zero: the whole of it, or not. */
  lemma NumberedIsAll(dir: seq<Entry>, c: nat)
    requires Ascending(dir) && c <= |dir|
    ensures Numbered(dir[..c]) == dir <==> c == |dir| && (dir == [] || dir[0].number > 0)
  {
    hide Above, Numbered, Ascending;
    PartAscends(dir, 0, c);
    assert dir[0..c] == dir[..c] && dir[..|dir|] == dir;
    NumberedTail(dir[..c]);
    assert c < |dir| ==> |dir[..c]| < |dir|;
    assert c > 0 ==> |dir[..c][1..]| < |dir|;
  }

  /** A page of the directory, or an error of any kind. */
  ghost predicate PagesOrFails(dir: seq<Entry>, ask: Ask) {
    ask.answer.Fail? || Pages(dir, ask)
  }

  /** How many pages were answered. */
  function PagesTaken(asks: seq<Ask>): nat
    requires asks != []
  {
    if asks[|asks| - 1].answer.Ok? then |asks| else |asks| - 1
  }

  /**
   * An error behind the first page counts as the end of the directory. So from a
   * machine that pages or fails the walk gathers, in order, a stretch of whole pages
   * from the front; it is the whole directory exactly when no entry has the number
   * zero, 64 pages hold it, and no error came before its end.
   */
  lemma DirectoryIsAPrefix(dir: seq<Entry>, asks: seq<Ask>)
    requires Ascending(dir) && Walk(asks) && Finished(asks)
    requires forall k :: 0 <= k < |asks| ==> PagesOrFails(dir, asks[k])
    ensures asks != []
    ensures asks[|asks| - 1].answer.Ok? ==> Upto(|asks|, |dir|) == if |dir| <= PAGE * PAGES then |dir| else PAGE * PAGES
    ensures Gathered(asks) == Numbered(dir[..Upto(PagesTaken(asks), |dir|)])
    ensures Gathered(asks) == dir <==>
              && (dir == [] || dir[0].number > 0) && |dir| <= 512
              && (asks[|asks| - 1].answer.Ok? || |dir| <= PAGE * (|asks| - 1))
  {
    hide Page, Above, Pages, Gathered, Highest, Numbered, Ascending;
    var n, taken := |asks|, PagesTaken(asks);
    WalkLong(asks);
    assert asks[..n] == asks;
    forall i | 0 <= i < taken
      ensures Pages(dir, asks[i])
    {
      assert i < n - 1 ==> Follows(asks[i], asks[i + 1]);
      FailedPage(asks[i]);
    }
    GatherUpto(dir, asks, taken);
    NumberedIsAll(dir, Upto(taken, |dir|));
    if taken < n {
      FailedPage(asks[n - 1]);
      assert asks == asks[..n - 1] + [asks[n - 1]];
      GatheredNext(asks[..n - 1], asks[n - 1]);
    } else {
      LastPage(dir, asks);
    }
  }

  /** A walk that ends with an answer ends at the end, or with page 64. */
  lemma LastPage(dir: seq<Entry>, asks: seq<Ask>)
    requires Ascending(dir) && Walk(asks) && Finished(asks) && AllPage(dir, asks, |asks|)
    ensures Upto(|asks|, |dir|) == if |dir| <= PAGE * PAGES then |dir| else PAGE * PAGES
  {
    hide Page, Above, Pages, Walk, Gathered, Highest, Ascending;
    var n := |asks|;
    WalkLong(asks);
    GatherUpto(dir, asks, n - 1);
    PageAfter(dir, asks[n - 1], Upto(n - 1, |dir|), Upto(n, |dir|));
    PageEnds(dir, Upto(n - 1, |dir|), Upto(n, |dir|));
  }

  /**
   * From a machine that gives the eight smallest entries at or above the number
   * asked for, the walk gathers the directory in order, up to 64 pages and without an
   * entry numbered zero; and all of it exactly when that leaves nothing out.
   */
  lemma DirectoryIsComplete(dir: seq<Entry>, asks: seq<Ask>)
    requires Ascending(dir) && Walk(asks) && Finished(asks) && AllPage(dir, asks, |asks|)
    ensures Gathered(asks) == Numbered(if |dir| <= 512 then dir else dir[..512])
    ensures Gathered(asks) == dir <==> |dir| <= 512 && (dir == [] || dir[0].number > 0)
  {
    hide Page, Above, Walk, Gathered, Highest, Numbered, Ascending, Finished;
    WalkLong(asks);
    DirectoryIsAPrefix(dir, asks);
    assert dir[..|dir|] == dir;
  }

  /**
   * The one program of a machine, numbered zero: its record, a comment from byte 8 on,
   * is in the answer, and the list stays empty.
   */
  lemma NumberZeroIsLost(bytes: seq<byte>, ask: Ask)
    requires |bytes| == 72 && bytes[2] == 0 && bytes[3] == 0 && bytes[8] != 0 && bytes[8] != 0x20
    requires ask == Ask(0, Ok(bytes))
    ensures Walk([ask]) && Finished([ask]) && Pages([RecordAt(bytes, 0)], ask)
    ensures Gathered([ask]) == []
  {
    hide RecordAt, Kept, Above, Page, Gathered, Pages, Highest;
    ZeroRecord(bytes);
    OneRecord(bytes, RecordAt(bytes, 0));
    OnlyPage(RecordAt(bytes, 0), ask);
    OnlyAsk([ask]);
  }

  lemma ZeroRecord(bytes: seq<byte>)
    requires |bytes| == 72 && bytes[2] == 0 && bytes[3] == 0 && bytes[8] != 0 && bytes[8] != 0x20
    ensures RecordAt(bytes, 0).number == 0 && RecordAt(bytes, 0).comment != []
  {
    var field := bytes[0..72][8..];
    assert field[0] == bytes[8];
    assert CString(field)[0] == field[0];
    hide TrimSpaces;
  }

  lemma OnlyAsk(asks: seq<Ask>)
    requires |asks| == 1 && Page(asks[0]) == []
    ensures Gathered(asks) == []
  {
    hide Page;
    assert asks[..0] == [] && Gathered(asks[..0]) == [];
  }

  lemma OnlyPage(e: Entry, ask: Ask)
    requires ask.start == 0 && ask.answer.Ok? && |ask.answer.value| == RECORD && e.number == 0
    requires Kept(ask.answer.value, 1, -1) == [e] && Kept(ask.answer.value, 1, 0) == []
    ensures Pages([e], ask) && Page(ask) == []
  {
    hide Kept;
    OnlyEntry(e);
    assert |ask.answer.value| / RECORD == 1;
  }

  lemma OneRecord(bytes: seq<byte>, e: Entry)
    requires |bytes| == RECORD && RecordAt(bytes, 0) == e && e.number == 0 && e.comment != []
    ensures |bytes| / RECORD == 1 && Kept(bytes, 1, -1) == [e] && Kept(bytes, 1, 0) == []
  {
    hide RecordAt;
    KeptNone(bytes, -1);
    KeptNone(bytes, 0);
    hide Kept;
    KeptNext(bytes, 0, -1);
    KeptNext(bytes, 0, 0);
    assert [] + [e] == [e];
  }

  lemma OnlyEntry(e: Entry)
    requires e.number == 0
    ensures FirstPage(Above([e], -1)) == [e]
  {
    AboveNone(-1);
    hide Above;
    AboveNext([], e, -1);
    assert [] + [e] == [e];
  }

  /** A machine that ignores the start number, and always answers the same, is listed once. */
  lemma StubbornMachine(asks: seq<Ask>, bytes: seq<byte>)
    requires Walk(asks) && Finished(asks)
    requires forall k :: 0 <= k < |asks| ==> asks[k].answer == Ok(bytes)
    ensures Gathered(asks) == Page(Ask(0, Ok(bytes)))
    ensures |asks| <= 2
  {
    hide Page, Highest;
    StubbornTwice(asks, bytes);
    assert asks[0] == Ask(0, Ok(bytes));
    assert asks[..1] == [asks[0]] && [asks[0]][..0] == [];
    assert Gathered([]) == [];
    assert Gathered([asks[0]]) == Page(asks[0]);
    if |asks| > 1 {
      assert asks == [asks[0]] + [asks[1]];
      GatheredNext([asks[0]], asks[1]);
    } else {
      assert asks == [asks[0]];
    }
  }

  lemma StubbornTwice(asks: seq<Ask>, bytes: seq<byte>)
    requires Walk(asks)
    requires forall k :: 0 <= k < |asks| ==> asks[k].answer == Ok(bytes)
    ensures |asks| <= 2 && (|asks| == 2 ==> Page(asks[1]) == [])
  {
    hide Page, Highest;
    if |asks| > 1 {
      assert Follows(asks[0], asks[1]);
      HighestBounds(Page(asks[0]));
      SameAnswer(asks[0], asks[1]);
      assert |asks| > 2 ==> Follows(asks[1], asks[2]);
    }
  }

  /** The same answer again, to a question behind all that it brought, brings nothing. */
  lemma SameAnswer(one: Ask, next: Ask)
    requires one.start == 0 && next.start > 0 && one.answer == next.answer
    requires forall i :: 0 <= i < |Page(one)| ==> Page(one)[i].number < next.start
    ensures Page(next) == []
  {
    hide Kept;
    if next.answer.Ok? {
      var bytes := next.answer.value;
      WholeRecords(|bytes|);
      assert Page(one) == Kept(bytes, |bytes| / RECORD, 0);
      NothingHigher(bytes, |bytes| / RECORD, 0, next.start - 1);
    }
  }

  lemma WalkLong(asks: seq<Ask>)
    requires Walk(asks)
    ensures 0 < |asks| <= PAGES
  {
  }

  lemma {:induction false} NothingHigher(bytes: seq<byte>, n: nat, low: int, high: int)
    requires RECORD * n <= |bytes| && low <= high
    requires forall i :: 0 <= i < |Kept(bytes, n, low)| ==> Kept(bytes, n, low)[i].number <= high
    ensures Kept(bytes, n, high) == []
  {
    hide RecordAt;
    if n > 0 {
      var e := RecordAt(bytes, n - 1);
      var rest := Kept(bytes, n - 1, low);
      if !EmptySlot(e) && e.number > low {
        assert Kept(bytes, n, low)[|rest|] == e;
      }
      forall i | 0 <= i < |rest|
        ensures rest[i].number <= high
      {
        assert Kept(bytes, n, low)[i] == rest[i];
      }
      NothingHigher(bytes, n - 1, low, high);
    }
  }

  /**
   * The whole listing: against a machine that pages every entry, in order; when links
   * break, some pages of it from the front, or the error of the first.
   */
  method ListDirectory(d: Directory, ghost dir: seq<Entry>) returns (r: Result<seq<Entry>>)
    requires Ascending(dir) && forall log, start :: PagesOrFails(dir, Ask(start, d.machine(log, start)))
    modifies d`log
    ensures r.Ok? ==> exists pages: nat :: r.value == Numbered(dir[..Upto(pages, |dir|)])
    ensures r.Fail? ==> d.machine(old(d.log), 0) == Fail(r.error)
    ensures (forall log, start :: Pages(dir, Ask(start, d.machine(log, start)))) ==>
              r == Ok(Numbered(if |dir| <= 512 then dir else dir[..512]))
  {
    hide Pages, Walk, Page, Gathered, Above, Numbered, Upto, Ascending, Finished;
    ghost var before := d.log;
    ghost var asks;
    r, asks := d.ProgramDirectory();
    WalkLong(asks);
    FirstAsked(asks);
    assert before + asks[..0] == before;
    forall k | 0 <= k < |asks|
      ensures PagesOrFails(dir, asks[k])
    {
      assert PagesOrFails(dir, Ask(asks[k].start, d.machine(before + asks[..k], asks[k].start)));
      assert asks[k] == Ask(asks[k].start, asks[k].answer);
    }
    DirectoryIsAPrefix(dir, asks);
    if forall log, start :: Pages(dir, Ask(start, d.machine(log, start))) {
      forall k | 0 <= k < |asks|
        ensures Pages(dir, asks[k])
      {
        assert Pages(dir, Ask(asks[k].start, d.machine(before + asks[..k], asks[k].start)));
        assert asks[k] == Ask(asks[k].start, asks[k].answer);
      }
      PagesAnswer(dir, asks[0]);
      DirectoryIsComplete(dir, asks);
    }
  }

  lemma PagesAnswer(dir: seq<Entry>, ask: Ask)
    requires Pages(dir, ask)
    ensures ask.answer.Ok?
  {
  }
}
