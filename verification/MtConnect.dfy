/**
 * Alarm events of an MTConnect agent: polls of the current document, of which a
 * bounded table remembers each condition's state, so that an alarm is told once.
 */
module MtConnect {
  import opened Common

  const MAX_STATES: nat := 64

  datatype Reading = Reading(id: string, value: string, category: Option<string>, severity: Option<string>,
                             code: Option<string>)

  datatype Event = Event(id: string, value: string, severity: Option<string>, code: Option<string>)

  /** A condition that was looked at, and whether somebody was listening then. */
  datatype Observation = Observation(reading: Reading, heard: bool)

  datatype State = State(id: string, state: string)

  predicate Alarming(state: string) {
    EqIgnoreCase(state, "Fault") || EqIgnoreCase(state, "Warning")
  }

  function EventOf(r: Reading): Event {
    Event(r.id, r.value, r.severity, r.code)
  }

  predicate IsCondition(r: Reading) {
    r.category.Some? && EqIgnoreCase(r.category.value, "CONDITION")
  }

  /** The word, letter by letter, in any mixture of capitals and small letters. */
  predicate Spells(s: string, capitals: string, smalls: string)
    requires |capitals| == |smalls|
  {
    |s| == |capitals| && forall i :: 0 <= i < |s| ==> s[i] == capitals[i] || s[i] == smalls[i]
  }

  lemma LettersMatch(c: char, word: char, capital: char, small: char)
    requires 'A' <= capital <= 'Z' && small as int == capital as int + 32 && (word == capital || word == small)
    ensures LowerChar(c) == LowerChar(word) <==> c == capital || c == small
  {
  }

  lemma SpellsIsEqual(s: string, word: string, capitals: string, smalls: string)
    requires |word| == |capitals| == |smalls|
    requires forall i :: 0 <= i < |word| ==>
               && 'A' <= capitals[i] <= 'Z' && smalls[i] as int == capitals[i] as int + 32
               && (word[i] == capitals[i] || word[i] == smalls[i])
    ensures EqIgnoreCase(s, word) <==> Spells(s, capitals, smalls)
  {
    hide LowerChar;
    if |s| == |word| {
      forall i | 0 <= i < |s|
        ensures LowerChar(s[i]) == LowerChar(word[i]) <==> s[i] == capitals[i] || s[i] == smalls[i]
      {
        LettersMatch(s[i], word[i], capitals[i], smalls[i]);
      }
    }
  }

  /** The two states that are alarms, and the category that makes a condition: any other word is neither. */
  lemma WordsThatCount(s: string, r: Reading)
    ensures Alarming(s) <==> Spells(s, "FAULT", "fault") || Spells(s, "WARNING", "warning")
    ensures IsCondition(r) <==> r.category.Some? && Spells(r.category.value, "CONDITION", "condition")
  {
    hide EqIgnoreCase, Spells;
    SpellsIsEqual(s, "Fault", "FAULT", "fault");
    SpellsIsEqual(s, "Warning", "WARNING", "warning");
    if r.category.Some? {
      SpellsIsEqual(r.category.value, "CONDITION", "CONDITION", "condition");
    }
  }

  // ----------------------------------------------- what every run produces

  /** The distinct ids of a run, by first appearance. */
  function Ids(seen: seq<Observation>): (ids: seq<string>) {
    if seen == [] then [] else
      var before := Ids(seen[..|seen| - 1]);
      var id := seen[|seen| - 1].reading.id;
      if id in before then before else before + [id]
  }

  function Known(ids: seq<string>): (known: seq<string>)
    ensures known <= ids && |known| <= 64 && (|ids| <= 64 ==> known == ids)
  {
    if |ids| > MAX_STATES then ids[..MAX_STATES] else ids
  }

  /** The value an id had when it was last observed. */
  function LastValue(seen: seq<Observation>, id: string): Option<string> {
    if seen == [] then None else
      var last := seen[|seen| - 1].reading;
      if last.id == id then Some(last.value) else LastValue(seen[..|seen| - 1], id)
  }

  /** Observation k is news: alarming, of one of the first 64 conditions, and not what it was before. */
  predicate News(seen: seq<Observation>, k: nat)
    requires k < |seen|
  {
    var r := seen[k].reading;
    var previous := LastValue(seen[..k], r.id);
    && seen[k].heard
    && r.id in Known(Ids(seen))
    && Alarming(r.value)
    && (previous.None? || !EqIgnoreCase(previous.value, r.value))
  }

  /** The events of the first n observations. */
  function EventsUpto(seen: seq<Observation>, n: nat): seq<Event>
    requires n <= |seen|
  {
    if n == 0 then [] else
      EventsUpto(seen, n - 1) + if News(seen, n - 1) then [EventOf(seen[n - 1].reading)] else []
  }

  function EventsOf(seen: seq<Observation>): seq<Event> {
    EventsUpto(seen, |seen|)
  }

  lemma IdsNext(seen: seq<Observation>, o: Observation)
    ensures Ids(seen + [o]) == if o.reading.id in Ids(seen) then Ids(seen) else Ids(seen) + [o.reading.id]
    ensures Ids(seen) <= Ids(seen + [o])
  {
    assert (seen + [o])[..|seen|] == seen;
  }

  lemma LastValueNext(seen: seq<Observation>, o: Observation, id: string)
    ensures LastValue(seen + [o], id) == if o.reading.id == id then Some(o.reading.value) else LastValue(seen, id)
  {
    assert (seen + [o])[..|seen|] == seen;
  }

  lemma {:induction false} ObservedIsListed(seen: seq<Observation>, k: nat)
    requires k < |seen|
    ensures seen[k].reading.id in Ids(seen)
  {
    if k < |seen| - 1 {
      ObservedIsListed(seen[..|seen| - 1], k);
    }
  }

  lemma {:induction false} ListedHasValue(seen: seq<Observation>, id: string)
    ensures id in Ids(seen) <==> LastValue(seen, id).Some?
  {
    if seen != [] {
      ListedHasValue(seen[..|seen| - 1], id);
    }
  }

  lemma {:induction false} IdsDistinct(seen: seq<Observation>)
    ensures forall i, j :: 0 <= i < j < |Ids(seen)| ==> Ids(seen)[i] != Ids(seen)[j]
  {
    if seen != [] {
      IdsDistinct(seen[..|seen| - 1]);
    }
  }

  /** A later id never pushes an earlier one out of the first 64, nor lets one in that came too late. */
  lemma KnownForGood(seen: seq<Observation>, o: Observation, k: nat)
    requires k < |seen|
    ensures seen[k].reading.id in Known(Ids(seen + [o])) <==> seen[k].reading.id in Known(Ids(seen))
  {
    var id, ids, more := seen[k].reading.id, Ids(seen), Ids(seen + [o]);
    IdsNext(seen, o);
    ObservedIsListed(seen, k);
    IdsDistinct(seen + [o]);
    hide Ids;
    var i :| 0 <= i < |ids| && ids[i] == id;
    assert more[i] == id;
    forall j | 0 <= j < |more| && more[j] == id
      ensures j == i
    {
    }
    assert id in Known(ids) <==> i < MAX_STATES;
    assert id in Known(more) <==> i < MAX_STATES;
  }

  lemma NewsStays(seen: seq<Observation>, o: Observation, k: nat)
    requires k < |seen|
    ensures News(seen + [o], k) <==> News(seen, k)
  {
    hide Ids, Known, LastValue, Alarming;
    assert (seen + [o])[..k] == seen[..k];
    KnownForGood(seen, o, k);
  }

  lemma {:induction false} EventsStay(seen: seq<Observation>, o: Observation, n: nat)
    requires n <= |seen|
    ensures EventsUpto(seen + [o], n) == EventsUpto(seen, n)
  {
    hide News;
    if n > 0 {
      EventsStay(seen, o, n - 1);
      NewsStays(seen, o, n - 1);
    }
  }

  /** One more observation adds at most one event. */
  lemma EventsNext(seen: seq<Observation>, o: Observation)
    ensures EventsOf(seen + [o]) == EventsOf(seen) + if News(seen + [o], |seen|) then [EventOf(o.reading)] else []
  {
    hide News;
    EventsStay(seen, o, |seen|);
  }

  /** Every event of a run, by position: the news and nothing else, in order. */
  function NewsAt(seen: seq<Observation>, n: nat): (at: seq<nat>)
    requires n <= |seen|
    ensures forall i :: 0 <= i < |at| ==> at[i] < n && News(seen, at[i])
    ensures forall i, j :: 0 <= i < j < |at| ==> at[i] < at[j]
    ensures forall k :: 0 <= k < n && News(seen, k) ==> k in at
  {
    if n == 0 then [] else NewsAt(seen, n - 1) + if News(seen, n - 1) then [n - 1] else []
  }

  lemma {:induction false} EventsAreTheNews(seen: seq<Observation>, n: nat)
    requires n <= |seen|
    ensures |EventsUpto(seen, n)| == |NewsAt(seen, n)|
    ensures forall i :: 0 <= i < |NewsAt(seen, n)| ==>
              EventsUpto(seen, n)[i] == EventOf(seen[NewsAt(seen, n)[i]].reading)
  {
    hide News;
    if n > 0 {
      EventsAreTheNews(seen, n - 1);
    }
  }

  // ------------------------------------------------------------- the driver

  lemma SameIgnoringCase(a: string, b: string, c: string)
    requires EqIgnoreCase(a, b)
    ensures EqIgnoreCase(a, c) <==> EqIgnoreCase(b, c)
  {
  }

  class Driver {
    var states: array<State>
    var count: nat
    var listening: bool
    /** Everything that was ever pushed. */
    var events: seq<Event>
    /** Conditions observed since the last close, and what had been pushed before it. */
    ghost var seen: seq<Observation>
    ghost var earlier: seq<Event>

    ghost predicate Valid()
      reads this, states
    {
      && states.Length == MAX_STATES
      && count <= MAX_STATES
      && Table(states[..count], seen)
      && events == earlier + EventsOf(seen)
    }

    constructor ()
      ensures Valid() && events == [] && seen == [] && earlier == [] && !listening && fresh(states)
    {
      states := new State[MAX_STATES](_ => State("", ""));
      count, listening, events := 0, false, [];
      seen, earlier := [], [];
    }

    method AttachEvent(on: bool)
      requires Valid()
      modifies this`listening
      ensures Valid() && listening == on && events == old(events)
    {
      listening := on;
    }

    method PushAlarm(r: Reading)
      modifies this`events
      ensures events == if listening then old(events) + [EventOf(r)] else old(events)
    {
      if !listening {
        return;
      }
      events := events + [EventOf(r)];
    }

    /** Remembers a condition's state, and tells an alarming change once. */
    method NoteCondition(r: Reading)
      requires Valid()
      modifies this, states
      ensures Valid() && states == old(states) && listening == old(listening) && earlier == old(earlier)
      ensures seen == old(seen) + [Observation(r, listening)]
    {
      hide Table, News, EventsOf, Alarming;
      ghost var before := seen;
      ghost var o := Observation(r, listening);
      seen := seen + [o];
      EventsNext(before, o);
      var i := 0;
      while i < count
        invariant 0 <= i <= count <= states.Length == MAX_STATES && states == old(states)
                  && states[..count] == old(states[..count])
        invariant forall k :: 0 <= k < i ==> states[k].id != r.id
        invariant seen == before + [o] && events == earlier + EventsOf(before)
        invariant listening == old(listening) && earlier == old(earlier) && count == old(count)
      {
        if states[i].id == r.id {
          FoundMeans(states[..count], before, o, i);
          if EqIgnoreCase(states[i].state, r.value) {
            return;
          }
          ghost var table := states[..count];
          states[i] := State(states[i].id, r.value);
          assert states[..count] == table[i := State(r.id, r.value)];
          if Alarming(r.value) {
            PushAlarm(r);
          }
          return;
        }
        i := i + 1;
      }
      NewMeans(states[..count], before, o);
      if count >= MAX_STATES {
        return;
      }
      ghost var table := states[..count];
      states[count] := State(r.id, r.value);
      count := count + 1;
      assert states[..count] == table + [State(r.id, r.value)];
      if Alarming(r.value) {
        PushAlarm(r);
      }
    }

    /** Reads the requested items from one document; conditions among them are noted, in the order asked for. */
    method ReadBatch(addresses: seq<string>, current: seq<Reading>) returns (found: seq<Option<Reading>>)
      requires Valid()
      modifies this, states
      ensures Valid() && states == old(states) && listening == old(listening) && earlier == old(earlier)
      ensures |found| == |addresses| && forall i :: 0 <= i < |addresses| ==> found[i] == Find(current, addresses[i])
      ensures seen == old(seen) + Observed(found, listening)
    {
      hide Driver.Valid, Observed, Find, IsCondition;
      found := [];
      ObservedNone(listening);
      for i := 0 to |addresses|
        invariant Valid() && states == old(states) && listening == old(listening) && earlier == old(earlier)
        invariant |found| == i && forall k :: 0 <= k < i ==> found[k] == Find(current, addresses[k])
        invariant seen == old(seen) + Observed(found, listening)
      {
        var reading := FindReading(current, addresses[i]);
        ObservedNext(found, reading, listening);
        found := found + [reading];
        if reading.Some? && IsCondition(reading.value) {
          NoteCondition(reading.value);
        }
      }
    }

    static method FindReading(current: seq<Reading>, id: string) returns (r: Option<Reading>)
      ensures r == Find(current, id)
    {
      for i := 0 to |current|
        invariant Find(current, id) == Find(current[i..], id)
      {
        assert current[i..][1..] == current[i + 1..];
        if current[i].id == id {
          return Some(current[i]);
        }
      }
      return None;
    }

    /** Forgets every state; what was pushed stays pushed. */
    method Close()
      requires Valid()
      modifies this`count, this`seen, this`earlier
      ensures Valid() && seen == [] && earlier == events
    {
      count := 0;
      earlier, seen := events, [];
      assert states[..0] == [];
    }
  }

  /** The first reading with an id. */
  function Find(current: seq<Reading>, id: string): Option<Reading> {
    if current == [] then None else if current[0].id == id then Some(current[0]) else Find(current[1..], id)
  }

  /** The observations a batch makes. */
  function Observed(found: seq<Option<Reading>>, heard: bool): seq<Observation> {
    if found == [] then [] else
      var last := found[|found| - 1];
      var before := Observed(found[..|found| - 1], heard);
      if last.Some? && IsCondition(last.value) then before + [Observation(last.value, heard)] else before
  }

  lemma ObservedNone(heard: bool)
    ensures Observed([], heard) == []
  {
  }

  lemma ObservedNext(found: seq<Option<Reading>>, r: Option<Reading>, heard: bool)
    ensures Observed(found + [r], heard) ==
            if r.Some? && IsCondition(r.value) then Observed(found, heard) + [Observation(r.value, heard)]
            else Observed(found, heard)
  {
    assert (found + [r])[..|found|] == found;
  }

  /** The table holds the first ids of the run, each with the value last observed, up to case. */
  ghost predicate Table(table: seq<State>, seen: seq<Observation>) {
    var ids := Known(Ids(seen));
    && |table| == |ids|
    && forall i :: 0 <= i < |ids| ==>
         && table[i].id == ids[i]
         && LastValue(seen, ids[i]).Some?
         && EqIgnoreCase(table[i].state, LastValue(seen, ids[i]).value)
  }

  /** A known condition: news exactly when it is heard, alarming and differs from the remembered state. */
  lemma FoundMeans(table: seq<State>, seen: seq<Observation>, o: Observation, i: nat)
    requires Table(table, seen) && i < |table| && table[i].id == o.reading.id
    ensures News(seen + [o], |seen|) <==>
            o.heard && Alarming(o.reading.value) && !EqIgnoreCase(table[i].state, o.reading.value)
    ensures Table(table[i := State(o.reading.id, o.reading.value)], seen + [o])
    ensures EqIgnoreCase(table[i].state, o.reading.value) ==> Table(table, seen + [o])
  {
    hide Ids, LastValue, Alarming, EqIgnoreCase;
    var id := o.reading.id;
    IdsNext(seen, o);
    IdsDistinct(seen);
    assert id in Known(Ids(seen));
    assert (seen + [o])[..|seen|] == seen;
    SameIgnoringCase(table[i].state, LastValue(seen, id).value, o.reading.value);
    SameText(o.reading.value);
    forall k | 0 <= k < |table|
      ensures LastValue(seen + [o], table[k].id)
              == if k == i then Some(o.reading.value) else LastValue(seen, table[k].id)
    {
      LastValueNext(seen, o, table[k].id);
    }
  }

  lemma SameText(s: string)
    ensures EqIgnoreCase(s, s)
  {
  }

  /** A condition the table does not hold: first sight while there is room, and otherwise never news. */
  lemma NewMeans(table: seq<State>, seen: seq<Observation>, o: Observation)
    requires Table(table, seen) && forall i :: 0 <= i < |table| ==> table[i].id != o.reading.id
    ensures |table| == MAX_STATES ==> !News(seen + [o], |seen|) && Table(table, seen + [o])
    ensures |table| < MAX_STATES ==> Table(table + [State(o.reading.id, o.reading.value)], seen + [o])
    ensures |table| < MAX_STATES ==> (News(seen + [o], |seen|) <==> o.heard && Alarming(o.reading.value))
  {
    hide Ids, LastValue, Alarming, EqIgnoreCase;
    var id := o.reading.id;
    IdsNext(seen, o);
    ListedHasValue(seen, id);
    assert (seen + [o])[..|seen|] == seen;
    SameText(o.reading.value);
    LastValueNext(seen, o, id);
    forall k | 0 <= k < |table|
      ensures LastValue(seen + [o], table[k].id) == LastValue(seen, table[k].id)
    {
      LastValueNext(seen, o, table[k].id);
    }
  }

  /** A driver that was just made sees its first condition: a heard alarm is pushed as it was read, nothing else is. */
  method FirstSight(r: Reading, on: bool) returns (d: Driver)
    ensures fresh(d) && d.Valid()
    ensures d.events == if on && (Spells(r.value, "FAULT", "fault") || Spells(r.value, "WARNING", "warning"))
                        then [Event(r.id, r.value, r.severity, r.code)] else []
  {
    ghost var o := Observation(r, on);
    WordsThatCount(r.value, r);
    OnlyNews(o);
    hide Alarming, EventsOf, Spells, Table;
    d := new Driver();
    d.AttachEvent(on);
    d.NoteCondition(r);
    assert d.seen == [] + [o] == [o];
    assert d.events == [] + EventsOf([o]);
  }

  lemma OnlyNews(o: Observation)
    ensures EventsOf([o]) == if o.heard && Alarming(o.reading.value) then [EventOf(o.reading)] else []
  {
    hide Alarming, EqIgnoreCase;
    var none: seq<Observation> := [];
    assert EventsOf(none) == [] && Ids(none) == [] && LastValue(none, o.reading.id) == None;
    hide EventsOf, Ids, LastValue;
    assert [o] == none + [o] && [o][..0] == none;
    EventsNext(none, o);
    IdsNext(none, o);
    assert o.reading.id in Known(Ids([o]));
  }
}
