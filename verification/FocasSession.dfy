/**
 * The two connections of a FOCAS session. Which of them carries command frames and
 * which transfer frames is decided by the counter each was greeted with. Every
 * connect, frame, shutdown and close goes into a log, and what is proved holds for
 * every run, whatever the machine does.
 */
module FocasSession {
  import opened Common
  import opened FocasBlocks

  const HELLO: byte := 0x01
  const BYE: byte := 0x02
  const START: byte := 0x11
  const DATA: byte := 0x12
  const END: byte := 0x13
  const COMMAND: byte := 0x21
  const MAX_BODY: nat := 4096
  const CHUNK: nat := 1400
  const TRANSFER_BODY: nat := 516
  const SYSINFO: word := 24

  /** A connection is known by the position of its opening in the log. */
  datatype Event =
    | NotOpened
    | Opened(id: nat)
    | Sent(id: nat, func: byte, dir: byte, body: seq<byte>)
    | Shut(id: nat)
    | Closed(id: nat)

  /** What comes of a frame: it is not sent, or these bytes arrive before the timeout. */
  datatype Wire = NotSent | Answer(bytes: seq<byte>)

  predicate Transfers(func: byte) {
    func == START || func == DATA || func == END
  }

  predicate Hello(e: Event, id: nat, odd: bool) {
    e.Sent? && e.id == id && e.func == HELLO && |e.body| == 2 && (e.body[1] % 2 == 1) == odd
  }

  ghost predicate Greeted(log: seq<Event>, id: nat, odd: bool) {
    exists k :: 0 <= k < |log| && Hello(log[k], id, odd)
  }

  ghost predicate Open(log: seq<Event>, id: nat) {
    id < |log| && log[id] == Opened(id) && Closed(id) !in log
  }

  /**
   * What may happen next: frames only on open connections, transfer frames only
   * where the hello was odd, commands only where it was even, no connection greeted
   * both ways; `once`: a close only of an open connection.
   */
  ghost predicate Allowed(log: seq<Event>, e: Event, once: bool) {
    match e
    case NotOpened => true
    case Opened(id) => id == |log|
    case Sent(id, func, _, body) =>
      && Open(log, id)
      && (Transfers(func) ==> Greeted(log, id, true))
      && (func == COMMAND ==> Greeted(log, id, false))
      && (func == HELLO ==> |body| == 2 && !Greeted(log, id, body[1] % 2 != 1))
    case Shut(id) => Open(log, id)
    case Closed(id) => Open(log, id) || (!once && id < |log| && log[id] == Opened(id))
  }

  ghost predicate Orderly(log: seq<Event>, once: bool) {
    forall k :: 0 <= k < |log| ==> Allowed(log[..k], log[k], once)
  }

  // ------------------------------------------------------------ main results

  lemma SameParity(log: seq<Event>, once: bool, i: nat, j: nat, id: nat, a: bool, b: bool)
    requires Orderly(log, once) && i < j < |log| && Hello(log[i], id, a) && Hello(log[j], id, b)
    ensures a == b
  {
    assert Allowed(log[..j], log[j], once);
    assert log[..j][i] == log[i];
    assert Greeted(log[..j], id, a);
  }

  /** No connection is ever greeted with both parities. */
  lemma OneParity(log: seq<Event>, once: bool, id: nat)
    requires Orderly(log, once)
    ensures !(Greeted(log, id, true) && Greeted(log, id, false))
  {
    hide Orderly;
    if Greeted(log, id, true) && Greeted(log, id, false) {
      var i :| 0 <= i < |log| && Hello(log[i], id, true);
      var j :| 0 <= j < |log| && Hello(log[j], id, false);
      if i < j {
        SameParity(log, once, i, j, id, true, false);
      } else if j < i {
        SameParity(log, once, j, i, id, false, true);
      }
    }
  }

  /** Every transfer frame of a run goes where the hello was odd, and no command ever goes there. */
  lemma ChannelsApart(log: seq<Event>, once: bool, t: nat, c: nat)
    requires Orderly(log, once) && t < |log| && c < |log|
    requires log[t].Sent? && log[t].func in {0x11, 0x12, 0x13} && log[c].Sent? && log[c].func == 0x21
    ensures log[t].id != log[c].id
    ensures Greeted(log[..t], log[t].id, true) && !Greeted(log, log[t].id, false)
    ensures Greeted(log[..c], log[c].id, false) && !Greeted(log, log[c].id, true)
  {
    assert Allowed(log[..t], log[t], once) && Allowed(log[..c], log[c], once);
    GreetedStays(log, t, log[t].id, true);
    GreetedStays(log, c, log[c].id, false);
    OneParity(log, once, log[t].id);
    OneParity(log, once, log[c].id);
  }

  lemma GreetedStays(log: seq<Event>, n: nat, id: nat, odd: bool)
    requires n <= |log| && Greeted(log[..n], id, odd)
    ensures Greeted(log, id, odd)
  {
    var k :| 0 <= k < n && Hello(log[..n][k], id, odd);
    assert Hello(log[k], id, odd);
  }

  /** After its close a connection is not used, and with an odd counter not closed again. */
  lemma NothingAfterClose(log: seq<Event>, once: bool, i: nat, j: nat)
    requires Orderly(log, once) && i < j < |log| && log[i].Closed?
    ensures log[j].Sent? || log[j].Shut? ==> log[j].id != log[i].id
    ensures once && log[j].Closed? ==> log[j].id != log[i].id
  {
    assert Allowed(log[..j], log[j], once);
    assert log[..j][i] == Closed(log[i].id);
  }

  // ----------------------------------------------- the log and what is open

  /** The log is orderly and exactly the connections in `live` are open. */
  ghost predicate Core(log: seq<Event>, once: bool, live: set<nat>) {
    && Orderly(log, once)
    && forall id: nat :: Open(log, id) <==> id in live
  }

  lemma OrderlyMore(log: seq<Event>, e: Event, once: bool)
    requires Orderly(log, once) && Allowed(log, e, once)
    ensures Orderly(log + [e], once)
  {
    hide Allowed;
    var more := log + [e];
    forall k | 0 <= k < |more|
      ensures Allowed(more[..k], more[k], once)
    {
      if k < |log| {
        assert more[..k] == log[..k];
      } else {
        assert more[..k] == log;
      }
    }
  }

  lemma CoreEmit(log: seq<Event>, e: Event, once: bool, live: set<nat>)
    requires Core(log, once, live) && Allowed(log, e, once) && (e.NotOpened? || e.Sent? || e.Shut?)
    ensures Core(log + [e], once, live)
  {
    OrderlyMore(log, e, once);
    forall id: nat
      ensures Open(log + [e], id) <==> Open(log, id)
    {
    }
  }

  lemma CoreOpen(log: seq<Event>, once: bool, live: set<nat>)
    requires Core(log, once, live)
    ensures Core(log + [Opened(|log|)], once, live + {|log|})
    ensures forall odd :: !Greeted(log + [Opened(|log|)], |log|, odd)
  {
    var id, more := |log|, log + [Opened(|log|)];
    OrderlyMore(log, Opened(id), once);
    assert forall k :: 0 <= k < |log| ==> Allowed(log[..k], log[k], once);
    assert Closed(id) !in log;
    forall other: nat
      ensures Open(more, other) <==> other == id || Open(log, other)
    {
    }
  }

  lemma CoreClose(log: seq<Event>, id: nat, once: bool, live: set<nat>)
    requires Core(log, once, live) && Allowed(log, Closed(id), once)
    ensures Core(log + [Closed(id)], once, live - {id})
  {
    var more := log + [Closed(id)];
    OrderlyMore(log, Closed(id), once);
    assert more[|log|] == Closed(id);
    forall other: nat
      ensures Open(more, other) <==> Open(log, other) && other != id
    {
      if other != id && Open(log, other) {
        assert Closed(other) !in more;
      }
    }
  }

  lemma GreetedMore(log: seq<Event>, e: Event, id: nat, odd: bool)
    requires Greeted(log, id, odd)
    ensures Greeted(log + [e], id, odd)
  {
    assert (log + [e])[..|log|] == log;
    GreetedStays(log + [e], |log|, id, odd);
  }

  /** A frame that may be sent once may be sent again. */
  lemma AllowedAgain(log: seq<Event>, e: Event, once: bool)
    requires Allowed(log, e, once) && e.Sent?
    ensures Allowed(log + [e], e, once)
  {
    var more := log + [e];
    if Transfers(e.func) {
      GreetedMore(log, e, e.id, true);
    } else if e.func == COMMAND {
      GreetedMore(log, e, e.id, false);
    } else if e.func == HELLO {
      assert forall k :: 0 <= k < |log| ==> more[k] == log[k];
    }
  }

  // ------------------------------------------------------- the three fields

  function One(channel: Option<nat>): set<nat> {
    if channel.Some? then {channel.value} else {}
  }

  /** The channels as the fields hold them; `odd` is the parity of the hello counter. */
  datatype Channels = Channels(socket: Option<nat>, control: Option<nat>, transfer: Option<nat>) {
    function Held(): set<nat> {
      One(socket) + One(control) + One(transfer)
    }

    predicate Shape(odd: bool) {
      && (socket.Some? <==> transfer.Some?)
      && (socket.Some? ==> control == if odd then transfer else socket)
    }

    ghost predicate Roles(log: seq<Event>) {
      && (socket.Some? ==> Greeted(log, socket.value, false))
      && (transfer.Some? ==> Greeted(log, transfer.value, true))
    }
  }

  /** Connections are open exactly while a field or the set of lost ones holds them. */
  ghost predicate Sound(log: seq<Event>, odd: bool, c: Channels, lost: set<nat>) {
    && Core(log, odd, c.Held() + lost)
    && c.Held() !! lost
    && c.Shape(odd)
    && c.Roles(log)
  }

  lemma SoundEmit(log: seq<Event>, e: Event, odd: bool, c: Channels, lost: set<nat>)
    requires Sound(log, odd, c, lost) && Allowed(log, e, odd) && (e.NotOpened? || e.Sent? || e.Shut?)
    ensures Sound(log + [e], odd, c, lost)
  {
    hide Core, Allowed, Greeted;
    CoreEmit(log, e, odd, c.Held() + lost);
    if c.socket.Some? {
      GreetedMore(log, e, c.socket.value, false);
      GreetedMore(log, e, c.transfer.value, true);
    }
  }

  /** A new connection is held by nobody yet. */
  lemma SoundOpen(log: seq<Event>, odd: bool, c: Channels, lost: set<nat>)
    requires Sound(log, odd, c, lost)
    ensures |log| !in c.Held() + lost
    ensures Sound(log + [Opened(|log|)], odd, c, lost + {|log|})
    ensures forall parity :: !Greeted(log + [Opened(|log|)], |log|, parity)
  {
    var e := Opened(|log|);
    assert |log| !in c.Held() + lost by {
      assert !Open(log, |log|);
    }
    CoreOpen(log, odd, c.Held() + lost);
    hide Core, Greeted;
    assert c.Held() + lost + {|log|} == c.Held() + (lost + {|log|});
    if c.socket.Some? {
      GreetedMore(log, e, c.socket.value, false);
      GreetedMore(log, e, c.transfer.value, true);
    }
  }

  function Closing(c: Option<nat>): seq<Event> {
    if c.Some? then [Closed(c.value)] else []
  }

  /** The transfer channel, unless it is the control connection as well. */
  function Second(c: Channels): Option<nat> {
    if c.transfer != c.control then c.transfer else None
  }

  /** The closes that drop a session, in order. */
  function DropEvents(c: Channels): seq<Event> {
    Closing(c.socket) + Closing(Second(c)) + Closing(c.control)
  }

  /** Dropping a session closes a connection twice exactly when command and control are the same one. */
  lemma DropClosesTwiceExactly(c: Channels)
    requires c.socket.Some? ==> c.socket != c.transfer
    ensures (exists i, j :: 0 <= i < j < |DropEvents(c)| && DropEvents(c)[i] == DropEvents(c)[j])
            <==> c.socket.Some? && c.socket == c.control
  {
    var events := DropEvents(c);
    if c.socket.Some? && c.socket == c.control {
      assert events[0] == events[|events| - 1];
    }
  }

  /** In a sound session that is exactly an even hello counter. */
  lemma DropClosesTwiceIffEven(log: seq<Event>, odd: bool, c: Channels, lost: set<nat>)
    requires Sound(log, odd, c, lost) && c.socket.Some?
    ensures (exists i, j :: 0 <= i < j < |DropEvents(c)| && DropEvents(c)[i] == DropEvents(c)[j]) <==> !odd
  {
    OneParity(log, odd, c.socket.value);
    hide Greeted, Core;
    assert c.socket != c.transfer;
    DropClosesTwiceExactly(c);
  }

  lemma CloseChannel(log: seq<Event>, c: Option<nat>, odd: bool, live: set<nat>)
    requires Core(log, odd, live)
    requires c.Some? ==> c.value in live || (!odd && WasOpened(log, c.value))
    ensures Core(log + Closing(c), odd, live - One(c))
  {
    if c.Some? {
      assert c.value in live ==> Open(log, c.value);
      CoreClose(log, c.value, odd, live);
    } else {
      assert log + [] == log;
      assert live - One(c) == live;
    }
  }

  predicate WasOpened(log: seq<Event>, id: nat) {
    id < |log| && log[id] == Opened(id)
  }

  lemma HeldRemoved(c: Channels, odd: bool, lost: set<nat>)
    requires c.Shape(odd) && c.Held() !! lost && (c.socket.Some? ==> c.socket != c.transfer)
    ensures var v0 := c.Held() + lost;
            && (c.socket.Some? ==> c.socket.value in v0)
            && (Second(c).Some? ==> Second(c).value in v0 - One(c.socket))
            && (c.control.Some? ==>
                c.control.value in v0 - One(c.socket) - One(Second(c)) || (!odd && c.control == c.socket))
            && v0 - One(c.socket) - One(Second(c)) - One(c.control) == lost
  {
  }

  lemma DropEventsInOrder(c: Channels, log: seq<Event>)
    ensures log + Closing(c.socket) + Closing(Second(c)) + Closing(c.control) == log + DropEvents(c)
  {
  }

  lemma HeldFacts(log: seq<Event>, odd: bool, c: Channels, lost: set<nat>)
    requires Sound(log, odd, c, lost)
    ensures Core(log, odd, c.Held() + lost) && c.Held() !! lost && c.Shape(odd)
    ensures c.socket.Some? ==> c.socket != c.transfer && WasOpened(log, c.socket.value)
  {
    if c.socket.Some? {
      OneParity(log, odd, c.socket.value);
      assert Open(log, c.socket.value);
    }
  }

  lemma CloseAll(log: seq<Event>, odd: bool, c: Channels, lost: set<nat>)
    requires Core(log, odd, c.Held() + lost) && c.Held() !! lost && c.Shape(odd)
    requires c.socket.Some? ==> c.socket != c.transfer && WasOpened(log, c.socket.value)
    ensures Core(log + DropEvents(c), odd, lost)
  {
    hide Core, DropEvents, Second, Channels.Shape, Channels.Held, One;
    HeldRemoved(c, odd, lost);
    var second := Second(c);
    var v0 := c.Held() + lost;
    var v1 := v0 - One(c.socket);
    var v2 := v1 - One(second);
    var l1 := log + Closing(c.socket);
    var l2 := l1 + Closing(second);
    CloseChannel(log, c.socket, odd, v0);
    CloseChannel(l1, second, odd, v1);
    assert c.socket.Some? ==> l2[c.socket.value] == log[c.socket.value];
    CloseChannel(l2, c.control, odd, v2);
    DropEventsInOrder(c, log);
  }

  lemma SoundDrop(log: seq<Event>, odd: bool, c: Channels, lost: set<nat>)
    requires Sound(log, odd, c, lost)
    ensures Sound(log + DropEvents(c), odd, Channels(None, None, None), lost)
  {
    hide Core, DropEvents, Greeted;
    HeldFacts(log, odd, c, lost);
    CloseAll(log, odd, c, lost);
    assert Channels(None, None, None).Held() + lost == lost;
  }

  // ------------------------------------------------------------- the frames

  /** What the receive calls make of the bytes that arrive: first a header, then the body it announces. */
  function Receive(bytes: seq<byte>): (r: Result<(Pdu, seq<byte>)>) {
    if |bytes| < HEADER then Fail(Transport(0x91)) else
    match Split(bytes[..HEADER])
    case Ok(one) => Ok((one.0, []))
    case Fail(e) =>
      if e != OutOfRange then Fail(e) else
      var total := HEADER + Be16(bytes[8], bytes[9]);
      if total > HEADER + MAX_BODY then Fail(ERR_LENGTH)
      else if |bytes| < total then Fail(Transport(0x92))
      else match Split(bytes[..total])
        case Ok(one) => Ok((one.0, bytes[HEADER..total]))
        case Fail(again) => Fail(again)
  }

  /** A frame that arrives whole is received as it was built, whatever follows it. */
  lemma ReceiveBuilt(func: byte, dir: byte, body: seq<byte>, rest: seq<byte>)
    requires 1 <= dir <= 4 && |body| <= 4096
    ensures Receive(FrameBytes(func, dir, body) + rest) == Ok((Pdu(1, func, dir, |body|), body))
  {
    hide PutBe16;
    var bytes := FrameBytes(func, dir, body) + rest;
    SplitBuilt(func, dir, body, []);
    SplitBuilt(func, dir, body, rest);
    assert bytes[..HEADER + |body|] == FrameBytes(func, dir, body) + [];
    assert bytes[8] == PutBe16(|body|)[0] && bytes[9] == PutBe16(|body|)[1];
    assert bytes[..HEADER + |body|][..HEADER] == bytes[..HEADER];
    if |body| > 0 {
      assert Split(bytes[..HEADER]) == Fail(OutOfRange);
    }
  }

  /** A frame that announces more than that is refused as soon as its header is there. */
  lemma LongBodyIsRefused(bytes: seq<byte>)
    requires |bytes| >= 10 && bytes[8] as int * 0x100 + bytes[9] as int > 4096
    requires bytes[0] == bytes[1] == bytes[2] == bytes[3] == 0xA0 && 1 <= bytes[7] <= 4
    ensures Receive(bytes) == Fail(Protocol(0xB2))
  {
    var header := bytes[..10];
    SplitExactly(header);
  }

  /** A link counts as lost when less than a header arrives, or less than a sound header announces. */
  lemma ShortIsLost(bytes: seq<byte>)
    ensures |bytes| < 10 ==> Receive(bytes) == Fail(Transport(0x91))
    ensures |bytes| >= 10 && bytes[0] == bytes[1] == bytes[2] == bytes[3] == 0xA0 && 1 <= bytes[7] <= 4 ==>
              var length := bytes[8] as int * 0x100 + bytes[9] as int;
              |bytes| - 10 < length <= 4096 ==> Receive(bytes) == Fail(Transport(0x92))
    ensures |bytes| >= 10 && !(bytes[0] == bytes[1] == bytes[2] == bytes[3] == 0xA0 && 1 <= bytes[7] <= 4) ==>
              Receive(bytes) in {Fail(Protocol(0xB0)), Fail(Protocol(0xB1))}
  {
    if |bytes| >= 10 {
      SplitExactly(bytes[..10]);
    }
  }

  /** A reply must be of the function asked for; direction 3 says there is no such datum. */
  function Accept(pdu: Pdu, func: byte): Result<()> {
    if pdu.func != func then Fail(ERR_HEADER)
    else if pdu.dir == DIR_STATUS then Fail(ERR_NO_DATA)
    else if pdu.dir != DIR_REPLY then Fail(ERR_HEADER)
    else Ok(())
  }

  predicate AnsweredWith(w: Wire, func: byte, reply: seq<byte>) {
    w.Answer? && Receive(w.bytes).Ok? &&
    var got := Receive(w.bytes).value;
    got.1 == reply && got.0.func == func && got.0.dir == 2
  }

  predicate LinkLost<T>(r: Result<T>) {
    r.Fail? && r.error.Transport?
  }

  // --------------------------------------------- what the world makes of a run

  /** What one sending comes to. */
  function Arrived(w: Wire): Result<(Pdu, seq<byte>)> {
    if w.NotSent? then Fail(Transport(0x90)) else Receive(w.bytes)
  }

  /** The log once a frame was sent, and sent again while the link was lost and retries were left. */
  function Tried(wire: seq<Event> -> Wire, log: seq<Event>, e: Event, retries: nat): (sent: seq<Event>)
    ensures log < sent && |sent| <= |log| + retries + 1
    ensures sent == log + Times(e, |sent| - |log|)
    decreases retries
  {
    var once := log + [e];
    if !LinkLost(Arrived(wire(once))) || retries == 0 then once
    else
      var sent := Tried(wire, once, e, retries - 1);
      TimesMore(log, e, |sent| - |once|);
      sent
  }

  function Times(e: Event, n: nat): seq<Event> {
    seq(n, _ => e)
  }

  lemma TimesMore(log: seq<Event>, e: Event, n: nat)
    ensures log + [e] + Times(e, n) == log + Times(e, n + 1)
  {
  }

  /** Every one of the retries + 1 sendings is lost. */
  ghost predicate AllLost(wire: seq<Event> -> Wire, log: seq<Event>, e: Event, retries: nat) {
    forall n: nat :: 1 <= n <= retries + 1 ==> LinkLost(Arrived(wire(log + Times(e, n))))
  }

  /** A frame is given up exactly when every one of its sendings is lost. */
  lemma {:induction false} TriedIsLost(wire: seq<Event> -> Wire, log: seq<Event>, e: Event, retries: nat)
    ensures LinkLost(Arrived(wire(Tried(wire, log, e, retries)))) <==> AllLost(wire, log, e, retries)
    decreases retries
  {
    var once := log + [e];
    TriedOnce(wire, log, e, retries);
    OnceIsLost(wire, log, e, retries);
    hide Arrived, AllLost, Tried, Times;
    if LinkLost(Arrived(wire(once))) && retries > 0 {
      TriedIsLost(wire, once, e, retries - 1);
      AllLostShifts(wire, log, e, retries);
    }
  }

  lemma OnceIsLost(wire: seq<Event> -> Wire, log: seq<Event>, e: Event, retries: nat)
    ensures AllLost(wire, log, e, retries) ==> LinkLost(Arrived(wire(log + [e])))
    ensures retries == 0 && LinkLost(Arrived(wire(log + [e]))) ==> AllLost(wire, log, e, retries)
  {
    hide Arrived;
    assert log + [e] == log + Times(e, 1);
  }

  lemma AllLostShifts(wire: seq<Event> -> Wire, log: seq<Event>, e: Event, retries: nat)
    requires retries > 0 && LinkLost(Arrived(wire(log + [e])))
    ensures AllLost(wire, log, e, retries) <==> AllLost(wire, log + [e], e, retries - 1)
  {
    hide Arrived;
    var once := log + [e];
    assert once == log + Times(e, 1);
    if AllLost(wire, once, e, retries - 1) {
      forall n: nat | 1 <= n <= retries + 1
        ensures LinkLost(Arrived(wire(log + Times(e, n))))
      {
        if n > 1 {
          TimesMore(log, e, n - 1);
          assert LinkLost(Arrived(wire(once + Times(e, n - 1))));
        }
      }
    }
    if AllLost(wire, log, e, retries) {
      forall n: nat | 1 <= n <= retries
        ensures LinkLost(Arrived(wire(once + Times(e, n))))
      {
        var m := n + 1;
        TimesMore(log, e, n);
        assert LinkLost(Arrived(wire(log + Times(e, m))));
      }
    }
  }

  lemma TriedOnce(wire: seq<Event> -> Wire, log: seq<Event>, e: Event, retries: nat)
    ensures Tried(wire, log, e, retries) ==
            if !LinkLost(Arrived(wire(log + [e]))) || retries == 0 then log + [e]
            else Tried(wire, log + [e], e, retries - 1)
  {
    hide Arrived;
  }

  lemma TriedShutsNothing(wire: seq<Event> -> Wire, log: seq<Event>, e: Event, retries: nat,
                          a: Option<nat>, b: Option<nat>)
    requires e.Sent?
    ensures var sent := Tried(wire, log, e, retries);
            && (a.Some? ==> (Shut(a.value) in sent <==> Shut(a.value) in log))
            && (b.Some? ==> (Shut(b.value) in sent <==> Shut(b.value) in log))
  {
    hide Tried;
    NoShut(log, Tried(wire, log, e, retries), a, b);
  }

  lemma TriedSends(wire: seq<Event> -> Wire, log: seq<Event>, e: Event, retries: nat)
    ensures var sent := Tried(wire, log, e, retries);
            && e in sent[|log|..] && |sent| <= |log| + retries + 1
            && forall k :: |log| <= k < |sent| ==> sent[k] == e
  {
    hide Tried;
    var sent := Tried(wire, log, e, retries);
    assert sent[|log|] == e;
  }

  /** On a shut connection every sending fails. */
  lemma {:induction false} ShutIsGivenUp(wire: seq<Event> -> Wire, log: seq<Event>, e: Event, retries: nat)
    requires Silent(wire) && e.Sent? && Shut(e.id) in log
    ensures Arrived(wire(Tried(wire, log, e, retries))) == Fail(Transport(0x90))
    decreases retries
  {
    var once := log + [e];
    assert wire(once).NotSent?;
    if retries > 0 {
      assert Shut(e.id) in once;
      ShutIsGivenUp(wire, once, e, retries - 1);
    }
  }

  /** A hello is good when its answer is a reply of at least a block head. */
  predicate Welcomed(got: Result<(Pdu, seq<byte>)>) {
    got.Ok? && Accept(got.value.0, HELLO).Ok? && |got.value.1| >= 16
  }

  /** The log after a connection was opened and greeted with a counter. */
  function Hailed(wire: seq<Event> -> Wire, log: seq<Event>, count: nat, retries: nat): seq<Event> {
    Tried(wire, log + [Opened(|log|)], HelloFrame(|log|, count), retries)
  }

  /** The connection comes up and its hello is answered as it should. */
  predicate Joins(connects: seq<Event> -> bool, wire: seq<Event> -> Wire, log: seq<Event>, count: nat, retries: nat) {
    connects(log) && Welcomed(Arrived(wire(Hailed(wire, log, count, retries))))
  }

  /** Both connections of a session come up. */
  predicate Opens(connects: seq<Event> -> bool, wire: seq<Event> -> Wire, log: seq<Event>, count: nat, retries: nat) {
    && Joins(connects, wire, log, count, retries)
    && Joins(connects, wire, Hailed(wire, log, count, retries), count + 1, retries)
  }

  /** The first connection joins, the second is opened and its hello is not answered as it should. */
  predicate Leaks(connects: seq<Event> -> bool, wire: seq<Event> -> Wire, log: seq<Event>, count: nat, retries: nat) {
    var first := Hailed(wire, log, count, retries);
    && Joins(connects, wire, log, count, retries)
    && connects(first) && !Joins(connects, wire, first, count + 1, retries)
  }

  /** The frame of the probe on a command channel. */
  function ProbeFrame(id: nat): Event {
    Sent(id, COMMAND, DIR_REQUEST, Body([CbInit(SYSINFO)]))
  }

  /** The parity of a hello counter decides what its connection is for. */
  predicate IsOdd(count: nat) {
    count % 2 == 1
  }

  lemma NextIsOther(count: nat)
    ensures IsOdd(count + 1) <==> !IsOdd(count)
  {
  }

  /** The connection that is the command channel after an opening that began with this log. */
  function CommandChannel(wire: seq<Event> -> Wire, log: seq<Event>, count: nat, retries: nat): nat {
    if IsOdd(count) then |Hailed(wire, log, count, retries)| else |log|
  }

  /** Every sending of the probe is lost. */
  ghost predicate Deafens(wire: seq<Event> -> Wire, log: seq<Event>, count: nat, retries: nat) {
    var greeted := Hailed(wire, Hailed(wire, log, count, retries), count + 1, retries);
    AllLost(wire, greeted, ProbeFrame(CommandChannel(wire, log, count, retries)), retries)
  }

  lemma FirstFails(connects: seq<Event> -> bool, wire: seq<Event> -> Wire, log: seq<Event>, count: nat, retries: nat)
    requires !Joins(connects, wire, log, count, retries)
    ensures !Opens(connects, wire, log, count, retries) && !Leaks(connects, wire, log, count, retries)
  {
    hide Joins, Hailed;
  }

  lemma FirstJoins(connects: seq<Event> -> bool, wire: seq<Event> -> Wire, log: seq<Event>, count: nat, retries: nat,
                   next: seq<Event>)
    requires Joins(connects, wire, log, count, retries) && next == Hailed(wire, log, count, retries)
    ensures Opens(connects, wire, log, count, retries) <==> Joins(connects, wire, next, count + 1, retries)
    ensures Leaks(connects, wire, log, count, retries) <==>
            connects(next) && !Joins(connects, wire, next, count + 1, retries)
  {
    hide Joins, Hailed;
  }

  lemma BothJoined(wire: seq<Event> -> Wire, log: seq<Event>, count: nat, retries: nat, next: seq<Event>,
                   greeted: seq<Event>)
    requires next == Hailed(wire, log, count, retries) && greeted == Hailed(wire, next, count + 1, retries)
    ensures Deafens(wire, log, count, retries) <==>
            AllLost(wire, greeted, ProbeFrame(if IsOdd(count) then |next| else |log|), retries)
  {
    hide Hailed, AllLost, ProbeFrame, IsOdd;
  }

  /** A shut connection sends nothing any more. */
  ghost predicate Silent(wire: seq<Event> -> Wire) {
    forall log: seq<Event>, e: Event :: e.Sent? && Shut(e.id) in log ==> wire(log + [e]).NotSent?
  }

  /** The machine took a transfer frame: a plain reply, or a status answer whose code is zero. */
  predicate Taken(got: Result<(Pdu, seq<byte>)>, func: byte) {
    got.Ok? && got.value.0.func == func &&
    (got.value.0.dir == DIR_REPLY || (got.value.0.dir == DIR_STATUS && |got.value.1| >= 4
        && BeNat(got.value.1[..4]) == 0))
  }

  /** The same, byte by byte. */
  lemma TakenExactly(got: Result<(Pdu, seq<byte>)>, func: byte)
    ensures Taken(got, func) <==>
              && got.Ok? && got.value.0.func == func
              && var (dir, body) := (got.value.0.dir, got.value.1);
                 dir == 2 || (dir == 3 && |body| >= 4 && body[0] == body[1] == body[2] == body[3] == 0)
  {
    if got.Ok? && |got.value.1| >= 4 {
      FourBytesSay(got.value.1[..4]);
    }
  }

  lemma FourBytesSay(s: seq<byte>)
    requires |s| == 4
    ensures BeNat(s) == s[0] as int * 0x100_0000 + s[1] as int * 0x1_0000 + s[2] as int * 0x100 + s[3] as int
  {
    assert s[..3][..2] == s[..2] && s[..2][..1] == s[..1] && s[..1][..0] == [];
    assert BeNat(s[..1]) == s[0];
    assert BeNat(s[..2]) == BeNat(s[..1]) * 0x100 + s[1] as int;
    assert BeNat(s[..3]) == BeNat(s[..2]) * 0x100 + s[2] as int;
  }

  /** Since `from`, data frames on this channel carried exactly this text, and the end frame behind them was taken. */
  ghost predicate Delivered(wire: seq<Event> -> Wire, log: seq<Event>, from: nat, channel: nat, text: seq<byte>) {
    && Taken(Arrived(wire(log)), END)
    && exists a, b :: from < a <= b < |log| && DataOn(log[a..b], channel) && Carried(log[a..b]) == text
         && forall k :: b <= k < |log| ==> log[k] == Sent(channel, 0x13, 1, [])
  }

  /** Data frames of one channel, none empty and none longer than a piece may be. */
  predicate DataOn(events: seq<Event>, channel: nat) {
    forall k :: 0 <= k < |events| ==>
      var e := events[k];
      e.Sent? && e.id == channel && e.func == 0x12 && e.dir == 4 && 0 < |e.body| <= 1400
  }

  /** The error of a status answer: the low byte of its code, and of the detail if there is one. */
  function StatusError(body: seq<byte>): Err
    requires |body| >= 4
  {
    var detail := if |body| >= 6 then Be16(body[4], body[5]) else 0;
    Business(0x40 + BeNat(body[..4]) % 0x100 * 0x100 + detail % 0x100 * 0x1_0000)
  }

  /** The same, byte by byte: byte 3 of the answer, and byte 5 if it is there. */
  lemma StatusErrorIs(body: seq<byte>)
    requires |body| >= 4
    ensures StatusError(body)
              == Business(0x40 + body[3] as nat * 0x100 + (if |body| >= 6 then body[5] as nat else 0) * 0x1_0000)
  {
    FourBytesSay(body[..4]);
    hide BeNat;
    LowByte(body[0] as nat * 0x1_0000 + body[1] as nat * 0x100 + body[2] as nat, body[3]);
    if |body| >= 6 {
      LowByte(body[4], body[5]);
    }
  }

  lemma LowByte(k: nat, low: byte)
    ensures (0x100 * k + low) % 0x100 == low
  {
    assert (0x100 * k + low) / 0x100 == k;
  }

  /** The frame that greets a connection with a counter. */
  function HelloFrame(id: nat, count: nat): Event {
    Sent(id, HELLO, DIR_REQUEST, [0, count % 0x100])
  }

  /** The pieces a program text goes out in. */
  function ChunkEvents(id: nat, text: seq<byte>): (events: seq<Event>) {
    if text == [] then [] else
      var n := if |text| > CHUNK then CHUNK else |text|;
      [Sent(id, DATA, DIR_DATA, text[..n])] + ChunkEvents(id, text[n..])
  }

  /** The bodies of data frames, one behind the other. */
  function Carried(events: seq<Event>): seq<byte> {
    if events == [] then [] else
      (if events[0].Sent? && events[0].func == DATA then events[0].body else []) + Carried(events[1..])
  }

  /** Put together, the pieces are the text; all but the last are full. */
  lemma {:induction false} ChunksCarryText(id: nat, text: seq<byte>)
    ensures Carried(ChunkEvents(id, text)) == text
    ensures forall k :: 0 <= k < |ChunkEvents(id, text)| ==>
              var e := ChunkEvents(id, text)[k];
              e.Sent? && (k < |ChunkEvents(id, text)| - 1 ==> |e.body| == 1400)
    ensures DataOn(ChunkEvents(id, text), id)
    decreases |text|
  {
    if text != [] {
      var n := if |text| > CHUNK then CHUNK else |text|;
      var rest := ChunkEvents(id, text[n..]);
      ChunksCarryText(id, text[n..]);
      assert ChunkEvents(id, text)[1..] == rest;
      assert text == text[..n] + text[n..];
      if n == |text| {
        assert rest == [];
      }
    }
  }

  /** The 516 bytes that start a transfer: byte 1 says what kind of data, and the name stands from byte 6 on. */
  predicate IsStart(s: seq<byte>, kind: int, name: seq<byte>) {
    && |s| == 516 && |name| <= 510
    && s[0] == 0 && s[1] == kind && s[2] == 0 && s[3] == 1 && s[4] == 0x4E && s[5] == 0x3A
    && (forall i :: 0 <= i < |name| ==> s[6 + i] == name[i])
    && (forall i :: 6 + |name| <= i < 516 ==> s[i] == 0)
  }

  /** Since `from`, a transfer of this kind and name was started on the channel, and none of another. */
  ghost predicate Started(log: seq<Event>, from: nat, channel: nat, kind: int, name: seq<byte>) {
    && (exists k :: from <= k < |log| && StartFrame(log[k], channel, kind, name))
    && (forall k :: from <= k < |log| && log[k].Sent? && log[k].func == 0x11 ==>
          StartFrame(log[k], channel, kind, name))
  }

  predicate StartFrame(e: Event, channel: nat, kind: int, name: seq<byte>) {
    e.Sent? && e.id == channel && e.func == 0x11 && e.dir == 1 && IsStart(e.body, kind, name)
  }

  /** The fixed-size body that starts a transfer. */
  function StartBody(kind: byte, name: seq<byte>): (s: seq<byte>)
    requires |name| <= TRANSFER_BODY - 6
    ensures |s| == TRANSFER_BODY && IsStart(s, kind, name)
  {
    [0, kind, 0, 1, 'N' as byte, ':' as byte] + name + seq(TRANSFER_BODY - 6 - |name|, _ => 0)
  }

  /** The log of a transfer: its start frame, some times, then the text, then the end frame, some times. */
  lemma StartedOnce(started: seq<Event>, sent: seq<Event>, log: seq<Event>, from: nat, channel: nat, kind: byte,
                    name: seq<byte>, text: seq<byte>)
    requires |name| <= TRANSFER_BODY - 6 && from < |started| && started + sent <= log
    requires forall k :: from <= k < |started| ==>
               log[k] == Sent(channel, START, DIR_REQUEST, StartBody(kind, name))
    requires sent == ChunkEvents(channel, text)
    requires forall k :: |started| + |sent| <= k < |log| ==> log[k] == Sent(channel, END, DIR_REQUEST, [])
    ensures Started(log, from, channel, kind, name)
  {
    hide IsStart, StartBody, ChunkEvents;
    ChunksCarryText(channel, text);
    assert StartFrame(log[from], channel, kind, name);
    assert DataOn(sent, channel);
    assert forall k :: |started| <= k < |started| + |sent| ==> log[k] == (started + sent)[k] == sent[k - |started|];
  }

  datatype Op = OpOpen | OpCommand(body: seq<byte>) | OpDownload(kind: int, name: seq<byte>, text: seq<byte>) | OpClose

  class Session {
    const retries: nat
    const counter: nat
    const negotiate: bool
    /** The world: whether a connect succeeds and what follows the frame sent last, given all that happened. */
    const connects: seq<Event> -> bool
    const wire: seq<Event> -> Wire

    var socket: Option<nat>
    var control: Option<nat>
    var transfer: Option<nat>
    var session: bool
    var log: seq<Event>
    /** Second connections whose hello failed: open, and held by no field. */
    ghost var lost: set<nat>
    /** The probe broke the link while the session was being set up. */
    ghost var deaf: bool

    ghost predicate Odd()
      reads this
    {
      IsOdd(counter)
    }

    ghost function Fields(): Channels
      reads this
    {
      Channels(socket, control, transfer)
    }

    ghost predicate Steady()
      reads this
    {
      Sound(log, Odd(), Fields(), lost)
    }

    ghost predicate Valid()
      reads this
    {
      && Steady()
      && (session ==> socket.Some? && transfer.Some?)
      && (session ==> (deaf <==> Shut(socket.value) in log) && (deaf <==> Shut(transfer.value) in log))
    }

    constructor (retries: nat, counter: nat, negotiate: bool, connects: seq<Event> -> bool, wire: seq<Event> -> Wire)
      ensures Valid() && log == [] && !session && lost == {} && Fields() == Channels(None, None, None)
      ensures this.retries == retries && this.counter == counter && this.negotiate == negotiate
      ensures this.connects == connects && this.wire == wire
    {
      this.retries, this.counter, this.negotiate := retries, counter, negotiate;
      this.connects, this.wire := connects, wire;
      socket, control, transfer, session, log := None, None, None, false, [];
      lost, deaf := {}, false;
    }

    method Emit(e: Event)
      requires Steady() && Allowed(log, e, Odd()) && (e.NotOpened? || e.Sent? || e.Shut?)
      modifies this`log
      ensures Steady() && log == old(log) + [e]
    {
      SoundEmit(log, e, Odd(), Fields(), lost);
      log := log + [e];
    }

    method Connect() returns (r: Option<nat>)
      requires Valid() && !session
      modifies this`log, this`lost
      ensures Valid()
      ensures r.Some? ==> Open(log, r.value)
      ensures r.None? ==> lost == old(lost) && log == old(log) + [NotOpened]
      ensures r.Some? ==>
                r.value == |old(log)| && r.value !in old(Fields().Held() + lost) && lost == old(lost) + {r.value}
      ensures r.Some? ==> log == old(log) + [Opened(r.value)] && Shut(r.value) !in log
      ensures r.Some? ==> forall parity :: !Greeted(log, r.value, parity)
      ensures r.Some? <==> connects(old(log))
    {
      hide Sound, Greeted;
      if !connects(log) {
        Emit(NotOpened);
        return None;
      }
      NeverShut(log, Odd(), Fields(), lost);
      SoundOpen(log, Odd(), Fields(), lost);
      r := Some(|log|);
      lost := lost + {|log|};
      log := log + [Opened(|log|)];
      FreshChannel(log, Odd(), Fields(), lost, r.value);
    }

    method ShutOne(id: nat)
      requires Steady() && Open(log, id)
      modifies this`log
      ensures Steady() && log == old(log) + [Shut(id)]
      ensures forall other: nat :: Open(old(log), other) ==> Open(log, other)
    {
      hide Sound, Greeted;
      ghost var before := log;
      Emit(Shut(id));
      forall other: nat | Open(before, other)
        ensures Open(log, other)
      {
        StillOpen(before, log, other);
      }
    }

    /** Shuts the channel that failed and the others the fields hold, each once. */
    method ShutAll(id: nat)
      requires Steady() && Open(log, id)
      modifies this`log
      ensures Steady() && old(log) <= log
      ensures forall k :: |old(log)| <= k < |log| ==> log[k].Shut?
      ensures Shut(id) in log
      ensures forall c: nat :: c in Fields().Held() ==> Shut(c) in log
    {
      hide Sound, Open, Greeted;
      HeldOpen(log, Odd(), Fields(), lost);
      ShutOne(id);
      if socket.Some? && socket != Some(id) {
        ShutOne(socket.value);
      }
      if transfer.Some? && transfer != Some(id) && transfer != socket {
        ShutOne(transfer.value);
      }
      if control.Some? && control != Some(id) && control != transfer && control != socket {
        ShutOne(control.value);
      }
    }

    /** One frame out, one frame in, and again while the link is lost and retries are left. */
    method SendAndReceive(e: Event) returns (got: Result<(Pdu, seq<byte>)>)
      requires Valid() && e.Sent? && Allowed(log, e, Odd())
      modifies this`log
      ensures Valid() && log == Tried(wire, old(log), e, retries) && got == Arrived(wire(log))
      ensures Allowed(log, e, Odd())
    {
      hide Sound, Greeted, Arrived, Allowed, Tried, Open;
      got := Fail(Transport(0x90));
      var attempt := 0;
      while true
        invariant Steady() && Allowed(log, e, Odd()) && 0 <= attempt <= retries
        invariant Tried(wire, log, e, retries - attempt) == Tried(wire, old(log), e, retries)
        decreases retries - attempt
      {
        AllowedAgain(log, e, Odd());
        TriedOnce(wire, log, e, retries - attempt);
        Emit(e);
        got := Arrived(wire(log));
        if !LinkLost(got) || attempt >= retries {
          break;
        }
        attempt := attempt + 1;
      }
      TriedShutsNothing(wire, old(log), e, retries, socket, transfer);
    }

    /**
     * One frame out, one frame in, again on a lost link while retries are left. A
     * link that stays lost takes the whole session with it.
     */
    method ExchangeOn(channel: Option<nat>, func: byte, body: seq<byte>) returns (r: Result<()>, reply: seq<byte>)
      requires Valid()
      requires channel.Some? ==> Allowed(log, Sent(channel.value, func, DIR_REQUEST, body), Odd())
      modifies this`log, this`session
      ensures Valid() && old(log) <= log
      ensures session == (old(session) && !(channel.Some? && LinkLost(r)))
      ensures channel.None? ==> log == old(log) && r == Fail(Transport(0x90))
      ensures channel.Some? ==> forall k :: |old(log)| <= k < |log| ==>
                log[k] == Sent(channel.value, func, DIR_REQUEST, body) || (LinkLost(r) && log[k].Shut?)
      ensures channel.Some? && LinkLost(r) ==> forall c: nat :: c in Fields().Held() + {channel.value} ==>
                Shut(c) in log
      ensures channel.Some? && |body| > 4096 ==> log == old(log) && r == Fail(OutOfRange) && reply == []
      ensures channel.Some? && |body| <= 4096 ==>
                var e := Sent(channel.value, func, DIR_REQUEST, body);
                var sent := Tried(wire, old(log), e, retries);
                && e in sent[|old(log)|..] && sent <= log && (!LinkLost(r) ==> log == sent)
                && match Arrived(wire(sent))
                   case Fail(error) => r == Fail(error) && reply == []
                   case Ok(got) => r == Accept(got.0, func) && reply == got.1
      ensures r.Ok? ==> AnsweredWith(wire(log), func, reply)
    {
      hide Sound, Greeted, Receive, Allowed, Tried;
      reply := [];
      if channel.None? {
        return Fail(Transport(0x90)), reply;
      }
      if |body| > MAX_BODY {
        return Fail(OutOfRange), reply;
      }
      ghost var e := Sent(channel.value, func, DIR_REQUEST, body);
      TriedSends(wire, log, e, retries);
      var got := SendAndReceive(Sent(channel.value, func, DIR_REQUEST, body));
      if got.Fail? {
        if LinkLost(got) {
          SentOpen(log, e, Odd());
          session := false;
          ShutAll(channel.value);
        }
        return Fail(got.error), reply;
      }
      reply := got.value.1;
      r := Accept(got.value.0, func);
    }

    /** Greets a connection; the counter's parity is what it will be used for. */
    method Greet(id: nat, count: nat) returns (r: Result<()>)
      requires Valid() && !session && Open(log, id) && !Greeted(log, id, !IsOdd(count))
      modifies this`log, this`session
      ensures Valid() && !session && old(log) <= log
      ensures forall k :: |old(log)| <= k < |log| ==> (log[k].Sent? && log[k].id == id) || (r.Fail? && log[k].Shut?)
      ensures Greeted(log, id, IsOdd(count)) && HelloFrame(id, count) in log
      ensures Sent(id, 1, 1, [0, count % 0x100]) in log
      ensures var sent := Tried(wire, old(log), HelloFrame(id, count), retries);
              sent <= log && (r.Ok? <==> Welcomed(Arrived(wire(sent)))) && (r.Ok? ==> log == sent)
    {
      hide Sound, Open, Tried, Receive;
      var body: seq<byte> := [0, count % 0x100];
      ParityOfByte(count);
      ghost var hello := Sent(id, HELLO, DIR_REQUEST, body);
      var reply;
      r, reply := ExchangeOn(Some(id), HELLO, body);
      assert Hello(hello, id, IsOdd(count));
      if r.Ok? && |reply| < 16 {
        r := Fail(ERR_LENGTH);
      }
    }

    /** One command block on the command channel: a courtesy, whose failure is not an error. */
    method Probe()
      requires Valid() && !session && socket.Some? && transfer.Some?
      requires Shut(socket.value) !in log && Shut(transfer.value) !in log
      modifies this`log, this`session, this`deaf
      ensures Valid() && !session && old(log) <= log
      ensures deaf <==> Shut(socket.value) in log
      ensures deaf <==> Shut(transfer.value) in log
      ensures deaf <==> AllLost(wire, old(log), ProbeFrame(socket.value), retries)
      ensures ProbeFrame(socket.value) in log
      ensures Sent(socket.value, 0x21, 1, Body([Cb(1, 1, 24, 0, 0, 0, 0, 0, 0)])) in log
    {
      hide Sound, Greeted, Body, Allowed, Tried, AllLost;
      TriedIsLost(wire, log, ProbeFrame(socket.value), retries);
      var body := Body([CbInit(SYSINFO)]);
      CommandAllowed(log, Odd(), Fields(), lost, DIR_REQUEST, body);
      ghost var before := log;
      var r, reply := ExchangeOn(socket, COMMAND, body);
      deaf := LinkLost(r);
      if deaf {
        assert socket.value in Fields().Held() && transfer.value in Fields().Held();
      } else {
        NoShut(before, log, socket, transfer);
      }
    }

    /** Drops both connections without a word. */
    method Drop()
      requires Valid()
      modifies this`log, this`socket, this`control, this`transfer, this`session
      ensures Valid() && !session && Fields() == Channels(None, None, None)
      ensures log == old(log) + DropEvents(old(Fields()))
    {
      hide Sound;
      SoundDrop(log, Odd(), Fields(), lost);
      ghost var events := DropEvents(Fields());
      ghost var before := log;
      if socket.Some? {
        log := log + [Closed(socket.value)];
        socket := None;
      }
      if transfer.Some? && transfer != control {
        log := log + [Closed(transfer.value)];
      }
      transfer := None;
      if control.Some? {
        log := log + [Closed(control.value)];
        control := None;
      }
      session := false;
      assert log == before + events;
    }

    /** The first connection: held as control, and greeted with the counter. */
    method FirstChannel() returns (r: Result<nat>)
      requires Valid() && !session && Fields() == Channels(None, None, None)
      modifies this
      ensures Valid() && !session && old(log) <= log && lost == old(lost)
      ensures r.Fail? ==> Fields() == Channels(None, None, None) || Fields() == Channels(None, control, None)
      ensures r.Ok? ==> Fields() == Channels(None, Some(r.value), None) && Greeted(log, r.value, IsOdd(counter))
      ensures r.Ok? ==> Shut(r.value) !in log && HelloFrame(r.value, counter) in log
      ensures r.Ok? <==> Joins(connects, wire, old(log), counter, retries)
      ensures r.Ok? ==> r.value == |old(log)| && log == Hailed(wire, old(log), counter, retries)
    {
      hide Sound, Greeted, Open, Allowed, Channels.Held, Tried, Welcomed, Arrived, IsOdd;
      var first := Connect();
      if first.None? {
        return Fail(Transport(0x93));
      }
      TakeControl(log, Odd(), first.value, lost);
      control := first;
      lost := lost - {first.value};
      ghost var before := log;
      var greeting := Greet(first.value, counter);
      if greeting.Fail? {
        return Fail(greeting.error);
      }
      NoShut(before, log, first, first);
      return Ok(first.value);
    }

    /** The second connection, greeted with the next counter; no field holds it yet. */
    method SecondChannel(first: nat) returns (r: Result<nat>, ghost leak: Option<nat>)
      requires Valid() && !session && Fields() == Channels(None, Some(first), None)
      requires Greeted(log, first, IsOdd(counter)) && Shut(first) !in log
      modifies this
      ensures Valid() && !session && old(log) <= log && Fields() == old(Fields())
      ensures r.Ok? ==> leak == Some(r.value) && r.value != first
      ensures r.Ok? ==> Shut(first) !in log && Shut(r.value) !in log && Greeted(log, first, IsOdd(counter))
      ensures r.Ok? ==> HelloFrame(r.value, counter + 1) in log
      ensures lost == old(lost) + One(leak)
      ensures leak.Some? ==> leak.value !in old(lost) && Greeted(log, leak.value, !IsOdd(counter))
      ensures leak.Some? <==> connects(old(log))
      ensures r.Ok? <==> Joins(connects, wire, old(log), counter + 1, retries)
      ensures r.Ok? ==> r.value == |old(log)| && log == Hailed(wire, old(log), counter + 1, retries)
    {
      hide Sound, Greeted, Open, Allowed, Tried, Welcomed, Arrived, Channels.Held, Session.Valid, HelloFrame, IsOdd;
      leak := None;
      NextIsOther(counter);
      HoldsControl(Fields());
      ghost var start := log;
      var second := Connect();
      if second.None? {
        return Fail(Transport(0x93)), leak;
      }
      leak := second;
      assert second.value !in old(Fields().Held());
      ghost var before := log;
      var greeting := Greet(second.value, counter + 1);
      if greeting.Fail? {
        return Fail(greeting.error), leak;
      }
      GreetedLater(start, log, first, IsOdd(counter));
      NoShut(before, log, Some(first), second);
      return Ok(second.value), leak;
    }

    /** The control channel was greeted with the counter, the other with the next one, and the probe went out. */
    ghost predicate AsIntended()
      reads this
    {
      && socket.Some? && transfer.Some? && control == (if IsOdd(counter) then transfer else socket)
      && HelloFrame(control.value, counter) in log
      && HelloFrame(if IsOdd(counter) then socket.value else transfer.value, counter + 1) in log
      && (negotiate ==> ProbeFrame(socket.value) in log)
    }

    /**
     * Two connections, greeted with the counter and the next one. The odd one
     * becomes the transfer channel. When the second hello fails its connection is
     * left open with no field holding it.
     */
    method Handshake() returns (r: Result<()>, ghost leak: Option<nat>)
      requires Valid() && !session && Fields() == Channels(None, None, None)
      modifies this
      ensures Valid() && old(log) <= log && (r.Ok? <==> session)
      ensures lost == old(lost) + One(leak)
      ensures leak.Some? ==> r.Fail? && leak.value !in old(lost) && Greeted(log, leak.value, !IsOdd(counter))
      ensures r.Ok? <==> Opens(connects, wire, old(log), counter, retries)
      ensures leak.Some? <==> Leaks(connects, wire, old(log), counter, retries)
      ensures r.Ok? ==> (deaf <==> negotiate && Deafens(wire, old(log), counter, retries))
      ensures r.Ok? ==> AsIntended()
    {
      hide Sound, Greeted, Open, Allowed, Channels.Held, Body, Joins, Hailed, Opens, Leaks, Deafens, AllLost,
          ProbeFrame, HelloFrame, IsOdd;
      leak := None;
      ghost var start := log;
      var first := FirstChannel();
      if first.Fail? {
        FirstFails(connects, wire, start, counter, retries);
        return Fail(first.error), leak;
      }
      ghost var next := log;
      FirstJoins(connects, wire, start, counter, retries, next);
      var second;
      second, leak := SecondChannel(first.value);
      if second.Fail? {
        return Fail(second.error), leak;
      }
      BothJoined(wire, start, counter, retries, next, log);
      AssignRoles(first.value, second.value);
      leak := None;
      deaf := false;
      if negotiate {
        Probe();
      }
      session := true;
      return Ok(()), leak;
    }

    /** The odd counter's connection is for transfers, the even one's for commands. */
    method AssignRoles(first: nat, second: nat)
      requires Valid() && !session && Fields() == Channels(None, Some(first), None) && second in lost && first != second
      requires Greeted(log, first, IsOdd(counter)) && Greeted(log, second, !IsOdd(counter))
      modifies this`socket, this`transfer, this`lost
      ensures Valid() && control == Some(first) && lost == old(lost) - {second}
      ensures socket == Some(if IsOdd(counter) then second else first)
      ensures transfer == Some(if IsOdd(counter) then first else second)
    {
      hide Sound, Greeted, IsOdd;
      if IsOdd(counter) {
        transfer, socket := Some(first), Some(second);
      } else {
        transfer, socket := Some(second), Some(first);
      }
      TakeRoles(log, Odd(), Fields(), lost, second);
      lost := lost - {second};
    }

    /** A handshake that holds nothing when it fails. */
    method OpenSession() returns (r: Result<()>, ghost leak: Option<nat>)
      requires Valid() && !session && Fields() == Channels(None, None, None)
      modifies this
      ensures Valid() && old(log) <= log && (r.Ok? <==> session)
      ensures r.Fail? ==> Fields() == Channels(None, None, None)
      ensures r.Ok? <==> Opens(connects, wire, old(log), counter, retries)
      ensures leak.Some? <==> Leaks(connects, wire, old(log), counter, retries)
      ensures r.Ok? ==> (deaf <==> negotiate && Deafens(wire, old(log), counter, retries))
      ensures lost == old(lost) + One(leak)
      ensures leak.Some? ==> r.Fail? && leak.value !in old(lost) && Greeted(log, leak.value, !IsOdd(counter))
    {
      hide *;
      r, leak := Handshake();
      if r.Fail? {
        ghost var before := log;
        Drop();
        if leak.Some? {
          GreetedLater(before, log, leak.value, !IsOdd(counter));
        }
      }
    }

    /** Opens on demand; a half-open pair is dropped first. */
    method EnsureSession() returns (r: Result<()>, ghost leak: Option<nat>)
      requires Valid()
      modifies this
      ensures Valid() && old(log) <= log && (r.Ok? <==> session)
      ensures old(session) ==> r.Ok? && leak.None? && log == old(log) && Fields() == old(Fields()) && deaf == old(deaf)
      ensures var start := old(log) + DropEvents(old(Fields()));
              !old(session) ==>
                && (r.Ok? <==> Opens(connects, wire, start, counter, retries))
                && (leak.Some? <==> Leaks(connects, wire, start, counter, retries))
                && (r.Ok? ==> (deaf <==> negotiate && Deafens(wire, start, counter, retries)))
      ensures r.Fail? ==> Fields() == Channels(None, None, None)
      ensures lost == old(lost) + One(leak)
      ensures leak.Some? ==> r.Fail? && leak.value !in old(lost) && Greeted(log, leak.value, !IsOdd(counter))
    {
      hide Sound, Greeted, Opens, Leaks, Deafens, DropEvents, IsOdd;
      leak := None;
      if session {
        return Ok(()), leak;
      }
      Drop();
      r, leak := OpenSession();
    }

    /** A goodbye on each channel, then everything is closed but what was lost. */
    method Close()
      requires Valid()
      modifies this`log, this`socket, this`control, this`transfer, this`session
      ensures Valid() && !session && old(log) <= log
      ensures forall id: nat :: Open(log, id) <==> id in lost
      ensures old(session) ==>
                Sent(old(socket.value), 2, 1, []) in log && Sent(old(transfer.value), 2, 1, []) in log
    {
      hide Sound, Greeted, Allowed, Tried, Arrived, Accept, AnsweredWith, DropEvents;
      if session {
        CommandAllowed(log, Odd(), Fields(), lost, DIR_REQUEST, []);
        var r, reply := ExchangeOn(socket, BYE, []);
        TransferAllowed(log, Odd(), Fields(), lost, BYE, DIR_REQUEST, []);
        r, reply := ExchangeOn(transfer, BYE, []);
      }
      Drop();
      HeldOpen(log, Odd(), Fields(), lost);
    }

    /** A command list on the command channel, opening the session when needed. */
    method Command(body: seq<byte>) returns (r: Result<()>, reply: seq<byte>)
      requires Valid()
      modifies this
      ensures Valid() && old(log) <= log && old(lost) <= lost
      ensures r.Ok? ==> session && Sent(socket.value, 0x21, 1, body) in log
      ensures r.Ok? ==> AnsweredWith(wire(log), 0x21, reply)
      ensures old(session) && old(deaf) && Silent(wire) && |body| <= MAX_BODY ==> r == Fail(Transport(0x90)) && !session
    {
      hide Sound, Greeted, Allowed, Opens, Leaks, Deafens, Silent, Tried, DropEvents, Receive;
      ghost var leak;
      reply := [];
      r, leak := EnsureSession();
      if r.Ok? {
        CommandAllowed(log, Odd(), Fields(), lost, DIR_REQUEST, body);
        if deaf && Silent(wire) {
          ShutIsGivenUp(wire, log, Sent(socket.value, COMMAND, DIR_REQUEST, body), retries);
        }
        r, reply := ExchangeOn(socket, COMMAND, body);
      }
    }

    /**
     * An exchange of the transfer family: a status answer counts, and says what it
     * thinks in its first four bytes.
     */
    method TransferExchange(func: byte, body: seq<byte>) returns (r: Result<()>)
      requires Valid() && session && Transfers(func) && |body| <= MAX_BODY
      modifies this`log, this`session
      ensures Valid() && old(log) <= log
      ensures session == !LinkLost(r)
      ensures forall k :: |old(log)| <= k < |log| ==>
                log[k] == Sent(transfer.value, func, DIR_REQUEST, body) || (LinkLost(r) && log[k].Shut?)
      ensures var sent := Tried(wire, old(log), Sent(transfer.value, func, DIR_REQUEST, body), retries);
              var got := Arrived(wire(sent));
              && |sent| > |old(log)| && sent <= log && (!LinkLost(r) ==> log == sent)
              && (r.Ok? <==> Taken(got, func))
              && (got.Fail? ==> r == Fail(got.error))
              && (got.Ok? && (got.value.0.func != func || got.value.0.dir !in {DIR_REPLY, DIR_STATUS}) ==>
                  r == Fail(ERR_HEADER))
              && (got.Ok? && got.value.0.func == func && got.value.0.dir == DIR_STATUS && !Taken(got, func) ==>
                    r == Fail(if |got.value.1| < 4 then ERR_NO_DATA else StatusError(got.value.1)))
    {
      hide Sound, Greeted, Allowed, BeNat, Tried, Receive;
      TransferAllowed(log, Odd(), Fields(), lost, func, DIR_REQUEST, body);
      var reply;
      r, reply := ExchangeOn(transfer, func, body);
      if r == Fail(ERR_NO_DATA) && |reply| >= 4 {
        if BeNat(reply[..4]) == 0 {
          return Ok(());
        }
        return Fail(StatusError(reply));
      }
    }

    /** A data frame: sent, and no answer awaited. */
    method SendOnly(body: seq<byte>) returns (r: Result<()>)
      requires Valid() && session && |body| <= MAX_BODY
      modifies this`log, this`session
      ensures Valid() && session == r.Ok?
      ensures var sent := old(log) + [Sent(transfer.value, DATA, DIR_DATA, body)];
              log == if r.Fail? then sent + [Shut(transfer.value)] else sent
    {
      hide Sound, Greeted, Allowed;
      TransferAllowed(log, Odd(), Fields(), lost, DATA, DIR_DATA, body);
      HeldOpen(log, Odd(), Fields(), lost);
      ghost var before := log;
      Emit(Sent(transfer.value, DATA, DIR_DATA, body));
      if wire(log).NotSent? {
        StillOpen(before, log, transfer.value);
        session := false;
        Emit(Shut(transfer.value));
        return Fail(Transport(0x90));
      }
      NoShut(before, log, socket, transfer);
      return Ok(());
    }

    /**
     * Sends a program: a start frame, the text in pieces nobody answers, an end
     * frame whose answer says whether the machine took it.
     */
    method ProgramDownload(kind: int, name: seq<byte>, text: seq<byte>)
      returns (r: Result<()>, ghost a: nat, ghost b: nat)
      requires Valid() && session
      modifies this`log, this`session
      ensures Valid() && old(log) <= log && |old(log)| <= a <= b <= |log|
      ensures |name| > TRANSFER_BODY - 6 || kind < 0 || kind > 0xFF ==> r == Fail(OutOfRange) && log == old(log)
      ensures forall k :: |old(log)| <= k < a && log[k].Sent? ==>
                |name| <= TRANSFER_BODY - 6 && 0 <= kind <= 0xFF &&
                log[k] == Sent(transfer.value, START, DIR_REQUEST, StartBody(kind, name))
      ensures r.Ok? ==> |old(log)| < a && log[a..b] == ChunkEvents(transfer.value, text) && b < |log|
      ensures r.Ok? ==> forall k :: b <= k < |log| ==> log[k] == Sent(transfer.value, END, DIR_REQUEST, [])
      ensures r.Ok? ==> session && Started(log, |old(log)|, transfer.value, kind, name)
      ensures Carried(log[a..b]) <= text
      ensures |name| <= TRANSFER_BODY - 6 && 0 <= kind <= 0xFF ==>
                var start := Sent(transfer.value, START, DIR_REQUEST, StartBody(kind, name));
                var end := Sent(transfer.value, END, DIR_REQUEST, []);
                (r.Ok? <==> && Taken(Arrived(wire(Tried(wire, old(log), start, retries))), START)
                            && log[a..b] == ChunkEvents(transfer.value, text)
                            && Taken(Arrived(wire(Tried(wire, log[..b], end, retries))), END))
      ensures r.Ok? ==> Taken(Arrived(wire(log)), END)
    {
      hide Sound, Greeted, Allowed, StartBody, Carried, ChunkEvents, Tried, Taken, Arrived, IsStart;
      a, b := |log|, |log|;
      CarriedNothing(log[a..b]);
      if |name| > TRANSFER_BODY - 6 || kind < 0 || kind > 0xFF {
        return Fail(OutOfRange), a, b;
      }
      r := TransferExchange(START, StartBody(kind, name));
      a, b := |log|, |log|;
      CarriedNothing(log[a..b]);
      if r.Fail? {
        return;
      }
      ghost var started := log;
      ghost var sent;
      r, sent := SendText(text);
      b := a + |sent|;
      assert log[a..b] == sent;
      if r.Fail? {
        return;
      }
      ghost var done := log;
      assert done[..b] == done;
      r := TransferExchange(END, []);
      assert log[..b] == done && log[a..b] == sent;
      if r.Ok? {
        StartedOnce(started, sent, log, |old(log)|, transfer.value, kind, name, text);
      }
    }

    /** The data frames of a text. `sent` are the pieces that went out whole. */
    method SendText(text: seq<byte>) returns (r: Result<()>, ghost sent: seq<Event>)
      requires Valid() && session
      modifies this`log, this`session
      ensures Valid() && session == r.Ok? && old(log) + sent <= log && Carried(sent) <= text
      ensures r.Ok? ==> log == old(log) + sent
      ensures r.Ok? <==> sent == ChunkEvents(transfer.value, text)
    {
      hide Sound, Carried, ChunkEvents, Greeted, Allowed, SentTo;
      sent := [];
      var at := 0;
      r := Ok(());
      NothingSent(transfer.value, text);
      while at < |text|
        invariant Valid() && session && at <= |text| && r.Ok? && transfer == old(transfer) && transfer.Some?
        invariant log == old(log) + sent && SentTo(transfer.value, text, at, sent)
        decreases |text| - at
      {
        var chunk := if |text| - at > CHUNK then CHUNK else |text| - at;
        var piece := text[at..at + chunk];
        NextChunk(transfer.value, text, at, chunk, sent);
        r := SendOnly(piece);
        if r.Fail? {
          return;
        }
        sent := sent + [Sent(transfer.value, DATA, DIR_DATA, piece)];
        at := at + chunk;
      }
      AllSent(transfer.value, text, sent);
    }

    method Download(kind: int, name: seq<byte>, text: seq<byte>) returns (r: Result<()>)
      requires Valid()
      modifies this
      ensures Valid() && old(log) <= log && old(lost) <= lost
      ensures r.Ok? ==> session && Delivered(wire, log, |old(log)|, transfer.value, text)
      ensures r.Ok? ==> exists from: nat :: |old(log)| <= from && Started(log, from, transfer.value, kind, name)
    {
      hide Sound, ChunkEvents, Carried, Opens, Leaks, Deafens, DropEvents, Tried, Taken, Arrived, StartBody, DataOn,
          Started;
      ghost var leak, a, b;
      r, leak := EnsureSession();
      if r.Ok? {
        r, a, b := ProgramDownload(kind, name, text);
        if r.Ok? {
          ChunksCarryText(transfer.value, text);
        }
      }
    }

    /**
     * Any run of operations, whatever the machine answers and whenever links break:
     * the log stays orderly and the fields hold what is open.
     */
    method Run(ops: seq<Op>)
      requires Valid()
      modifies this
      ensures Valid() && old(log) <= log && old(lost) <= lost
      ensures Orderly(log, IsOdd(counter))
      ensures session ==> socket.Some? && transfer.Some? && socket != transfer
      ensures session ==> Open(log, socket.value) && Open(log, transfer.value)
      ensures session ==> Greeted(log, socket.value, false) && Greeted(log, transfer.value, true)
    {
      hide Sound, Open, Greeted, Orderly;
      for i := 0 to |ops|
        invariant Valid() && old(log) <= log && old(lost) <= lost
      {
        match ops[i] {
          case OpOpen =>
            ghost var leak;
            var r;
            r, leak := EnsureSession();
          case OpCommand(body) =>
            var r, reply := Command(body);
          case OpDownload(kind, name, text) =>
            var r := Download(kind, name, text);
          case OpClose =>
            Close();
        }
      }
      SoundMeans(log, Odd(), Fields(), lost);
    }
  }

  // --------------------------------------------------------------- witnesses

  /** An answer to a hello that is accepted. */
  function Welcome(): Wire {
    Answer(FrameBytes(HELLO, DIR_REPLY, seq(16, _ => 0)))
  }

  lemma WelcomeIsWelcome()
    ensures Welcomed(Arrived(Welcome()))
  {
    hide Receive, FrameBytes;
    var body: seq<byte> := seq(16, _ => 0);
    ReceiveBuilt(HELLO, DIR_REPLY, body, []);
    assert FrameBytes(HELLO, DIR_REPLY, body) + [] == FrameBytes(HELLO, DIR_REPLY, body);
  }

  /** Connections always come up. */
  predicate Always(log: seq<Event>) {
    true
  }

  lemma NothingToDrop(log: seq<Event>)
    ensures log + DropEvents(Channels(None, None, None)) == log
  {
  }

  /** A machine that answers the first hello of a session and then goes quiet. */
  function OneHello(log: seq<Event>): Wire {
    if |log| <= 2 then Welcome() else NotSent
  }

  /** A machine that answers both hellos and then goes quiet. */
  function TwoHellos(log: seq<Event>): Wire {
    if |log| <= 4 && !AnyShut(log) then Welcome() else NotSent
  }

  predicate AnyShut(log: seq<Event>) {
    exists k :: 0 <= k < |log| && log[k].Shut?
  }

  lemma ShutStays(log: seq<Event>, e: Event, id: nat)
    requires Shut(id) in log
    ensures AnyShut(log + [e])
  {
    var k :| 0 <= k < |log| && log[k] == Shut(id);
    assert (log + [e])[k].Shut?;
  }

  lemma OneHelloLeaks()
    ensures Leaks(Always, OneHello, [], 1, 0)
  {
    hide Receive, FrameBytes;
    WelcomeIsWelcome();
    var first := Hailed(OneHello, [], 1, 0);
    assert |first| == 2;
    var second := Hailed(OneHello, first, 2, 0);
    assert |second| == 4;
  }

  lemma TwoHellosDeafen()
    ensures Opens(Always, TwoHellos, [], 1, 0) && Deafens(TwoHellos, [], 1, 0)
  {
    hide Receive, FrameBytes, ProbeFrame;
    WelcomeIsWelcome();
    var first := Hailed(TwoHellos, [], 1, 0);
    assert first == [Opened(0), HelloFrame(0, 1)];
    var second := Hailed(TwoHellos, first, 2, 0);
    assert second == first + [Opened(2), HelloFrame(2, 2)];
  }

  /** Opening and closing a session with such a machine leaves a connection open for good. */
  method OneIsLost() returns (s: Session)
    ensures fresh(s) && s.Valid() && !s.session && s.lost != {} && exists id: nat :: Open(s.log, id)
  {
    hide Leaks, Opens, Deafens, Sound, Open;
    OneHelloLeaks();
    s := new Session(0, 1, true, Always, OneHello);
    ghost var leak;
    var r;
    NothingToDrop(s.log);
    r, leak := s.EnsureSession();
    assert leak.value in s.lost;
    s.Close();
    assert Open(s.log, leak.value);
  }

  /** And with the other one a session is set whose channels are both shut. */
  method OneIsDeaf() returns (s: Session)
    ensures fresh(s) && s.Valid() && s.session && Shut(s.socket.value) in s.log && Shut(s.transfer.value) in s.log
    ensures s.wire == TwoHellos
  {
    hide Leaks, Opens, Deafens, Sound;
    TwoHellosDeafen();
    s := new Session(0, 1, true, Always, TwoHellos);
    ghost var leak;
    var r;
    NothingToDrop(s.log);
    r, leak := s.EnsureSession();
  }

  /** Its next command fails, and the session is over. */
  method DeafFailsNext(body: seq<byte>) returns (s: Session, r: Result<()>)
    requires |body| <= MAX_BODY
    ensures fresh(s) && s.Valid() && r == Fail(Transport(0x90)) && !s.session
  {
    hide Sound, AnyShut, Welcome;
    assert Silent(TwoHellos) by {
      forall log: seq<Event>, e: Event | e.Sent? && Shut(e.id) in log
        ensures TwoHellos(log + [e]).NotSent?
      {
        ShutStays(log, e, e.id);
      }
    }
    hide Silent, TwoHellos;
    s := OneIsDeaf();
    var reply;
    r, reply := s.Command(body);
  }

  /** With the counter at 2 dropping the session closes its command connection at both ends of the list. */
  method OneIsClosedTwice() returns (s: Session, ghost before: seq<Event>)
    ensures fresh(s) && s.Valid() && !s.session && before <= s.log
    ensures var closed := s.log[|before|..];
            |closed| == 3 && closed[0] == closed[2] && closed[0].Closed?
  {
    hide Leaks, Opens, Deafens, Sound;
    TwoHellosOpenAnyway();
    s := new Session(0, 2, false, Always, TwoHellos);
    ghost var leak;
    var r;
    NothingToDrop(s.log);
    r, leak := s.EnsureSession();
    before := s.log;
    ghost var c := s.Fields();
    EvenClosesTwice(s.log, c, s.lost, s.Odd());
    s.Drop();
    assert s.log[|before|..] == DropEvents(c);
  }

  lemma TwoHellosOpenAnyway()
    ensures Opens(Always, TwoHellos, [], 2, 0)
  {
    hide Receive, FrameBytes;
    WelcomeIsWelcome();
    var first := Hailed(TwoHellos, [], 2, 0);
    assert first == [Opened(0), HelloFrame(0, 2)];
    var second := Hailed(TwoHellos, first, 3, 0);
    assert second == first + [Opened(2), HelloFrame(2, 3)];
  }

  lemma EvenClosesTwice(log: seq<Event>, c: Channels, lost: set<nat>, odd: bool)
    requires Sound(log, odd, c, lost) && c.socket.Some? && !odd
    ensures var events := DropEvents(c); |events| == 3 && events[0] == events[2] && events[0].Closed?
  {
    OneParity(log, odd, c.socket.value);
    hide Greeted, Core;
    assert c.socket != c.transfer;
    assert c.socket == c.control;
  }

  /** What the fields of a session hold. */
  lemma SoundMeans(log: seq<Event>, odd: bool, c: Channels, lost: set<nat>)
    requires Sound(log, odd, c, lost)
    ensures Orderly(log, odd)
    ensures c.socket.Some? ==> c.transfer.Some? && c.socket != c.transfer
    ensures c.socket.Some? ==> Open(log, c.socket.value) && Open(log, c.transfer.value)
    ensures c.socket.Some? ==> Greeted(log, c.socket.value, false) && Greeted(log, c.transfer.value, true)
  {
    if c.socket.Some? {
      OneParity(log, odd, c.socket.value);
      HeldOpen(log, odd, c, lost);
    }
  }

  lemma HoldsControl(c: Channels)
    ensures c.control.Some? ==> c.control.value in c.Held()
  {
  }

  lemma CarriedNothing(events: seq<Event>)
    requires events == []
    ensures Carried(events) == []
  {
  }

  lemma {:induction false} CarriedMore(events: seq<Event>, e: Event)
    requires e.Sent? && e.func == DATA
    ensures Carried(events + [e]) == Carried(events) + e.body
  {
    if events == [] {
      assert events + [e] == [e];
      assert [e][1..] == [];
    } else {
      assert (events + [e])[1..] == events[1..] + [e];
      CarriedMore(events[1..], e);
    }
  }

  lemma FirstChunk(id: nat, text: seq<byte>, chunk: nat)
    requires text != [] && chunk == (if |text| > CHUNK then CHUNK else |text|)
    ensures ChunkEvents(id, text) == [Sent(id, DATA, DIR_DATA, text[..chunk])] + ChunkEvents(id, text[chunk..])
  {
  }

  /** So far the first bytes of a text went out, in the pieces the whole text goes out in. */
  ghost predicate SentTo(id: nat, text: seq<byte>, at: nat, events: seq<Event>) {
    && at <= |text| && Carried(events) == text[..at]
    && events + ChunkEvents(id, text[at..]) == ChunkEvents(id, text)
  }

  lemma NothingSent(id: nat, text: seq<byte>)
    ensures SentTo(id, text, 0, [])
  {
    assert text[0..] == text;
  }

  lemma AllSent(id: nat, text: seq<byte>, events: seq<Event>)
    requires SentTo(id, text, |text|, events)
    ensures events == ChunkEvents(id, text) && Carried(events) == text
  {
    hide Carried;
    assert text[|text|..] == [] && text[..|text|] == text;
  }

  lemma NextChunk(id: nat, text: seq<byte>, at: nat, chunk: nat, events: seq<Event>)
    requires at < |text| && chunk == (if |text| - at > CHUNK then CHUNK else |text| - at)
    requires SentTo(id, text, at, events)
    ensures SentTo(id, text, at + chunk, events + [Sent(id, DATA, DIR_DATA, text[at..at + chunk])])
    ensures events != ChunkEvents(id, text) && Carried(events) <= text
  {
    hide ChunkEvents, Carried;
    var e := Sent(id, DATA, DIR_DATA, text[at..at + chunk]);
    var rest := ChunkEvents(id, text[at + chunk..]);
    assert text[at..][chunk..] == text[at + chunk..] && text[at..][..chunk] == text[at..at + chunk];
    FirstChunk(id, text[at..], chunk);
    assert events + [e] + rest == events + ([e] + rest);
    CarriedMore(events, e);
    assert text[..at] + text[at..at + chunk] == text[..at + chunk];
  }

  lemma TakeControl(log: seq<Event>, odd: bool, id: nat, lost: set<nat>)
    requires Sound(log, odd, Channels(None, None, None), lost) && id in lost
    ensures Sound(log, odd, Channels(None, Some(id), None), lost - {id})
    ensures Open(log, id)
  {
    hide Greeted;
    var c := Channels(None, Some(id), None);
    assert c.Held() + (lost - {id}) == lost;
  }

  lemma FreshChannel(log: seq<Event>, odd: bool, c: Channels, lost: set<nat>, id: nat)
    requires Sound(log, odd, c, lost) && id in lost
    ensures Open(log, id)
  {
  }

  lemma TakeRoles(log: seq<Event>, odd: bool, c: Channels, lost: set<nat>, id: nat)
    requires Sound(log, odd, Channels(None, c.control, None), lost) && id in lost
    requires c.control.Some? && c.control != Some(id)
    requires Greeted(log, c.control.value, odd) && Greeted(log, id, !odd)
    requires c.transfer == if odd then c.control else Some(id)
    requires c.socket == if odd then Some(id) else c.control
    ensures Sound(log, odd, c, lost - {id})
  {
    hide Greeted, Core;
    assert c.Held() + (lost - {id}) == Channels(None, c.control, None).Held() + lost;
  }

  lemma GreetedLater(before: seq<Event>, log: seq<Event>, id: nat, odd: bool)
    requires before <= log && Greeted(before, id, odd)
    ensures Greeted(log, id, odd)
  {
    assert log[..|before|] == before;
    GreetedStays(log, |before|, id, odd);
  }

  lemma ParityOfByte(count: nat)
    ensures count % 0x100 % 2 == count % 2
  {
  }

  lemma CommandAllowed(log: seq<Event>, odd: bool, c: Channels, lost: set<nat>, dir: byte, body: seq<byte>)
    requires Sound(log, odd, c, lost)
    ensures c.socket.Some? ==> Allowed(log, Sent(c.socket.value, COMMAND, dir, body), odd)
    ensures c.socket.Some? ==> Allowed(log, Sent(c.socket.value, BYE, dir, body), odd)
  {
    assert c.socket.Some? ==> c.socket.value in c.Held();
  }

  lemma TransferAllowed(log: seq<Event>, odd: bool, c: Channels, lost: set<nat>, func: byte, dir: byte, body: seq<byte>)
    requires Sound(log, odd, c, lost) && (Transfers(func) || func == BYE)
    ensures c.transfer.Some? ==> Allowed(log, Sent(c.transfer.value, func, dir, body), odd)
  {
    assert c.transfer.Some? ==> c.transfer.value in c.Held();
  }

  lemma NeverShut(log: seq<Event>, odd: bool, c: Channels, lost: set<nat>)
    requires Sound(log, odd, c, lost)
    ensures Shut(|log|) !in log
  {
    forall k | 0 <= k < |log|
      ensures log[k] != Shut(|log|)
    {
      assert Allowed(log[..k], log[k], odd);
    }
  }

  lemma HeldOpen(log: seq<Event>, odd: bool, c: Channels, lost: set<nat>)
    requires Sound(log, odd, c, lost)
    ensures forall id: nat :: id in c.Held() + lost <==> Open(log, id)
  {
  }

  lemma StillOpen(before: seq<Event>, log: seq<Event>, id: nat)
    requires before <= log && Open(before, id)
    requires forall k :: |before| <= k < |log| ==> !log[k].Closed?
    ensures Open(log, id) && Allowed(log, Shut(id), true) && Allowed(log, Shut(id), false)
  {
    assert forall k :: 0 <= k < |before| ==> log[k] == before[k];
  }

  lemma SentOpen(log: seq<Event>, e: Event, once: bool)
    requires Allowed(log, e, once) && e.Sent?
    ensures Open(log, e.id)
  {
  }

  lemma NoShut(before: seq<Event>, log: seq<Event>, a: Option<nat>, b: Option<nat>)
    requires before <= log && forall k :: |before| <= k < |log| ==> log[k].Sent?
    ensures a.Some? ==> (Shut(a.value) in log <==> Shut(a.value) in before)
    ensures b.Some? ==> (Shut(b.value) in log <==> Shut(b.value) in before)
  {
    assert forall k :: 0 <= k < |before| ==> log[k] == before[k];
  }
}
