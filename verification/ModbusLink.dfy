/**
 * The receive side of an exchange: RTU replies collected from a byte stream
 * that hands them over in pieces, and TCP exchanges with their transaction
 * counter and retries.
 */
module ModbusLink {
  import opened Common
  import opened ModbusTypes
  import opened ModbusFrames
  import opened ModbusDevice

  const MAX_FRAME: nat := 300
  const OVERSIZED: Result<seq<byte>> := Fail(Protocol(0x0C))

  /** A connected socket: the bytes still to arrive, cut up as the network likes. */
  class Stream {
    var incoming: seq<byte>
    var calls: nat
    var open: bool
    const grants: nat -> nat

    constructor (bytes: seq<byte>, grants: nat -> nat)
      ensures incoming == bytes && open
    {
      incoming, calls, open, this.grants := bytes, 0, true, grants;
    }

    /** At least one byte and at most `want`; nothing once the peer is done. */
    method Recv(want: nat) returns (chunk: seq<byte>)
      requires want > 0
      modifies this`incoming, this`calls
      ensures chunk + incoming == old(incoming)
      ensures |chunk| <= want
      ensures chunk == [] <==> old(incoming) == []
    {
      var n := 1 + grants(calls);
      n := if n > want then want else n;
      n := if n > |incoming| then |incoming| else n;
      chunk := incoming[..n];
      incoming, calls := incoming[n..], calls + 1;
    }

    /** Exactly so many bytes, or all there are and nothing. */
    method RecvExact(want: nat) returns (got: Option<seq<byte>>)
      modifies this`incoming, this`calls
      ensures got.Some? <==> want <= |old(incoming)|
      ensures got.Some? ==> |got.value| == want && got.value + incoming == old(incoming)
      ensures got.None? ==> incoming == []
    {
      var received: seq<byte> := [];
      while |received| < want
        invariant |received| <= want && received + incoming == old(incoming)
        decreases want - |received|
      {
        var chunk := Recv(want - |received|);
        if chunk == [] {
          assert received == old(incoming);
          return None;
        }
        received := received + chunk;
      }
      return Some(received);
    }
  }

  /** How many bytes of a stream make up the reply at its front. */
  function ReplyLength(s: seq<byte>): (r: Result<nat>) {
    if |s| < 3 then Fail(Transport(0x17))
    else
      var total :- RtuReplySize(s[..3]);
      if |s| < total then Fail(Transport(0x17)) else Ok(total)
  }

  /** Three bytes decide the size; later ones do not change it. */
  lemma SizeIsSettled(s: seq<byte>, n: nat)
    requires 3 <= n <= |s|
    ensures RtuReplySize(s[..n]) == RtuReplySize(s[..3])
    ensures RtuReplySize(s[..3]).Ok? ==> 5 <= RtuReplySize(s[..3]).value <= 260
    ensures RtuReplySize(s[..3]).Ok? || RtuReplySize(s[..3]) == Fail(Protocol(9))
  {
  }

  /**
   * Collects one RTU reply over TCP. The outcome depends on the bytes alone:
   * the reply ends up in rx, not one byte more is taken from the stream, and
   * how the stream was cut into pieces plays no part.
   */
  method CollectReply(stream: Stream, rx: array<byte>, unit: byte) returns (r: Result<seq<byte>>, got: nat)
    requires rx.Length == MAX_FRAME
    modifies stream`incoming, stream`calls, stream`open, rx
    ensures ReplyLength(old(stream.incoming)).Ok? ==>
              && got == ReplyLength(old(stream.incoming)).value
              && rx[..got] == old(stream.incoming)[..got]
              && stream.incoming == old(stream.incoming)[got..]
              && stream.open == old(stream.open)
              && r == RtuSplit(rx[..got], unit)
    ensures ReplyLength(old(stream.incoming)).Fail? ==> r == Fail(ReplyLength(old(stream.incoming)).error)
    ensures r == Fail(Transport(0x17)) ==> !stream.open && stream.incoming == []
    ensures ReplyLength(old(stream.incoming)) == Fail(Protocol(9)) ==>
              && got == 3 && rx[..3] == old(stream.incoming)[..3]
              && stream.incoming == old(stream.incoming)[3..] && stream.open == old(stream.open)
  {
    hide RtuReplySize;
    ghost var all := stream.incoming;
    got := 0;
    while true
      invariant got <= |all| && got <= rx.Length
      invariant rx[..got] == all[..got] && stream.incoming == all[got..]
      invariant stream.open == old(stream.open)
      invariant got > 3 ==> RtuReplySize(all[..3]).Ok? && got <= RtuReplySize(all[..3]).value
      decreases |stream.incoming|
    {
      var total := 0;
      if got >= 3 {
        var size := RtuReplySize(rx[..got]);
        SizeIsSettled(all, got);
        if size.Fail? && size.error != OutOfRange {
          return Fail(size.error), got;
        }
        if size.Ok? {
          total := size.value;
        }
        if total != 0 && got >= total {
          break;
        }
      }
      if total > rx.Length {
        return OVERSIZED, got;
      }
      ghost var before := rx[..got];
      var chunk := stream.Recv((if total != 0 then total else got + 1) - got);
      if chunk == [] {
        stream.open := false;
        return Fail(Transport(0x17)), got;
      }
      forall i | 0 <= i < |chunk| {
        rx[got + i] := chunk[i];
      }
      assert rx[..got + |chunk|] == before + chunk;
      assert all[got..] == chunk + stream.incoming;
      assert all[..got + |chunk|] == all[..got] + chunk;
      got := got + |chunk|;
    }
    r := RtuSplit(rx[..got], unit);
  }

  /** The shape of a reply PDU to one of the functions the driver uses. */
  predicate IsReplyPdu(pdu: seq<byte>) {
    && |pdu| >= 2
    && (if pdu[0] >= 0x80 then |pdu| == 2
        else if pdu[0] in {0x01, 0x02, 0x03, 0x04} then |pdu| - 2 == pdu[1]
        else pdu[0] in {0x05, 0x06, 0x0F, 0x10} && |pdu| == 5)
  }

  /** The frame of a reply is found whole whatever follows it, and gives the PDU back. */
  lemma ReplyIsFound(unit: byte, pdu: seq<byte>, rest: seq<byte>)
    requires IsReplyPdu(pdu)
    ensures ReplyLength(RtuBytes(unit, pdu) + rest) == Ok(|pdu| + 3)
    ensures (RtuBytes(unit, pdu) + rest)[..|pdu| + 3] == RtuBytes(unit, pdu)
    ensures RtuSplit(RtuBytes(unit, pdu), unit) == Ok(pdu)
  {
    var frame := RtuBytes(unit, pdu);
    RtuRoundTrip(unit, pdu);
    assert frame[0] == unit && frame[1] == pdu[0] && frame[2] == pdu[1];
  }

  /**
   * Nothing in an RTU reply says which read it answers: the reply to another read,
   * coming late, is taken for the reply to this one exactly when both ask the same
   * area for the same number of bytes, whatever their starts; the data is the other's.
   */
  lemma RtuTakesLateReplyExactly(d: Device, unit: byte, other: Area, start: nat, n: nat, request: seq<byte>,
                                 area: Area, count: nat)
    requires d.Valid() && 1 <= n <= other.MaxRead() && start + n <= 0x1_0000
    requires Asks(request, other.ReadCode(), start, n)
    ensures var late := Serve(d, request).1;
            var taken := CheckReadReply(late, area.ReadCode(), ReadSize(area, count));
            && RtuSplit(RtuBytes(unit, late), unit) == Ok(late)
            && (taken.Ok? <==> other == area && ReadSize(other, n) == ReadSize(area, count))
            && (taken.Ok? ==> taken.value == Payload(d, other, start, n))
  {
    ReadReply(d, other, start, n, request);
    hide Serve, Asks, RtuBytes, RtuSplit, Payload, CheckReadReply;
    var data := Payload(d, other, start, n);
    var late := [other.ReadCode(), |data|] + data;
    RtuRoundTrip(unit, late);
    LateIsTaken(late, other.ReadCode(), data, area.ReadCode(), ReadSize(area, count));
  }

  /** The reply check compares the function code and the number of bytes, and nothing else. */
  lemma LateIsTaken(late: seq<byte>, code: byte, data: seq<byte>, want: byte, size: nat)
    requires code < 0x80 && want < 0x80 && |data| < 0x100 && data != [] && late == [code, |data|] + data
    ensures CheckReadReply(late, want, size).Ok? <==> code == want && |data| == size
    ensures CheckReadReply(late, want, size).Ok? ==> CheckReadReply(late, want, size).value == data
  {
    assert late[2..] == data;
    assert |data| == size ==> late[2..2 + size] == data;
  }

  // --------------------------------------------------------------------- TCP

  /** What the peer does with one exchange: the bytes that arrive while we wait may answer older requests. */
  datatype Delivery = SendFails | Arrives(bytes: seq<byte>)

  /**
   * One exchange as it happened: the id it used, whether the request went out, the
   * bytes there were to read (what an earlier exchange left comes first), what was
   * made of them, and what stays in the stream.
   */
  datatype Exchange = Round(id: word, sent: bool, readable: seq<byte>, result: Result<seq<byte>>, rest: seq<byte>)

  /** What an exchange under transaction `id` makes of the bytes it can read. */
  function Outcome(s: seq<byte>, id: word): (r: Result<seq<byte>>) {
    if |s| < 7 then Fail(Transport(0x19))
    else
      var length := Be16(s[4], s[5]);
      if length < 2 || length > MAX_FRAME - 6 then Fail(Protocol(0x0A))
      else if |s| < length + 6 then Fail(Transport(0x1A))
      else TcpSplit(s[..length + 6], id)
  }

  /** What it leaves: the bytes behind the frame, or behind the header of a frame that cannot be. */
  function Left(s: seq<byte>): (rest: seq<byte>) {
    if |s| < 7 then []
    else
      var length := Be16(s[4], s[5]);
      if length < 2 || length > MAX_FRAME - 6 then s[7..]
      else if |s| < length + 6 then []
      else s[length + 6..]
  }

  /** A header that announces no PDU, or more than fits the buffer of 300 bytes, is refused, and nothing else so. */
  lemma RefusesLength(s: seq<byte>, id: word)
    ensures Outcome(s, id) == Fail(Protocol(0x0A)) <==>
              |s| >= 7 && !(2 <= s[4] as int * 0x100 + s[5] as int <= 294)
  {
    hide TcpSplit;
    if |s| >= 7 && |s| >= Be16(s[4], s[5]) + 6 {
      SplitErrors(s[..Be16(s[4], s[5]) + 6], id);
    }
  }

  lemma SplitErrors(frame: seq<byte>, id: word)
    ensures TcpSplit(frame, id) != Fail(Protocol(0x0A))
  {
  }

  /** The errors after which the connection is shut. */
  predicate Shuts(r: Result<seq<byte>>) {
    r == Fail(Transport(0x19)) || r == Fail(Transport(0x1A)) || r == Fail(Protocol(0x0A))
  }

  /** An accepted reply carries the id of the request it is taken for. */
  ghost predicate NotStale(e: Exchange) {
    e.result.Ok? ==> |e.readable| >= 8 && TransactionOf(e.readable) == e.id
  }

  /**
   * Of one exchange: what was accepted was not stale, save under the id 0xFFFF,
   * which the splitter reads as "any".
   */
  lemma OnlyWildcardTakesStale(s: seq<byte>, id: word)
    ensures id != ANY_TRANSACTION ==> NotStale(Round(id, true, s, Outcome(s, id), Left(s)))
  {
  }

  class TcpMaster {
    const unit: byte
    const retries: nat
    /** What the peer sends back, given everything that went before. */
    const peer: (seq<Exchange>, seq<byte>) -> Delivery
    /** Whether the connection comes back after a failure. */
    const reopens: seq<Exchange> -> bool
    const stream: Stream
    var transaction: word
    var history: seq<Exchange>

    /** Over the whole run, ids count up from 1 and each exchange reads on where the one before stopped. */
    ghost predicate Valid()
      reads this, stream
    {
      && transaction == |history| % 0x1_0000 && IsRun(history)
      && (history != [] ==> GoesOn(history[|history| - 1], stream.incoming))
    }

    constructor (unit: byte, retries: nat, peer: (seq<Exchange>, seq<byte>) -> Delivery,
                 reopens: seq<Exchange> -> bool, stream: Stream)
      ensures Valid() && history == [] && this.retries == retries && this.stream == stream
    {
      this.unit, this.retries, this.peer, this.reopens, this.stream := unit, retries, peer, reopens, stream;
      transaction, history := 0, [];
    }

    /** The request goes out under the next id, if the connection is still there, and the answer is read. */
    method ExchangeOnce(pdu: seq<byte>) returns (r: Result<seq<byte>>)
      requires Valid() && |pdu| <= 253
      modifies this`transaction, this`history, stream`incoming, stream`calls, stream`open
      ensures Valid()
      ensures |history| == |old(history)| + 1 && history[..|old(history)|] == old(history)
      ensures history[|old(history)|].result == r && history[|old(history)|].rest == stream.incoming
      ensures history[|old(history)|].sent <==>
                old(stream.open) && peer(old(history), TcpBytes(transaction, unit, pdu)).Arrives?
      ensures stream.open == (old(stream.open) && !Shuts(r))
    {
      hide Outcome, Left, TcpBytes, IsRun, GoesOn;
      transaction := (transaction + 1) % 0x1_0000;
      NextId(|history|);
      var tx := new byte[MAX_FRAME];
      var n := TcpFrame(tx, transaction, unit, pdu);
      var delivery := if stream.open then peer(history, tx[..n]) else SendFails;
      if delivery.SendFails? {
        r := Fail(Transport(0x18));
        RunGrows(history, Round(transaction, false, stream.incoming, r, stream.incoming), stream.incoming);
        history := history + [Round(transaction, false, stream.incoming, r, stream.incoming)];
        return;
      }
      stream.incoming := stream.incoming + delivery.bytes;
      var readable := stream.incoming;
      r := Receive();
      RunGrows(history, Round(transaction, true, readable, r, stream.incoming), old(stream.incoming));
      history := history + [Round(transaction, true, readable, r, stream.incoming)];
    }

    /** The header of seven bytes first, then the announced length less the one byte of it already read. */
    method Receive() returns (r: Result<seq<byte>>)
      modifies stream`incoming, stream`calls, stream`open
      ensures r == Outcome(old(stream.incoming), transaction)
      ensures stream.incoming == Left(old(stream.incoming))
      ensures stream.open == (old(stream.open) && !Shuts(r))
    {
      ghost var all := stream.incoming;
      var header := stream.RecvExact(7);
      if header == None {
        stream.open := false;
        return Fail(Transport(0x19));
      }
      assert header.value == all[..7] && stream.incoming == all[7..];
      var length := Be16(header.value[4], header.value[5]);
      if length < 2 || length > MAX_FRAME - 6 {
        stream.open := false;
        return Fail(Protocol(0x0A));
      }
      var body := stream.RecvExact(length - 1);
      if body == None {
        stream.open := false;
        return Fail(Transport(0x1A));
      }
      assert header.value + body.value == all[..length + 6] && stream.incoming == all[length + 6..];
      return TcpSplit(header.value + body.value, transaction);
    }

    /** A new connection has nothing to read yet. */
    method Reconnect() returns (up: bool)
      requires Valid() && history != [] && IsTransport(history[|history| - 1].result)
      modifies stream`incoming, stream`open
      ensures Valid() && up == reopens(history)
      ensures up ==> stream.open && stream.incoming == []
    {
      up := reopens(history);
      if up {
        stream.incoming, stream.open := [], true;
      } else {
        stream.open := false;
      }
    }

    /**
     * At most retries + 1 exchanges, each repeated only after a transport
     * error; the answer is that of the last one, unless the link stays down.
     */
    method Request(pdu: seq<byte>) returns (r: Result<seq<byte>>)
      requires Valid() && |pdu| <= 253
      modifies this`transaction, this`history, stream`incoming, stream`calls, stream`open
      ensures Valid()
      ensures |old(history)| < |history| <= |old(history)| + retries + 1
      ensures history[..|old(history)|] == old(history)
      ensures forall i :: |old(history)| <= i < |history| - 1 ==> IsTransport(history[i].result)
      ensures var last := history[|history| - 1].result;
              r == last || (r == Fail(Transport(0x1B)) && IsTransport(last) && !reopens(history))
      ensures IsTransport(r) && r == history[|history| - 1].result && reopens(history) ==>
                |history| == |old(history)| + retries + 1
    {
      hide IsRun, GoesOn;
      var attempt := 0;
      ghost var past := history;
      while true
        invariant Valid() && attempt <= retries
        invariant |history| == |past| + attempt && history[..|past|] == past
        invariant forall i :: |past| <= i < |history| ==> IsTransport(history[i].result)
        decreases retries - attempt
      {
        r := ExchangeOnce(pdu);
        if !IsTransport(r) || attempt >= retries {
          return;
        }
        attempt := attempt + 1;
        var up := Reconnect();
        if !up {
          return Fail(Transport(0x1B));
        }
      }
    }
  }

  lemma NextId(n: nat)
    ensures (n % 0x1_0000 + 1) % 0x1_0000 == (n + 1) % 0x1_0000
  {
  }

  predicate IsTransport(r: Result<seq<byte>>) {
    r.Fail? && r.error.Transport?
  }

  /** The stream goes on where the exchange left it, unless a lost link brought a new connection. */
  ghost predicate GoesOn(e: Exchange, now: seq<byte>) {
    e.rest <= now || IsTransport(e.result)
  }

  ghost predicate IsRound(e: Exchange) {
    if e.sent then e.result == Outcome(e.readable, e.id) && e.rest == Left(e.readable)
    else e.result == Fail(Transport(0x18)) && e.rest == e.readable
  }

  /** A run: ids count up from 1 in 16 bits, each exchange reads on where the one before stopped. */
  ghost predicate IsRun(history: seq<Exchange>) {
    && (forall i :: 0 <= i < |history| ==> history[i].id == (i + 1) % 0x1_0000 && IsRound(history[i]))
    && (forall i :: 0 < i < |history| ==> GoesOn(history[i - 1], history[i].readable))
  }

  /**
   * Over any run and whatever the peer delivers, a stale reply is taken only by
   * an exchange whose number is 65535 modulo 65536.
   */
  lemma RunTakesNoStaleReply(history: seq<Exchange>, i: nat)
    requires IsRun(history) && i < |history| && !NotStale(history[i])
    ensures (i + 1) % 0x1_0000 == 0xFFFF
  {
    assert IsRound(history[i]);
    OnlyWildcardTakesStale(history[i].readable, history[i].id);
  }

  /** A frame that carries this PDU under this id. */
  predicate IsFrame(frame: seq<byte>, t: word, pdu: seq<byte>) {
    && 1 <= |pdu| <= 253 && |frame| == |pdu| + 7
    && TransactionOf(frame) == t && frame[2] == frame[3] == 0
    && Be16(frame[4], frame[5]) == |pdu| + 1 && frame[7..] == pdu
  }

  /** What goes out as a frame is one. */
  lemma BytesAreFrame(t: word, unit: byte, pdu: seq<byte>)
    requires 1 <= |pdu| <= 253
    ensures IsFrame(TcpBytes(t, unit, pdu), t, pdu)
  {
    hide PutBe16;
    var frame := TcpBytes(t, unit, pdu);
    assert frame[0] == PutBe16(t)[0] && frame[1] == PutBe16(t)[1];
    assert frame[4] == PutBe16(|pdu| + 1)[0] && frame[5] == PutBe16(|pdu| + 1)[1];
  }

  /** A frame at the front of the bytes is what the exchange reads, and what follows it is what stays. */
  lemma FrameIsRead(frame: seq<byte>, t: word, pdu: seq<byte>, s: seq<byte>, id: word)
    requires IsFrame(frame, t, pdu) && frame <= s
    ensures Outcome(s, id) == (if id == t || id == ANY_TRANSACTION then Ok(pdu) else Fail(Protocol(7)))
    ensures Left(s) == s[|frame|..]
  {
    assert s[4] == frame[4] && s[5] == frame[5];
    assert s[..|pdu| + 7] == frame;
    FrameSplits(frame, t, pdu, id);
    hide TcpSplit;
  }

  lemma FrameSplits(frame: seq<byte>, t: word, pdu: seq<byte>, id: word)
    requires IsFrame(frame, t, pdu)
    ensures TcpSplit(frame, id) == if id == t || id == ANY_TRANSACTION then Ok(pdu) else Fail(Protocol(7))
  {
    assert frame[7..|pdu| + 7] == frame[7..];
  }

  /** And that exchange really takes any well-formed reply, whatever request it answers. */
  lemma WildcardTakesAnything(frame: seq<byte>, t: word, pdu: seq<byte>)
    requires IsFrame(frame, t, pdu) && t != ANY_TRANSACTION
    ensures Outcome(frame, ANY_TRANSACTION) == Ok(pdu)
    ensures !NotStale(Round(ANY_TRANSACTION, true, frame, Outcome(frame, ANY_TRANSACTION), Left(frame)))
  {
    hide Outcome, Left;
    FrameIsRead(frame, t, pdu, frame, ANY_TRANSACTION);
  }

  lemma RunGrows(history: seq<Exchange>, e: Exchange, before: seq<byte>)
    requires IsRun(history) && IsRound(e) && e.id == (|history| + 1) % 0x1_0000
    requires before <= e.readable && (history != [] ==> GoesOn(history[|history| - 1], before))
    ensures IsRun(history + [e]) && GoesOn(e, e.rest)
  {
    hide IsRound;
    var more := history + [e];
    assert forall i :: 0 <= i < |history| ==> more[i] == history[i];
  }

  /**
   * From exchange k on the peer answers every request with one frame under its id,
   * and nothing else arrives. The frame of exchange k itself may still be unread.
   */
  ghost predicate AnsweredFrom(history: seq<Exchange>, k: nat, frames: seq<seq<byte>>, pdus: seq<seq<byte>>)
    requires |frames| == |pdus| == |history|
  {
    && (forall i :: k <= i < |history| ==> IsFrame(frames[i], history[i].id, pdus[i]))
    && (forall i :: k < i < |history| ==> history[i].sent && history[i].readable == history[i - 1].rest + frames[i])
  }

  /** Once in step, always in step: every such request gets its own reply. */
  lemma {:induction false} StaysInStep(history: seq<Exchange>, k: nat, frames: seq<seq<byte>>, pdus: seq<seq<byte>>,
                                       i: nat)
    requires IsRun(history) && |frames| == |pdus| == |history| && AnsweredFrom(history, k, frames, pdus)
    requires k <= i < |history| && history[k].rest == []
    ensures history[i].rest == []
    ensures i > k ==> history[i].result == Ok(pdus[i])
  {
    hide Outcome, Left, IsFrame;
    if i > k {
      StaysInStep(history, k, frames, pdus, i - 1);
      assert history[i].readable == [] + frames[i] == frames[i];
      FrameIsRead(frames[i], history[i].id, pdus[i], frames[i], history[i].id);
    }
  }

  /**
   * Once one reply behind, always behind: when a reply is left in the stream, every
   * later exchange reads the reply to the one before it. It is refused, and not as
   * an error of the link, so no new connection is made; only under the id 0xFFFF is
   * the wrong reply taken.
   */
  lemma {:induction false} StaysOneBehind(history: seq<Exchange>, k: nat, frames: seq<seq<byte>>,
                                          pdus: seq<seq<byte>>, i: nat)
    requires IsRun(history) && |frames| == |pdus| == |history| && AnsweredFrom(history, k, frames, pdus)
    requires k <= i < |history| && history[k].rest == frames[k]
    ensures history[i].rest == frames[i]
    ensures i > k ==>
              history[i].result == if history[i].id == ANY_TRANSACTION then Ok(pdus[i - 1]) else Fail(Protocol(7))
  {
    hide Outcome, Left, IsFrame;
    if i > k {
      StaysOneBehind(history, k, frames, pdus, i - 1);
      FrameIsRead(frames[i - 1], history[i - 1].id, pdus[i - 1], frames[i - 1] + frames[i], history[i].id);
    }
  }
}
