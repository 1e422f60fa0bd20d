/**
 * The two Modbus envelopes: the CRC frame of the serial line and the MBAP
 * header of MODBUS Messaging on TCP/IP V1.0b, section 3.1.3.
 */
module ModbusFrames {
  import opened Common
  import opened Bits
  import opened ModbusCrc

  // --------------------------------------------------------------------- RTU

  /** Unit, PDU, CRC low byte first. */
  function RtuBytes(unit: byte, pdu: seq<byte>): (frame: seq<byte>)
    ensures |frame| == |pdu| + 3
  {
    var body := [unit] + pdu;
    RunFits(SEED, body);
    body + [Crc(body) % 0x100, Crc(body) / 0x100]
  }

  /** The example frame of the standard, byte by byte. */
  lemma ExampleOnTheLine()
    ensures RtuBytes(0x02, [0x07]) == [0x02, 0x07, 0x41, 0x12]
  {
    hide Crc;
    ExampleFrame();
    assert [0x02] + [0x07] == [0x02, 0x07];
  }

  /** Fills `out` with the frame; answers its length, or 0 when it does not fit. */
  method RtuFrame(out: array<byte>, unit: byte, pdu: seq<byte>) returns (n: nat)
    modifies out
    ensures n == 0 <==> |pdu| > 252 || out.Length < |pdu| + 3
    ensures n > 0 ==> n == |pdu| + 3 && out[..n] == RtuBytes(unit, pdu)
    ensures out[n..] == old(out[n..])
  {
    if |pdu| > 252 || out.Length < |pdu| + 3 {
      return 0;
    }
    n := |pdu| + 3;
    out[0] := unit;
    forall i | 0 <= i < |pdu| {
      out[1 + i] := pdu[i];
    }
    assert out[..|pdu| + 1] == [unit] + pdu;
    var crc := Crc16(out[..|pdu| + 1]);
    out[|pdu| + 1] := crc % 0x100;
    out[|pdu| + 2] := crc / 0x100;
    assert out[..n] == [unit] + pdu + [crc % 0x100, crc / 0x100];
  }

  /** The PDU inside a received frame. */
  function RtuSplit(frame: seq<byte>, wantUnit: byte): (r: Result<seq<byte>>) {
    if |frame| < 4 then Fail(ParseError)
    else if frame[0] != wantUnit then Fail(Protocol(8))
    else
      var n := |frame| - 2;
      if Crc(frame[..n]) != Be16(frame[n + 1], frame[n]) then Fail(Transport(2))
      else Ok(frame[1..n])
  }

  /** A frame is accepted exactly when it is addressed to us and its CRC residue is zero. */
  lemma RtuAcceptsExactly(frame: seq<byte>, unit: byte)
    ensures RtuSplit(frame, unit).Ok? <==> |frame| >= 4 && frame[0] == unit && Crc(frame) == 0
  {
    if |frame| >= 4 {
      var n := |frame| - 2;
      ResidueIsZero(frame[..n], frame[n], frame[n + 1]);
      assert frame == frame[..n] + [frame[n], frame[n + 1]];
    }
  }

  /** What a frame that is not accepted is refused as. */
  lemma RtuRefusals(frame: seq<byte>, unit: byte)
    ensures |frame| < 4 ==> RtuSplit(frame, unit) == Fail(ParseError)
    ensures |frame| >= 4 && frame[0] != unit ==> RtuSplit(frame, unit) == Fail(Protocol(8))
    ensures |frame| >= 4 && frame[0] == unit && Crc(frame) != 0 ==> RtuSplit(frame, unit) == Fail(Transport(2))
  {
    hide Crc;
    RtuAcceptsExactly(frame, unit);
  }

  lemma RtuRoundTrip(unit: byte, pdu: seq<byte>)
    requires |pdu| >= 1
    ensures RtuSplit(RtuBytes(unit, pdu), unit) == Ok(pdu)
  {
    var frame, body := RtuBytes(unit, pdu), [unit] + pdu;
    RunFits(SEED, body);
    assert frame[..|frame| - 2] == body;
    assert frame[1..|frame| - 2] == pdu;
  }

  /**
   * Whatever the length of a frame, a corruption confined to 16 consecutive
   * bits in line order is never accepted.
   */
  lemma RtuRejectsBurst(sent: seq<byte>, got: seq<byte>, unit: byte, p: nat)
    requires RtuSplit(sent, unit).Ok? && |got| == |sent| && got != sent
    requires forall i :: 0 <= i < 8 * |sent| && LineBit(sent, i) != LineBit(got, i) ==> p <= i < p + 16
    ensures RtuSplit(got, unit).Fail?
  {
    RtuAcceptsExactly(sent, unit);
    RtuAcceptsExactly(got, unit);
    BurstChangesCrc(sent, got, p);
  }

  /** In particular any corruption of two neighbouring bytes is caught. */
  lemma RtuRejectsAdjacentBytes(sent: seq<byte>, got: seq<byte>, unit: byte, k: nat)
    requires RtuSplit(sent, unit).Ok? && |got| == |sent| && got != sent
    requires forall i :: 0 <= i < |sent| && i != k && i != k + 1 ==> got[i] == sent[i]
    ensures RtuSplit(got, unit).Fail?
  {
    forall i | 0 <= i < 8 * |sent| && LineBit(sent, i) != LineBit(got, i)
      ensures 8 * k <= i < 8 * k + 16
    {
      assert i / 8 == k || i / 8 == k + 1;
    }
    RtuRejectsBurst(sent, got, unit, 8 * k);
  }

  /** How long a reply will be, as soon as its first bytes say so. */
  function RtuReplySize(head: seq<byte>): (r: Result<nat>) {
    if |head| < 2 then Fail(InvalidArg)
    else if head[1] >= 0x80 then Ok(5)
    else if head[1] in {0x01, 0x02, 0x03, 0x04} then
      if |head| < 3 then Fail(OutOfRange) else Ok(5 + head[2] as int)
    else if head[1] in {0x05, 0x06, 0x0F, 0x10} then Ok(8)
    else Fail(Protocol(9))
  }

  // --------------------------------------------------------------------- TCP

  /** MBAP header and PDU. */
  function TcpBytes(transaction: word, unit: byte, pdu: seq<byte>): (frame: seq<byte>)
    ensures |frame| == |pdu| + 7
  {
    PutBe16(transaction) + [0, 0] + PutBe16(|pdu| + 1) + [unit] + pdu
  }

  method TcpFrame(out: array<byte>, transaction: word, unit: byte, pdu: seq<byte>) returns (n: nat)
    modifies out
    ensures n == 0 <==> |pdu| > 253 || out.Length < |pdu| + 7
    ensures n > 0 ==> n == |pdu| + 7 && out[..n] == TcpBytes(transaction, unit, pdu)
    ensures out[n..] == old(out[n..])
  {
    if |pdu| > 253 || out.Length < |pdu| + 7 {
      return 0;
    }
    n := |pdu| + 7;
    out[0], out[1] := transaction / 0x100 % 0x100, transaction % 0x100;
    out[2], out[3] := 0, 0;
    out[4], out[5] := (|pdu| + 1) / 0x100 % 0x100, (|pdu| + 1) % 0x100;
    out[6] := unit;
    forall i | 0 <= i < |pdu| {
      out[7 + i] := pdu[i];
    }
    assert out[..7] == PutBe16(transaction) + [0, 0] + PutBe16(|pdu| + 1) + [unit];
    assert out[7..n] == pdu;
    assert out[..n] == out[..7] + out[7..n];
  }

  const ANY_TRANSACTION: word := 0xFFFF

  function TransactionOf(frame: seq<byte>): word
    requires |frame| >= 2
  {
    Be16(frame[0], frame[1])
  }

  /** The PDU of a frame, if it is complete and answers the wanted transaction. */
  function TcpSplit(frame: seq<byte>, want: word): (r: Result<seq<byte>>) {
    if |frame| < 8 then Fail(ParseError)
    else if frame[2] != 0 || frame[3] != 0 then Fail(Protocol(5))
    else
      var length := Be16(frame[4], frame[5]);
      if length < 2 || length > 254 then Fail(Protocol(6))
      else if |frame| < length + 6 then Fail(OutOfRange)
      else if want != ANY_TRANSACTION && TransactionOf(frame) != want then Fail(Protocol(7))
      else Ok(frame[7..length + 6])
  }

  /** Which bytes are taken as a reply in TCP, and what comes out of them. */
  lemma TcpSplitExactly(frame: seq<byte>, want: word)
    ensures TcpSplit(frame, want).Ok? <==>
              && |frame| >= 8 && frame[2] == 0 && frame[3] == 0
              && 2 <= frame[4] as int * 0x100 + frame[5] as int <= 254
              && |frame| >= frame[4] as int * 0x100 + frame[5] as int + 6
              && (want == 0xFFFF || frame[0] as int * 0x100 + frame[1] as int == want)
    ensures TcpSplit(frame, want).Ok? ==>
              TcpSplit(frame, want).value == frame[7..frame[4] as int * 0x100 + frame[5] as int + 6]
    ensures TcpSplit(frame, want) == Fail(Protocol(7)) <==>
              TcpSplit(frame, 0xFFFF).Ok? && want != 0xFFFF && frame[0] as int * 0x100 + frame[1] as int != want
  {
  }

  /**
   * A complete reply to transaction t is accepted by a caller waiting for
   * transaction w exactly when w is t, or w is the wildcard 0xFFFF; when it is
   * accepted its PDU comes back unchanged.
   */
  lemma TcpTakesStaleExactly(t: word, unit: byte, pdu: seq<byte>, rest: seq<byte>, w: word)
    requires 1 <= |pdu| <= 253
    ensures TcpSplit(TcpBytes(t, unit, pdu) + rest, w).Ok? <==> w == t || w == ANY_TRANSACTION
    ensures TcpSplit(TcpBytes(t, unit, pdu) + rest, w).Ok? ==> TcpSplit(TcpBytes(t, unit, pdu) + rest, w) == Ok(pdu)
  {
    var frame := TcpBytes(t, unit, pdu) + rest;
    assert TransactionOf(frame) == t;
    assert frame[4] == PutBe16(|pdu| + 1)[0] && frame[5] == PutBe16(|pdu| + 1)[1];
    assert Be16(frame[4], frame[5]) == |pdu| + 1;
    assert frame[7..|pdu| + 7] == pdu;
  }
}
