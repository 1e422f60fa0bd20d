/**
 * The PDUs of the MODBUS Application Protocol V1.1b3 (sections 6.1 to 6.6,
 * 6.11, 6.12 and 7): how the client writes and checks them, and a device that
 * answers them from coil and register memory.
 */
module ModbusDevice {
  import opened Common
  import opened Bits
  import opened ModbusTypes

  // -------------------------------------------------------------- payloads

  /** Up to eight flags in a byte, the first in the lowest bit. */
  function PackByte(flags: seq<bool>): (b: nat)
    requires |flags| <= 8
    ensures b < Pow2(|flags|)
  {
    if flags == [] then 0 else (if flags[0] then 1 else 0) + 2 * PackByte(flags[1..])
  }

  /** Flags packed low bit first, the last byte filled up with zeros. */
  function PackBits(flags: seq<bool>): (s: seq<byte>)
    ensures |s| == (|flags| + 7) / 8
  {
    if flags == [] then []
    else
      var n := if |flags| < 8 then |flags| else 8;
      assert PackByte(flags[..n]) < 0x100 by {
        PowersOfTwo();
        Pow2Grows(n, 8);
      }
      [PackByte(flags[..n])] + PackBits(flags[n..])
  }

  function Flag(on: bool): nat {
    if on then 1 else 0
  }

  lemma {:induction false} BitOfPackByte(flags: seq<bool>, k: nat)
    requires |flags| <= 8
    ensures BitOf(PackByte(flags), k) == if k < |flags| then Flag(flags[k]) else 0
    decreases k
  {
    if flags == [] {
      ShrOfZero(k);
    } else {
      FlagAndRest(Flag(flags[0]), PackByte(flags[1..]));
      if k > 0 {
        BitOfPackByte(flags[1..], k - 1);
      }
    }
  }

  lemma {:induction false} ShrOfZero(k: nat)
    ensures Shr(0, k) == 0
    decreases k
  {
    if k > 0 {
      ShrOfZero(k - 1);
    }
  }

  /** Line bit i of packed flags is flag i; the bits after the last flag are zero. */
  lemma {:induction false} LineBitOfPackBits(flags: seq<bool>, i: nat)
    requires i < 8 * |PackBits(flags)|
    ensures LineBit(PackBits(flags), i) == if i < |flags| then Flag(flags[i]) else 0
    decreases |flags|
  {
    var n := if |flags| < 8 then |flags| else 8;
    FirstByte(flags, n);
    hide BitOf, PackByte, PackBits;
    if i < 8 {
      BitOfPackByte(flags[..n], i);
      assert PackBits(flags)[i / 8] == PackByte(flags[..n]);
    } else {
      NextByte(i);
      LineBitOfPackBits(flags[n..], i - 8);
      assert PackBits(flags)[i / 8] == PackBits(flags[n..])[i / 8 - 1];
    }
  }

  lemma FirstByte(flags: seq<bool>, n: nat)
    requires flags != [] && n == if |flags| < 8 then |flags| else 8
    ensures PackBits(flags) == [PackByte(flags[..n])] + PackBits(flags[n..])
  {
    hide PackByte;
  }

  lemma NextByte(i: nat)
    requires i >= 8
    ensures (i - 8) / 8 == i / 8 - 1 && (i - 8) % 8 == i % 8
  {
  }

  /** The first n line bits of s as flags. */
  function UnpackBits(s: seq<byte>, n: nat): (flags: seq<bool>)
    requires n <= 8 * |s|
    ensures |flags| == n
  {
    seq(n, i requires 0 <= i < n => LineBit(s, i) == 1)
  }

  lemma UnpackPacked(flags: seq<bool>)
    ensures UnpackBits(PackBits(flags), |flags|) == flags
  {
    forall i | 0 <= i < |flags|
      ensures UnpackBits(PackBits(flags), |flags|)[i] == flags[i]
    {
      LineBitOfPackBits(flags, i);
    }
  }

  /** Registers as big endian bytes. */
  function WordBytes(words: seq<word>): (s: seq<byte>)
    ensures |s| == 2 * |words|
  {
    if words == [] then [] else PutBe16(words[0]) + WordBytes(words[1..])
  }

  /** Big endian bytes as registers; an odd byte at the end is not one. */
  function BytesWords(s: seq<byte>): (words: seq<word>)
    ensures |words| == |s| / 2
  {
    if |s| < 2 then [] else [Be16(s[0], s[1])] + BytesWords(s[2..])
  }

  lemma {:induction false} WordsOfBytes(s: seq<byte>)
    requires |s| % 2 == 0
    ensures WordBytes(BytesWords(s)) == s
  {
    if s != [] {
      WordsOfBytes(s[2..]);
      PutBe16OfBe16(s[0], s[1]);
      assert s == [s[0], s[1]] + s[2..];
    }
  }

  lemma PutBe16OfBe16(hi: byte, lo: byte)
    ensures PutBe16(Be16(hi, lo)) == [hi, lo]
  {
  }

  lemma {:induction false} WordBytesJoin(a: seq<word>, b: seq<word>)
    ensures WordBytes(a + b) == WordBytes(a) + WordBytes(b)
  {
    if a == [] {
      assert a + b == b;
    } else {
      assert (a + b)[1..] == a[1..] + b;
      WordBytesJoin(a[1..], b);
    }
  }

  lemma Middle<T>(s: seq<T>, a: seq<T>, b: seq<T>, c: seq<T>, from: nat, to: nat)
    requires s == a + b + c && from == |a| && to == |a| + |b|
    ensures s[from..to] == b
  {
  }

  /** Bytes 2i to 2j of a register dump are registers i to j. */
  lemma WordBytesSlice(words: seq<word>, i: nat, j: nat)
    requires i <= j <= |words|
    ensures WordBytes(words)[2 * i..2 * j] == WordBytes(words[i..j])
  {
    hide WordBytes;
    ThreeParts(words, i, j);
    MiddleWords(words, words[..i], words[i..j], words[j..], 2 * i, 2 * j);
  }

  lemma ThreeParts<T>(s: seq<T>, i: nat, j: nat)
    requires i <= j <= |s|
    ensures s == s[..i] + s[i..j] + s[j..]
  {
  }

  lemma MiddleWords(words: seq<word>, a: seq<word>, b: seq<word>, c: seq<word>, from: nat, to: nat)
    requires words == a + b + c && from == 2 * |a| && to == from + 2 * |b|
    ensures WordBytes(words)[from..to] == WordBytes(b)
  {
    hide WordBytes;
    WordBytesJoin(a + b, c);
    WordBytesJoin(a, b);
    Middle(WordBytes(words), WordBytes(a), WordBytes(b), WordBytes(c), from, to);
  }

  // ----------------------------------------------------------- client PDUs

  const WRITE_COIL: byte := 0x05
  const WRITE_REGISTER: byte := 0x06
  const WRITE_COILS: byte := 0x0F
  const WRITE_REGISTERS: byte := 0x10

  /** The head of a request: function code, first address, and a count or a value. */
  predicate Asks(pdu: seq<byte>, code: byte, x: nat, y: nat) {
    |pdu| >= 5 && pdu[0] == code && Be16(pdu[1], pdu[2]) == x && Be16(pdu[3], pdu[4]) == y
  }

  /** Five bytes of a code and two 16 bit fields are such a head, whatever follows them. */
  lemma HeadAsks(pdu: seq<byte>, code: byte, x: nat, y: nat)
    requires |pdu| >= 5 && pdu[..5] == [code] + PutBe16(x) + PutBe16(y)
    ensures Asks(pdu, code, x % 0x1_0000, y % 0x1_0000)
  {
    hide PutBe16;
    var head := [code] + PutBe16(x) + PutBe16(y);
    assert pdu[0] == head[0] && pdu[1] == head[1] && pdu[2] == head[2] && pdu[3] == head[3] && pdu[4] == head[4];
  }

  /** Address and count go out as 16 bit fields. */
  function ReadPdu(code: byte, address: nat, count: nat): (pdu: seq<byte>)
    ensures |pdu| == 5 && pdu[0] == code && Asks(pdu, code, address % 0x1_0000, count % 0x1_0000)
  {
    var pdu := [code] + PutBe16(address) + PutBe16(count);
    assert pdu[..5] == pdu;
    HeadAsks(pdu, code, address, count);
    pdu
  }

  function WriteSinglePdu(code: byte, address: word, value: word): seq<byte> {
    [code] + PutBe16(address) + PutBe16(value)
  }

  function WriteMultiPdu(code: byte, address: word, count: word, data: seq<byte>): (r: Result<seq<byte>>) {
    if |data| > 255 then Fail(OutOfRange)
    else Ok([code] + PutBe16(address) + PutBe16(count) + [|data|] + data)
  }

  const EXCEPTIONS: set<nat> := {0x01, 0x02, 0x03, 0x04, 0x05, 0x06, 0x08, 0x0A, 0x0B}

  /** The error an exception reply stands for, if the reply is one. */
  function CheckException(pdu: seq<byte>, code: byte): (e: Option<Err>)
    requires code < 0x80
  {
    if |pdu| < 2 then Some(ParseError)
    else if pdu[0] != code + 0x80 then None
    else
      var why: nat := pdu[1];
      if why !in EXCEPTIONS then Some(Protocol(0x1FF))
      else if why == 0x05 || why == 0x06 || why == 0x08 then Some(Business(0x100 + why))
      else Some(Protocol(0x100 + why))
  }

  /** The data bytes of a read reply of the expected size. */
  function CheckReadReply(pdu: seq<byte>, code: byte, size: nat): (r: Result<seq<byte>>)
    requires code < 0x80
    ensures r.Ok? ==> |r.value| == size
  {
    var e := CheckException(pdu, code);
    if e.Some? then Fail(e.value)
    else if pdu[0] != code || |pdu| < 3 then Fail(Protocol(1))
    else if pdu[1] as int != size || |pdu| - 2 < size then Fail(Protocol(2))
    else Ok(pdu[2..2 + size])
  }

  /** A write is confirmed only by an echo of its address and its count or value. */
  function CheckWriteReply(pdu: seq<byte>, code: byte, address: word, count: word): (r: Result<()>)
    requires code < 0x80
  {
    var e := CheckException(pdu, code);
    if e.Some? then Fail(e.value)
    else if pdu[0] != code || |pdu| < 5 then Fail(Protocol(3))
    else if Be16(pdu[1], pdu[2]) != address || Be16(pdu[3], pdu[4]) != count then Fail(Protocol(4))
    else Ok(())
  }

  /** What each byte of an exception reply to a request stands for. */
  lemma ExceptionMeans(pdu: seq<byte>, code: byte)
    requires code < 0x80 && |pdu| >= 2 && pdu[0] == code + 0x80
    ensures pdu[1] in {1, 2, 3, 4, 10, 11} ==> CheckException(pdu, code) == Some(Protocol(0x100 + pdu[1] as nat))
    ensures pdu[1] in {5, 6, 8} ==> CheckException(pdu, code) == Some(Business(0x100 + pdu[1] as nat))
    ensures pdu[1] !in {1, 2, 3, 4, 5, 6, 8, 10, 11} ==> CheckException(pdu, code) == Some(Protocol(0x1FF))
  {
  }

  /** A read reply is taken exactly when it has the code, says its size and is that long; its data comes back. */
  lemma ReadReplyExactly(pdu: seq<byte>, code: byte, size: nat)
    requires code < 0x80
    ensures var r := CheckReadReply(pdu, code, size);
            && (r.Ok? <==> |pdu| >= 3 && pdu[0] == code && pdu[1] as int == size && |pdu| >= 2 + size)
            && (r.Ok? ==> r.value == pdu[2..2 + size])
            && (|pdu| >= 2 && pdu[0] != code && pdu[0] != code + 0x80 ==> r == Fail(Protocol(1)))
            && (|pdu| >= 3 && pdu[0] == code && r.Fail? ==> r == Fail(Protocol(2)))
  {
  }

  /** A write reply is taken exactly when it echoes code, address and count. */
  lemma WriteReplyExactly(pdu: seq<byte>, code: byte, address: word, count: word)
    requires code < 0x80
    ensures var r := CheckWriteReply(pdu, code, address, count);
            && (r.Ok? <==> && |pdu| >= 5 && pdu[0] == code
                           && pdu[1] as int * 0x100 + pdu[2] as int == address
                           && pdu[3] as int * 0x100 + pdu[4] as int == count)
            && (|pdu| >= 2 && pdu[0] != code && pdu[0] != code + 0x80 ==> r == Fail(Protocol(3)))
            && (|pdu| >= 5 && pdu[0] == code && r.Fail? ==> r == Fail(Protocol(4)))
  {
  }

  // ---------------------------------------------------------------- device

  datatype Device = Device(coils: seq<bool>, discretes: seq<bool>, inputs: seq<word>, holdings: seq<word>) {
    predicate Valid() {
      |coils| == |discretes| == |inputs| == |holdings| == 0x1_0000
    }

    function Flags(area: Area): seq<bool>
      requires area.IsBits()
    {
      if area == Coil then coils else discretes
    }

    function Words(area: Area): seq<word>
      requires !area.IsBits()
    {
      if area == Input then inputs else holdings
    }
  }

  function Exception(code: byte, why: byte): seq<byte> {
    [code % 0x80 + 0x80, why]
  }

  /** The data a read of an area returns, as the reply carries it. */
  function Payload(d: Device, area: Area, start: nat, count: nat): (s: seq<byte>)
    requires d.Valid() && start + count <= 0x1_0000
    ensures |s| == ReadSize(area, count)
  {
    if area.IsBits() then PackBits(d.Flags(area)[start..start + count])
    else WordBytes(d.Words(area)[start..start + count])
  }

  /** As many bytes of data as a read of so many bits or registers returns. */
  function ReadSize(area: Area, count: nat): nat {
    if area.IsBits() then (count + 7) / 8 else 2 * count
  }

  function ServeRead(d: Device, area: Area, start: nat, count: nat): (reply: seq<byte>)
    requires d.Valid()
  {
    var code := area.ReadCode();
    if count < 1 || count > (if area.IsBits() then 2000 else 125) then Exception(code, 0x03)
    else if start + count > 0x1_0000 then Exception(code, 0x02)
    else
      var data := Payload(d, area, start, count);
      [code, |data|] + data
  }

  /** A write that is carried out answers with the head of its request. */
  function ServeWriteCoils(d: Device, start: nat, count: nat, data: seq<byte>, head: seq<byte>)
    : (r: (Device, seq<byte>))
    requires d.Valid() && start < 0x1_0000 && count < 0x1_0000
    ensures r.0.Valid()
  {
    if count < 1 || count > 1968 || |data| != (count + 7) / 8 then (d, Exception(WRITE_COILS, 0x03))
    else if start + count > 0x1_0000 then (d, Exception(WRITE_COILS, 0x02))
    else (d.(coils := Splice(d.coils, start, UnpackBits(data, count))), head)
  }

  function ServeWriteRegisters(d: Device, start: nat, count: nat, data: seq<byte>, head: seq<byte>)
    : (r: (Device, seq<byte>))
    requires d.Valid() && start < 0x1_0000 && count < 0x1_0000
    ensures r.0.Valid()
  {
    if count < 1 || count > 123 || |data| != 2 * count then (d, Exception(WRITE_REGISTERS, 0x03))
    else if start + count > 0x1_0000 then (d, Exception(WRITE_REGISTERS, 0x02))
    else (d.(holdings := Splice(d.holdings, start, BytesWords(data))), head)
  }

  /** One request answered: the memory afterwards and the reply. */
  function Serve(d: Device, pdu: seq<byte>): (r: (Device, seq<byte>))
    requires d.Valid()
    ensures r.0.Valid()
  {
    if |pdu| < 5 then (d, Exception(if pdu == [] then 0 else pdu[0], 0x03))
    else
      var code, start, n := pdu[0], Be16(pdu[1], pdu[2]), Be16(pdu[3], pdu[4]);
      match code
      case 0x01 => (d, ServeRead(d, Coil, start, n))
      case 0x02 => (d, ServeRead(d, Discrete, start, n))
      case 0x03 => (d, ServeRead(d, Holding, start, n))
      case 0x04 => (d, ServeRead(d, Input, start, n))
      case 0x05 =>
        if n == 0xFF00 || n == 0 then (d.(coils := d.coils[start := n == 0xFF00]), pdu[..5])
        else (d, Exception(code, 0x03))
      case 0x06 => (d.(holdings := d.holdings[start := n]), pdu[..5])
      case 0x0F => if |pdu| < 6 then (d, Exception(code, 0x03)) else ServeWriteCoils(d, start, n, pdu[6..], pdu[..5])
      case 0x10 =>
        if |pdu| < 6 then (d, Exception(code, 0x03)) else ServeWriteRegisters(d, start, n, pdu[6..], pdu[..5])
      case _ => (d, Exception(code, 0x01))
  }

  /** A request repeated because its reply was lost changes nothing and is answered alike. */
  lemma ServeTwice(d: Device, pdu: seq<byte>)
    requires d.Valid()
    ensures Serve(Serve(d, pdu).0, pdu) == Serve(d, pdu)
  {
    hide PackBits, WordBytes, UnpackBits, BytesWords, Splice;
    if |pdu| >= 5 {
      var start, n := Be16(pdu[1], pdu[2]), Be16(pdu[3], pdu[4]);
      if |pdu| >= 6 && pdu[0] == 0x0F {
        CoilsTwice(d, start, n, pdu[6..], pdu[..5]);
      } else if |pdu| >= 6 && pdu[0] == 0x10 {
        RegistersTwice(d, start, n, pdu[6..], pdu[..5]);
      } else {
        SetTwice(d.coils, start, n == 0xFF00);
        SetTwice(d.holdings, start, n);
      }
    }
  }

  lemma SetTwice<T>(s: seq<T>, at: nat, x: T)
    requires at < |s|
    ensures s[at := x][at := x] == s[at := x]
  {
  }

  lemma CoilsTwice(d: Device, start: nat, n: nat, data: seq<byte>, head: seq<byte>)
    requires d.Valid() && start < 0x1_0000 && n < 0x1_0000
    ensures ServeWriteCoils(ServeWriteCoils(d, start, n, data, head).0, start, n, data, head)
            == ServeWriteCoils(d, start, n, data, head)
  {
    hide UnpackBits, Splice;
    if 1 <= n <= 1968 && |data| == (n + 7) / 8 && start + n <= 0x1_0000 {
      SpliceTwice(d.coils, start, UnpackBits(data, n));
    }
  }

  lemma RegistersTwice(d: Device, start: nat, n: nat, data: seq<byte>, head: seq<byte>)
    requires d.Valid() && start < 0x1_0000 && n < 0x1_0000
    ensures ServeWriteRegisters(ServeWriteRegisters(d, start, n, data, head).0, start, n, data, head)
            == ServeWriteRegisters(d, start, n, data, head)
  {
    hide BytesWords, Splice;
    if 1 <= n <= 123 && |data| == 2 * n && start + n <= 0x1_0000 {
      SpliceTwice(d.holdings, start, BytesWords(data));
    }
  }

  /** The reply to a legal read, spelled out. */
  lemma ReadReply(d: Device, area: Area, start: nat, count: nat, pdu: seq<byte>)
    requires d.Valid() && 1 <= count <= area.MaxRead() && start + count <= 0x1_0000
    requires Asks(pdu, area.ReadCode(), start, count)
    ensures var data := Payload(d, area, start, count);
            |data| < 0x100 && Serve(d, pdu) == (d, [area.ReadCode(), |data|] + data)
  {
    hide Payload;
  }

  /** A read within the limits comes back as the data it asked for, memory untouched. */
  lemma ReadIsServed(d: Device, area: Area, start: nat, count: nat, pdu: seq<byte>)
    requires d.Valid() && 1 <= count <= area.MaxRead() && start + count <= 0x1_0000
    requires Asks(pdu, area.ReadCode(), start, count)
    ensures Serve(d, pdu).0 == d
    ensures CheckReadReply(Serve(d, pdu).1, area.ReadCode(), ReadSize(area, count))
              == Ok(Payload(d, area, start, count))
  {
    ReadReply(d, area, start, count, pdu);
    hide Serve, Payload;
    var data := Payload(d, area, start, count);
    assert ([area.ReadCode(), |data|] + data)[2..2 + |data|] == data;
  }

  /** No read changes the device, legal or not. */
  lemma ReadLeaves(d: Device, area: Area, pdu: seq<byte>)
    requires d.Valid() && |pdu| == 5 && pdu[0] == area.ReadCode()
    ensures Serve(d, pdu).0 == d
  {
  }
}
