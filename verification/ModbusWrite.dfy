/**
 * Batch writes: how a value becomes one request, what a confirmed request has
 * done to the device, and what reading it back then gives.
 */
module ModbusWrite {
  import opened Common
  import opened Bits
  import opened ModbusTypes
  import opened ModbusPlan
  import opened ModbusCodec
  import opened ModbusDevice
  import opened ModbusItems
  import opened ModbusSlots
  import opened ModbusMaster

  // ------------------------------------------------------------------ images

  /** JSON as a flag: booleans, and numbers other than zero. */
  function FlagOf(v: Value): Option<bool> {
    match v
    case Bool(b) => Some(b)
    case Int(n) => Some(n != 0)
    case _ => None
  }

  /** Entry i of an array value; a scalar stands for every entry. */
  function EntryOrSelf(v: Value, i: nat): Option<Value> {
    if v.List? then (if i < |v.items| then Some(v.items[i]) else None) else Some(v)
  }

  /** The value of element i of a register address: arrays must bring one each. */
  function RegisterEntry(a: Address, v: Value, i: nat): Option<Value> {
    if a.length <= 1 then Some(v)
    else if v.List? && i < |v.items| then Some(v.items[i])
    else None
  }

  /** The first n flags a value gives. */
  function FlagsOf(v: Value, n: nat): (r: Result<seq<bool>>)
    ensures r.Ok? ==> |r.value| == n
  {
    if n == 0 then Ok([])
    else
      var front :- FlagsOf(v, n - 1);
      var entry := EntryOrSelf(v, n - 1);
      if entry == None || FlagOf(entry.value) == None then Fail(InvalidValue)
      else Ok(front + [FlagOf(entry.value).value])
  }

  const PAYLOAD_MAX: nat := 250

  /** The bytes of the first n elements of a register address. */
  function ElementBytes(a: Address, v: Value, order: Order, n: nat): (r: Result<seq<byte>>) {
    if n == 0 then Ok([])
    else
      var front :- ElementBytes(a, v, order, n - 1);
      var entry := RegisterEntry(a, v, n - 1);
      if entry == None || |front| + 2 * ElementWidth(a) > PAYLOAD_MAX then Fail(InvalidValue)
      else
        var bytes :- EncodeTo(entry.value, a.dtype, 0, order, PAYLOAD_MAX - |front|);
        Ok(front + bytes)
  }

  /** The register bytes of a whole address; a string is filled up to whole registers with a zero. */
  function RegisterBytes(a: Address, v: Value, order: Order): (r: Result<seq<byte>>) {
    if a.dtype == Text then
      var text :- EncodeTo(v, Text, a.length, order, PAYLOAD_MAX);
      Ok(if |text| % 2 != 0 then text + [0] else text)
    else ElementBytes(a, v, order, a.length)
  }

  /** One write on the bus: its PDU, and what a confirmation must echo. */
  datatype WriteJob = WriteJob(pdu: seq<byte>, code: byte, echo: word)

  function CoilJob(a: Address, v: Value, bus: word): (r: Result<WriteJob>) {
    if a.length <= 1 then
      var flags :- FlagsOf(v, 1);
      var word := if flags[0] then 0xFF00 else 0;
      Ok(WriteJob(WriteSinglePdu(WRITE_COIL, bus, word), WRITE_COIL, word))
    else if a.length > Coil.MaxWrite() then Fail(OutOfRange)
    else
      var flags :- FlagsOf(v, a.length);
      var pdu :- WriteMultiPdu(WRITE_COILS, bus, a.length, PackBits(flags));
      Ok(WriteJob(pdu, WRITE_COILS, a.length))
  }

  function RegisterJob(a: Address, v: Value, bus: word, order: Order): (r: Result<WriteJob>) {
    var bytes :- RegisterBytes(a, v, order);
    var count := |bytes| / 2;
    if count == 0 then Fail(InvalidValue)
    else if count > Holding.MaxWrite() then Fail(OutOfRange)
    else if count == 1 then
      var word := Be16(bytes[0], bytes[1]);
      Ok(WriteJob(WriteSinglePdu(WRITE_REGISTER, bus, word), WRITE_REGISTER, word))
    else
      var pdu :- WriteMultiPdu(WRITE_REGISTERS, bus, count, bytes);
      Ok(WriteJob(pdu, WRITE_REGISTERS, count))
  }

  function JobOf(a: Address, v: Value, bus: word, order: Order): (r: Result<WriteJob>) {
    if AddressIsBits(a) then CoilJob(a, v, bus) else RegisterJob(a, v, bus, order)
  }

  // ------------------------------------------------------------ the encoders

  /** The first n bits of `out` are the flags, all others are clear. */
  ghost predicate Packed(out: seq<byte>, flags: seq<bool>) {
    forall i :: 0 <= i < 8 * |out| ==> LineBit(out, i) == if i < |flags| then Flag(flags[i]) else 0
  }

  lemma PackedIsPackBits(out: seq<byte>, flags: seq<bool>)
    requires Packed(out, flags) && |out| == (|flags| + 7) / 8
    ensures out == PackBits(flags)
  {
    hide BitOf, PackBits;
    forall k | 0 <= k < |out|
      ensures out[k] == PackBits(flags)[k]
    {
      forall j | 0 <= j < 8
        ensures BitOf(out[k], j) == BitOf(PackBits(flags)[k], j)
      {
        var i := 8 * k + j;
        assert i / 8 == k && i % 8 == j;
        LineBitOfPackBits(flags, i);
        assert LineBit(out, i) == LineBit(PackBits(flags), i);
      }
      PowersOfTwo();
      SameBits(out[k], PackBits(flags)[k], 8);
    }
  }

  lemma SetOneBit(now: seq<byte>, next: seq<byte>, flags: seq<bool>)
    requires Packed(now, flags) && |flags| < 8 * |now|
    requires next == now[|flags| / 8 := SetByte(now[|flags| / 8], |flags| % 8)]
    ensures Packed(next, flags + [true])
  {
    hide BitOf;
    var n := |flags|;
    forall i | 0 <= i < 8 * |next|
      ensures LineBit(next, i) == if i < n + 1 then Flag((flags + [true])[i]) else 0
    {
      assert LineBit(now, i) == if i < n then Flag(flags[i]) else 0;
      if i / 8 == n / 8 {
        SetBitSets(now[n / 8], n % 8, i % 8);
      }
    }
  }

  function SetByte(b: byte, k: nat): (c: byte)
    requires k < 8
  {
    PowersOfTwo();
    SetBitFits(b, k, 8);
    SetBit(b, k)
  }

  /** Packs `length` flags of a value into `out`, low bit first. */
  method PackCoils(v: Value, length: nat, out: array<byte>) returns (r: Result<()>)
    requires out.Length == (length + 7) / 8
    modifies out
    ensures r == if FlagsOf(v, length).Ok? then Ok(()) else Fail(FlagsOf(v, length).error)
    ensures r.Ok? ==> out[..] == PackBits(FlagsOf(v, length).value)
  {
    forall i | 0 <= i < out.Length {
      out[i] := 0;
    }
    ClearIsPacked(out[..]);
    for i := 0 to length
      invariant FlagsOf(v, i).Ok? && Packed(out[..], FlagsOf(v, i).value)
    {
      var element := EntryOrSelf(v, i);
      if element == None || FlagOf(element.value) == None {
        FailureSticks(v, i + 1, length);
        return Fail(InvalidValue);
      }
      ghost var now := out[..];
      if FlagOf(element.value).value {
        out[i / 8] := SetByte(out[i / 8], i % 8);
        SetOneBit(now, out[..], FlagsOf(v, i).value);
      }
    }
    PackedIsPackBits(out[..], FlagsOf(v, length).value);
    return Ok(());
  }

  lemma ClearIsPacked(out: seq<byte>)
    requires forall i :: 0 <= i < |out| ==> out[i] == 0
    ensures Packed(out, [])
  {
    forall i | 0 <= i < 8 * |out|
      ensures LineBit(out, i) == 0
    {
      ShrOfZero(i % 8);
    }
  }

  lemma {:induction false} FailureSticks(v: Value, m: nat, n: nat)
    requires m <= n && FlagsOf(v, m) == Fail(InvalidValue)
    ensures FlagsOf(v, n) == Fail(InvalidValue)
  {
    if m < n {
      FailureSticks(v, m, n - 1);
    }
  }

  /** The registers of a write, element after element. */
  method EncodeRegisters(a: Address, v: Value, order: Order) returns (r: Result<seq<byte>>)
    ensures r == RegisterBytes(a, v, order)
  {
    hide EncodeTo;
    if a.dtype == Text {
      var text := Encode(v, Text, a.length, order, PAYLOAD_MAX);
      if text.Fail? {
        return text;
      }
      return Ok(if |text.value| % 2 != 0 then text.value + [0] else text.value);
    }
    r := EncodeElements(a, v, order);
  }

  method EncodeElements(a: Address, v: Value, order: Order) returns (r: Result<seq<byte>>)
    ensures r == ElementBytes(a, v, order, a.length)
  {
    hide EncodeTo, ElementWidth, ElementBytes;
    var width := ElementWidth(a);
    var payload: seq<byte> := [];
    ElementBytesStart(a, v, order);
    for element := 0 to a.length
      invariant ElementBytes(a, v, order, element) == Ok(payload) && |payload| <= PAYLOAD_MAX
    {
      BytesFailureSticks(a, v, order, element + 1, a.length);
      ElementBytesStep(a, v, order, element);
      var one := RegisterEntry(a, v, element);
      if one == None || |payload| + 2 * width > PAYLOAD_MAX {
        return Fail(InvalidValue);
      }
      var bytes := Encode(one.value, a.dtype, 0, order, PAYLOAD_MAX - |payload|);
      if bytes.Fail? {
        return bytes;
      }
      EncodedFits(one.value, a.dtype, order, PAYLOAD_MAX - |payload|);
      payload := payload + bytes.value;
    }
    return Ok(payload);
  }

  lemma ElementBytesStart(a: Address, v: Value, order: Order)
    ensures ElementBytes(a, v, order, 0) == Ok([])
  {
  }

  lemma ElementBytesStep(a: Address, v: Value, order: Order, n: nat)
    requires ElementBytes(a, v, order, n).Ok?
    ensures var front, entry := ElementBytes(a, v, order, n).value, RegisterEntry(a, v, n);
            if entry == None || |front| + 2 * ElementWidth(a) > PAYLOAD_MAX
            then ElementBytes(a, v, order, n + 1) == Fail(InvalidValue)
            else
              var bytes := EncodeTo(entry.value, a.dtype, 0, order, PAYLOAD_MAX - |front|);
              ElementBytes(a, v, order, n + 1) == if bytes.Fail? then Fail(bytes.error) else Ok(front + bytes.value)
  {
    hide EncodeTo, ElementWidth;
  }

  lemma EncodedFits(v: Value, dtype: DType, order: Order, cap: nat)
    ensures EncodeTo(v, dtype, 0, order, cap).Ok? ==> |EncodeTo(v, dtype, 0, order, cap).value| <= cap
  {
  }

  lemma {:induction false} BytesFailureSticks(a: Address, v: Value, order: Order, m: nat, n: nat)
    requires m <= n
    ensures ElementBytes(a, v, order, m).Fail? ==> ElementBytes(a, v, order, n) == ElementBytes(a, v, order, m)
  {
    if m < n {
      BytesFailureSticks(a, v, order, m, n - 1);
    }
  }

  method CoilRequest(a: Address, v: Value, bus: word) returns (r: Result<WriteJob>)
    ensures r == CoilJob(a, v, bus)
  {
    hide PackBits;
    if a.length <= 1 {
      var one := EntryOrSelf(v, 0);
      assert FlagsOf(v, 0) == Ok([]);
      if one == None || FlagOf(one.value) == None {
        return Fail(InvalidValue);
      }
      assert FlagsOf(v, 1) == Ok([] + [FlagOf(one.value).value]);
      var word := if FlagOf(one.value).value then 0xFF00 else 0;
      return Ok(WriteJob(WriteSinglePdu(WRITE_COIL, bus, word), WRITE_COIL, word));
    }
    if a.length > Coil.MaxWrite() {
      return Fail(OutOfRange);
    }
    var packed := new byte[(a.length + 7) / 8];
    var done := PackCoils(v, a.length, packed);
    if done.Fail? {
      return Fail(done.error);
    }
    var pdu := WriteMultiPdu(WRITE_COILS, bus, a.length, packed[..]);
    if pdu.Fail? {
      return Fail(pdu.error);
    }
    return Ok(WriteJob(pdu.value, WRITE_COILS, a.length));
  }

  method RegisterRequest(a: Address, v: Value, bus: word, order: Order) returns (r: Result<WriteJob>)
    ensures r == RegisterJob(a, v, bus, order)
  {
    hide RegisterBytes, WriteSinglePdu, WriteMultiPdu;
    var payload := EncodeRegisters(a, v, order);
    if payload.Fail? {
      return Fail(payload.error);
    }
    var bytes := payload.value;
    var registers := |bytes| / 2;
    if registers == 0 {
      return Fail(InvalidValue);
    }
    if registers > Holding.MaxWrite() {
      return Fail(OutOfRange);
    }
    if registers == 1 {
      var word := Be16(bytes[0], bytes[1]);
      return Ok(WriteJob(WriteSinglePdu(WRITE_REGISTER, bus, word), WRITE_REGISTER, word));
    }
    var pdu := WriteMultiPdu(WRITE_REGISTERS, bus, registers, bytes);
    if pdu.Fail? {
      return Fail(pdu.error);
    }
    return Ok(WriteJob(pdu.value, WRITE_REGISTERS, registers));
  }

  // ------------------------------------------------------- what a write does

  /** The cells an address is to hold. */
  datatype Image = Flags(flags: seq<bool>) | Words(words: seq<word>) {
    function Count(): nat {
      if Flags? then |flags| else |words|
    }
  }

  function ImageOf(a: Address, v: Value, order: Order): (r: Result<Image>) {
    if AddressIsBits(a) then
      var flags :- FlagsOf(v, if a.length <= 1 then 1 else a.length);
      Ok(Flags(flags))
    else
      var bytes :- RegisterBytes(a, v, order);
      Ok(Words(BytesWords(bytes)))
  }

  /** The device with these cells, and only these, replaced. */
  function Put(d: Device, bus: nat, image: Image): (d': Device)
    requires d.Valid() && bus + image.Count() <= 0x1_0000
    ensures d'.Valid()
  {
    if image.Flags? then d.(coils := Splice(d.coils, bus, image.flags))
    else d.(holdings := Splice(d.holdings, bus, image.words))
  }

  lemma {:induction false} ElementBytesCount(a: Address, v: Value, order: Order, n: nat)
    requires a.dtype != Text
    ensures ElementBytes(a, v, order, n).Ok? ==>
              |ElementBytes(a, v, order, n).value| == 2 * RegistersPerElement(a.dtype) * n
    ensures ElementBytes(a, v, order, n).Ok? && n > 0 ==> a.dtype != Bit
  {
    hide EncodeTo, RegistersPerElement, ElementWidth, RegisterEntry;
    if n > 0 {
      ElementBytesCount(a, v, order, n - 1);
      var w := 2 * RegistersPerElement(a.dtype);
      assert w * n == w * (n - 1) + w;
      if ElementBytes(a, v, order, n).Ok? {
        EncodedSize(RegisterEntry(a, v, n - 1).value, a.dtype, order,
                    PAYLOAD_MAX - |ElementBytes(a, v, order, n - 1).value|);
      }
    }
  }

  lemma EncodedSize(v: Value, dtype: DType, order: Order, cap: nat)
    requires dtype != Text && EncodeTo(v, dtype, 0, order, cap).Ok?
    ensures |EncodeTo(v, dtype, 0, order, cap).value| == 2 * RegistersPerElement(dtype) && dtype != Bit
  {
  }

  lemma RegisterBytesAreWhole(a: Address, v: Value, order: Order)
    requires RegisterBytes(a, v, order).Ok?
    ensures |RegisterBytes(a, v, order).value| % 2 == 0
    ensures a.dtype == Text ==> |RegisterBytes(a, v, order).value| == (a.length + 1) / 2 * 2
    ensures a.dtype != Text ==> |RegisterBytes(a, v, order).value| == 2 * (RegistersPerElement(a.dtype) * a.length)
  {
    hide EncodeTo, ElementBytes, RegistersPerElement;
    if a.dtype == Text {
      TextFills(v, a.length, order);
      EvenUp(a.length);
    } else {
      ElementBytesCount(a, v, order, a.length);
      Doubles(RegistersPerElement(a.dtype), a.length);
    }
  }

  lemma EvenUp(n: nat)
    ensures (if n % 2 != 0 then n + 1 else n) == (n + 1) / 2 * 2
  {
  }

  lemma Doubles(x: nat, y: nat)
    ensures 2 * x * y == 2 * (x * y) && 2 * x * y % 2 == 0
  {
  }

  lemma TextFills(v: Value, chars: nat, order: Order)
    ensures EncodeTo(v, Text, chars, order, PAYLOAD_MAX).Ok? ==>
              |EncodeTo(v, Text, chars, order, PAYLOAD_MAX).value| == chars
  {
  }

  ghost predicate Confirmed(d: Device, job: WriteJob, bus: word)
    requires d.Valid() && job.code < 0x80
  {
    CheckWriteReply(Serve(d, job.pdu).1, job.code, bus, job.echo).Ok?
  }

  /**
   * A write is confirmed exactly when its cells lie within the device, and then
   * exactly these cells have their new contents, whether the single or the
   * multiple function code was used.
   */
  lemma JobDoesImage(d: Device, a: Address, v: Value, bus: word, order: Order)
    requires d.Valid() && CanBeWritten(a, v, order)
    ensures ImageOf(a, v, order).Ok? && JobOf(a, v, bus, order).Ok?
    ensures JobOf(a, v, bus, order).value.code < 0x80 && |JobOf(a, v, bus, order).value.pdu| <= MAX_PDU
    ensures var job, image := JobOf(a, v, bus, order).value, ImageOf(a, v, order).value;
            && (Confirmed(d, job, bus) <==> bus + image.Count() <= 0x1_0000)
            && Serve(d, job.pdu).0 == if Confirmed(d, job, bus) then Put(d, bus, image) else d
  {
    hide FlagsOf, RegisterBytes, PackBits, BytesWords, Serve, CheckWriteReply, Put, CanBeWritten;
    JobExactly(a, v, bus, order);
    if AddressIsBits(a) {
      CoilJobDoesImage(d, a, v, bus);
    } else {
      RegisterBytesAreWhole(a, v, order);
      RegisterJobDoesImage(d, a, v, bus, order);
    }
  }

  /** The request carries this image: it is confirmed when the image fits, and then puts it in place. */
  ghost predicate Does(d: Device, job: WriteJob, bus: word, image: Image)
    requires d.Valid()
  {
    && job.code < 0x80 && |job.pdu| <= MAX_PDU
    && (Confirmed(d, job, bus) <==> bus + image.Count() <= 0x1_0000)
    && Serve(d, job.pdu).0 == if bus + image.Count() <= 0x1_0000 then Put(d, bus, image) else d
  }

  lemma CoilJobDoesImage(d: Device, a: Address, v: Value, bus: word)
    requires d.Valid() && a.length <= 1968 && FlagsOf(v, if a.length <= 1 then 1 else a.length).Ok?
    ensures CoilJob(a, v, bus).Ok?
    ensures Does(d, CoilJob(a, v, bus).value, bus, Flags(FlagsOf(v, if a.length <= 1 then 1 else a.length).value))
  {
    hide FlagsOf, PackBits, Serve, CheckWriteReply, Put, WriteSinglePdu, WriteMultiPdu, Asks;
    if a.length <= 1 {
      var flag := FlagsOf(v, 1).value[0];
      var word := if flag then 0xFF00 else 0;
      SinglePduAsks(WRITE_COIL, bus, word);
      SingleCoil(d, bus, flag, WriteSinglePdu(WRITE_COIL, bus, word));
      assert FlagsOf(v, 1).value == [flag];
    } else {
      var flags := FlagsOf(v, a.length).value;
      MultiPduAsks(WRITE_COILS, bus, a.length, PackBits(flags));
      ManyCoils(d, bus, flags, WriteMultiPdu(WRITE_COILS, bus, a.length, PackBits(flags)).value);
    }
  }

  lemma RegisterJobDoesImage(d: Device, a: Address, v: Value, bus: word, order: Order)
    requires d.Valid() && RegisterBytes(a, v, order).Ok? && |RegisterBytes(a, v, order).value| % 2 == 0
    requires 2 <= |RegisterBytes(a, v, order).value| <= 246
    ensures RegisterJob(a, v, bus, order).Ok?
    ensures Does(d, RegisterJob(a, v, bus, order).value, bus, Words(BytesWords(RegisterBytes(a, v, order).value)))
  {
    hide RegisterBytes, BytesWords, Serve, CheckWriteReply, Put, WriteSinglePdu, WriteMultiPdu, Asks;
    var bytes := RegisterBytes(a, v, order).value;
    var count := |bytes| / 2;
    if count == 1 {
      var word := Be16(bytes[0], bytes[1]);
      OneWord(bytes);
      SinglePduAsks(WRITE_REGISTER, bus, word);
      SingleRegister(d, bus, word, WriteSinglePdu(WRITE_REGISTER, bus, word));
    } else {
      MultiPduAsks(WRITE_REGISTERS, bus, count, bytes);
      ManyRegisters(d, bus, bytes, WriteMultiPdu(WRITE_REGISTERS, bus, count, bytes).value);
    }
  }

  lemma SinglePduAsks(code: byte, address: word, value: word)
    ensures Asks(WriteSinglePdu(code, address, value), code, address, value)
    ensures |WriteSinglePdu(code, address, value)| == 5
  {
    hide PutBe16, Asks;
    var pdu := WriteSinglePdu(code, address, value);
    assert pdu[..5] == pdu;
    assert address % 0x1_0000 == address && value % 0x1_0000 == value;
    HeadAsks(pdu, code, address, value);
  }

  lemma MultiPduAsks(code: byte, address: word, count: word, data: seq<byte>)
    requires |data| <= 255
    ensures var pdu := WriteMultiPdu(code, address, count, data);
            pdu.Ok? && |pdu.value| == |data| + 6 && Asks(pdu.value, code, address, count) && pdu.value[6..] == data
  {
    hide PutBe16, Asks;
    assert address % 0x1_0000 == address && count % 0x1_0000 == count;
    HeadAsks(WriteMultiPdu(code, address, count, data).value, code, address, count);
  }

  lemma OneWord(bytes: seq<byte>)
    requires |bytes| == 2
    ensures BytesWords(bytes) == [Be16(bytes[0], bytes[1])]
  {
    assert bytes[2..] == [];
  }

  lemma SingleCoil(d: Device, bus: word, flag: bool, pdu: seq<byte>)
    requires d.Valid() && |pdu| == 5 && Asks(pdu, WRITE_COIL, bus, if flag then 0xFF00 else 0)
    ensures CheckWriteReply(Serve(d, pdu).1, WRITE_COIL, bus, if flag then 0xFF00 else 0).Ok?
    ensures Serve(d, pdu).0 == Put(d, bus, Flags([flag]))
  {
    hide Splice;
    SpliceOne(d.coils, bus, flag);
  }

  lemma SpliceOne<T>(s: seq<T>, at: nat, x: T)
    requires at < |s|
    ensures s[at := x] == Splice(s, at, [x])
  {
  }

  lemma SingleRegister(d: Device, bus: word, word: word, pdu: seq<byte>)
    requires d.Valid() && |pdu| == 5 && Asks(pdu, WRITE_REGISTER, bus, word)
    ensures CheckWriteReply(Serve(d, pdu).1, WRITE_REGISTER, bus, word).Ok?
    ensures Serve(d, pdu).0 == Put(d, bus, Words([word]))
  {
    hide Splice;
    SpliceOne(d.holdings, bus, word);
  }

  lemma ManyCoils(d: Device, bus: word, flags: seq<bool>, pdu: seq<byte>)
    requires d.Valid() && 1 < |flags| <= 1968 && |pdu| >= 6 && pdu[6..] == PackBits(flags)
    requires Asks(pdu, WRITE_COILS, bus, |flags|)
    ensures CheckWriteReply(Serve(d, pdu).1, WRITE_COILS, bus, |flags|).Ok? <==> bus + |flags| <= 0x1_0000
    ensures Serve(d, pdu).0 == if bus + |flags| <= 0x1_0000 then Put(d, bus, Flags(flags)) else d
  {
    UnpackPacked(flags);
    hide PackBits, UnpackBits, Splice;
  }

  lemma ManyRegisters(d: Device, bus: word, bytes: seq<byte>, pdu: seq<byte>)
    requires d.Valid() && |bytes| % 2 == 0 && 2 <= |bytes| / 2 <= 123 && |pdu| >= 6 && pdu[6..] == bytes
    requires Asks(pdu, WRITE_REGISTERS, bus, |bytes| / 2)
    ensures CheckWriteReply(Serve(d, pdu).1, WRITE_REGISTERS, bus, |bytes| / 2).Ok? <==>
              bus + |bytes| / 2 <= 0x1_0000
    ensures Serve(d, pdu).0 == if bus + |bytes| / 2 <= 0x1_0000 then Put(d, bus, Words(BytesWords(bytes))) else d
  {
    hide BytesWords, Splice;
  }

  // ---------------------------------------------------------- reading it back

  /** What a written address reads back as. */
  function CanonicalAt(a: Address, v: Value): (c: Value) {
    if AddressIsBits(a) then
      var flags := FlagsOf(v, if a.length <= 1 then 1 else a.length);
      if flags.Fail? then v
      else if a.length <= 1 || a.dtype == Text then Bool(flags.value[0])
      else List(seq(a.length, e requires 0 <= e < a.length => Bool(flags.value[e])))
    else if a.dtype == Text then Canonical(v, Text, a.length)
    else if a.length <= 1 then Canonical(v, a.dtype, 0)
    else List(seq(a.length, e requires 0 <= e < a.length =>
      if RegisterEntry(a, v, e) == None then v else Canonical(RegisterEntry(a, v, e).value, a.dtype, 0)))
  }

  /** A flag, or a number that stands for one, and the flag it reads back as. */
  predicate SameFlag(v: Value, c: Value) {
    match v
    case Bool(on) => c == Bool(on)
    case Int(n) => c == Bool(n != 0)
    case _ => false
  }

  /** The same of entry e of a list; a scalar stands for every entry. */
  predicate SameFlagAt(v: Value, e: nat, c: Value) {
    if v.List? then e < |v.items| && SameFlag(v.items[e], c) else SameFlag(v, c)
  }

  /** The value c is what an address reads back as after v was written to it, case by case. */
  predicate ReturnsAt(a: Address, v: Value, c: Value) {
    if AddressIsBits(a) then
      if a.length <= 1 || a.dtype == Text then SameFlagAt(v, 0, c)
      else c.List? && |c.items| == a.length && forall e :: 0 <= e < a.length ==> SameFlagAt(v, e, c.items[e])
    else if a.dtype == Text then SameText(v, c, a.length)
    else if a.length <= 1 then Returns(v, a.dtype, 0, c)
    else
      && v.List? && |v.items| >= a.length && c.List? && |c.items| == a.length
      && forall e :: 0 <= e < a.length ==> Returns(v.items[e], a.dtype, 0, c.items[e])
  }

  /** An element can hold the value as it is. */
  predicate Fits(v: Value, dtype: DType) {
    match dtype
    case Bit => false
    case Byte => v.Int? && 0 <= v.number < 0x100
    case Int16 => v.Int? && -0x8000 <= v.number < 0x8000
    case Int32 => v.Int? && -0x8000_0000 <= v.number < 0x8000_0000
    case Float32 => v.Single? && v.pattern < 0x1_0000_0000
    case Float64 => v.Double? && v.pattern < 0x1_0000_0000_0000_0000
    case Text => false
  }

  /** The cells of an address can hold the value as it is. */
  predicate FitsAt(a: Address, v: Value) {
    if AddressIsBits(a) then
      if a.length <= 1 || a.dtype == Text then v.Bool?
      else v.List? && |v.items| == a.length && forall e :: 0 <= e < a.length ==> v.items[e].Bool?
    else if a.dtype == Text then v.Chars? && |v.text| == a.length && 0 !in v.text
    else if a.length <= 1 then Fits(v, a.dtype)
    else v.List? && |v.items| == a.length && forall e :: 0 <= e < a.length ==> Fits(v.items[e], a.dtype)
  }

  lemma FitsReturns(v: Value, dtype: DType, c: Value)
    requires Fits(v, dtype) && Returns(v, dtype, 0, c)
    ensures c == v
  {
  }

  /** What fits comes back as it was. */
  lemma FittingReturns(a: Address, v: Value, c: Value)
    requires FitsAt(a, v) && ReturnsAt(a, v, c)
    ensures c == v
  {
    hide AddressIsBits, Fits, Returns;
    if !AddressIsBits(a) {
      if a.dtype == Text {
        assert c.text == v.text;
      } else if a.length <= 1 {
        FitsReturns(v, a.dtype, c);
      } else {
        forall e | 0 <= e < a.length
          ensures c.items[e] == v.items[e]
        {
          FitsReturns(v.items[e], a.dtype, c.items[e]);
        }
        assert c.items == v.items;
      }
    } else if a.length > 1 && a.dtype != Text {
      assert c.items == v.items;
    }
  }

  lemma {:induction false} FlagsReturn(v: Value, n: nat, e: nat)
    requires FlagsOf(v, n).Ok? && e < n
    ensures SameFlagAt(v, e, Bool(FlagsOf(v, n).value[e]))
  {
    if e < n - 1 {
      FlagsReturn(v, n - 1, e);
    }
  }

  lemma NumberReturns(a: Address, v: Value, order: Order, e: nat)
    requires !AddressIsBits(a) && a.dtype != Text && RegisterBytes(a, v, order).Ok? && e < a.length
    ensures RegisterEntry(a, v, e).Some?
    ensures var entry := RegisterEntry(a, v, e).value; Returns(entry, a.dtype, 0, Canonical(entry, a.dtype, 0))
  {
    hide Returns, Canonical, ElementBytes, RegisterEntry, EncodeTo, Encodable;
    ElementBytesAt(a, v, order, a.length, e);
    var entry := RegisterEntry(a, v, e).value;
    EncodesAlone(entry, a.dtype, order);
    EncodesExactly(entry, a.dtype, 0, order, 8);
    CanonicalReturns(entry, a.dtype, 0, order, 8);
  }

  /** The canonical form is what case by case an address reads back as. */
  lemma CanonicalReturnsAt(a: Address, v: Value, order: Order)
    requires ImageOf(a, v, order).Ok? && a.length >= 1
    ensures ReturnsAt(a, v, CanonicalAt(a, v))
  {
    hide AddressIsBits, FlagsOf, RegisterBytes, Canonical, Returns, SameFlagAt, SameText;
    if AddressIsBits(a) {
      var n := if a.length <= 1 then 1 else a.length;
      forall e | 0 <= e < n
        ensures SameFlagAt(v, e, Bool(FlagsOf(v, n).value[e]))
      {
        FlagsReturn(v, n, e);
      }
    } else if a.dtype == Text {
      TextReturns(a, v, order);
    } else {
      forall e | 0 <= e < a.length
        ensures RegisterEntry(a, v, e).Some?
                && Returns(RegisterEntry(a, v, e).value, a.dtype, 0,
                           Canonical(RegisterEntry(a, v, e).value, a.dtype, 0))
      {
        NumberReturns(a, v, order, e);
      }
      assert RegisterEntry(a, v, a.length - 1).Some?;
    }
  }

  lemma TextReturns(a: Address, v: Value, order: Order)
    requires a.dtype == Text && RegisterBytes(a, v, order).Ok?
    ensures SameText(v, Canonical(v, Text, a.length), a.length)
  {
    hide EncodeTo, SameText;
    TextIsPrefix(a, v, order);
    EncodesExactly(v, Text, a.length, order, PAYLOAD_MAX);
    CanonicalReturns(v, Text, a.length, order, PAYLOAD_MAX);
    assert Returns(v, Text, a.length, Canonical(v, Text, a.length));
  }

  // ------------------------------------------------- what can be written

  /** Entry e of a value, or a value that stands for every entry, is a flag or a number. */
  predicate HasFlag(v: Value, e: nat) {
    if v.List? then e < |v.items| && (v.items[e].Bool? || v.items[e].Int?) else v.Bool? || v.Int?
  }

  /** Entry e of a register value is of the kind the type takes. */
  predicate HasNumber(a: Address, v: Value, e: nat) {
    && (a.length == 1 || (v.List? && e < |v.items|))
    && Encodable(if a.length == 1 then v else v.items[e], a.dtype, 0, ABCD, 8)
  }

  /** The values that make one request: of the right kind, enough of them, and not too many. */
  predicate CanBeWritten(a: Address, v: Value, order: Order) {
    if AddressIsBits(a) then
      a.length <= 1968 && forall e :: 0 <= e < (if a.length == 0 then 1 else a.length) ==> HasFlag(v, e)
    else if a.dtype == Text then v.Chars? && (order == ABCD || order == BADC) && 1 <= a.length <= 246
    else
      && a.length >= 1 && RegistersPerElement(a.dtype) * a.length <= 123
      && forall e :: 0 <= e < a.length ==> HasNumber(a, v, e)
  }

  lemma {:induction false} FlagsExactly(v: Value, n: nat)
    ensures FlagsOf(v, n).Ok? <==> forall e :: 0 <= e < n ==> HasFlag(v, e)
  {
    if n > 0 {
      FlagsExactly(v, n - 1);
      assert HasFlag(v, n - 1) <==>
          EntryOrSelf(v, n - 1).Some? && FlagOf(EntryOrSelf(v, n - 1).value).Some?;
    }
  }

  lemma {:induction false} ElementsExactly(a: Address, v: Value, order: Order, n: nat)
    requires !AddressIsBits(a) && a.dtype != Text && n <= a.length
    requires RegistersPerElement(a.dtype) * a.length <= 125
    ensures ElementBytes(a, v, order, n).Ok? <==> forall e :: 0 <= e < n ==> HasNumber(a, v, e)
  {
    hide ElementBytes, EncodeTo, AddressIsBits, ElementWidth;
    if n > 0 {
      ElementsExactly(a, v, order, n - 1);
      BytesFailureSticks(a, v, order, n - 1, n);
      if ElementBytes(a, v, order, n - 1).Ok? {
        var front := ElementBytes(a, v, order, n - 1).value;
        var w := RegistersPerElement(a.dtype);
        ElementBytesCount(a, v, order, n - 1);
        ElementBytesStep(a, v, order, n - 1);
        Room(w, n, a.length);
        PlainWidth(a);
        NumberExactly(a, v, order, n - 1, PAYLOAD_MAX - |front|);
      }
    } else {
      ElementBytesStart(a, v, order);
    }
  }

  lemma Room(w: nat, n: nat, length: nat)
    requires 0 < n <= length && w * length <= 125
    ensures 2 * w * (n - 1) + 2 * w <= 250
  {
    assert w * n <= w * length;
    assert w * n == w * (n - 1) + w;
    assert 2 * w * (n - 1) == 2 * (w * (n - 1));
  }

  lemma PlainWidth(a: Address)
    requires !AddressIsBits(a) && a.dtype != Text
    ensures a.dtype != Bit ==> ElementWidth(a) == RegistersPerElement(a.dtype)
    ensures ElementWidth(a) <= 4
  {
    hide AddressIsBits;
  }

  lemma NumberExactly(a: Address, v: Value, order: Order, e: nat, cap: nat)
    requires a.dtype != Text && e < a.length && cap >= 2 * RegistersPerElement(a.dtype)
    ensures HasNumber(a, v, e) <==>
              RegisterEntry(a, v, e).Some? && EncodeTo(RegisterEntry(a, v, e).value, a.dtype, 0, order, cap).Ok?
  {
    hide EncodeTo;
    if RegisterEntry(a, v, e).Some? {
      EncodesExactly(RegisterEntry(a, v, e).value, a.dtype, 0, order, cap);
    }
  }

  /** Exactly these values become a request. */
  lemma JobExactly(a: Address, v: Value, bus: word, order: Order)
    ensures JobOf(a, v, bus, order).Ok? <==> CanBeWritten(a, v, order)
  {
    hide AddressIsBits, FlagsOf, RegisterBytes, PackBits, HasFlag, HasNumber, WriteSinglePdu, PutBe16;
    if AddressIsBits(a) {
      CoilJobExactly(a, v, bus);
    } else if a.length == 0 {
      NothingToWrite(a, v, order);
    } else if a.dtype == Text {
      TextExactly(a, v, order);
    } else {
      NumbersExactly(a, v, order);
    }
  }

  lemma CoilJobExactly(a: Address, v: Value, bus: word)
    ensures CoilJob(a, v, bus).Ok? <==>
              a.length <= 1968 && forall e :: 0 <= e < (if a.length == 0 then 1 else a.length) ==> HasFlag(v, e)
  {
    hide FlagsOf, HasFlag, PackBits, WriteSinglePdu;
    FlagsExactly(v, if a.length == 0 then 1 else a.length);
  }

  lemma NothingToWrite(a: Address, v: Value, order: Order)
    requires a.length == 0
    ensures RegisterBytes(a, v, order).Ok? ==> RegisterBytes(a, v, order).value == []
  {
    if a.dtype == Text {
      TextFills(v, 0, order);
    }
    hide EncodeTo;
  }

  lemma TextExactly(a: Address, v: Value, order: Order)
    requires a.length >= 1 && a.dtype == Text
    ensures RegisterBytes(a, v, order).Ok? && 1 <= |RegisterBytes(a, v, order).value| / 2 <= 123 <==>
              v.Chars? && (order == ABCD || order == BADC) && a.length <= 246
    ensures RegisterBytes(a, v, order).Ok? ==> 1 <= |RegisterBytes(a, v, order).value| / 2
  {
    hide EncodeTo;
    EncodesExactly(v, Text, a.length, order, PAYLOAD_MAX);
    if RegisterBytes(a, v, order).Ok? {
      RegisterBytesAreWhole(a, v, order);
    }
  }

  lemma NumbersExactly(a: Address, v: Value, order: Order)
    requires a.length >= 1 && !AddressIsBits(a) && a.dtype != Text
    ensures RegisterBytes(a, v, order).Ok? && 1 <= |RegisterBytes(a, v, order).value| / 2 <= 123 <==>
              RegistersPerElement(a.dtype) * a.length <= 123 && forall e :: 0 <= e < a.length ==> HasNumber(a, v, e)
    ensures RegisterBytes(a, v, order).Ok? ==> 1 <= |RegisterBytes(a, v, order).value| / 2
  {
    hide AddressIsBits, ElementBytes, HasNumber, RegistersPerElement;
    var cells := RegistersPerElement(a.dtype) * a.length;
    if RegisterBytes(a, v, order).Ok? {
      RegisterBytesAreWhole(a, v, order);
      ElementBytesCount(a, v, order, a.length);
      SomeRegisters(a.dtype, a.length);
    }
    if cells <= 123 {
      ElementsExactly(a, v, order, a.length);
      if forall e :: 0 <= e < a.length ==> HasNumber(a, v, e) {
        RegisterBytesAreWhole(a, v, order);
        ElementBytesCount(a, v, order, a.length);
        SomeRegisters(a.dtype, a.length);
      }
    }
  }

  lemma SomeRegisters(dtype: DType, n: nat)
    requires dtype != Bit && n >= 1
    ensures RegistersPerElement(dtype) * n >= 1
  {
  }

  ghost predicate Holds(d: Device, bus: nat, image: Image)
    requires d.Valid() && bus + image.Count() <= 0x1_0000
  {
    if image.Flags? then d.coils[bus..bus + image.Count()] == image.flags
    else d.holdings[bus..bus + image.Count()] == image.words
  }

  /** The last element of an encoded address follows what came before. */
  lemma ElementBytesLast(a: Address, v: Value, order: Order, n: nat)
    requires a.dtype != Text && n > 0 && ElementBytes(a, v, order, n).Ok?
    ensures ElementBytes(a, v, order, n - 1).Ok? && a.dtype != Bit
    ensures RegisterEntry(a, v, n - 1).Some? && Wire(RegisterEntry(a, v, n - 1).value, a.dtype).Ok?
    ensures var last := Permuted(Wire(RegisterEntry(a, v, n - 1).value, a.dtype).value, order);
            ElementBytes(a, v, order, n).value == ElementBytes(a, v, order, n - 1).value + last
    ensures |Permuted(Wire(RegisterEntry(a, v, n - 1).value, a.dtype).value, order)| == 2 * RegistersPerElement(a.dtype)
  {
    hide Wire, Permuted, ElementWidth;
    ElementBytesStep(a, v, order, n - 1);
  }

  /** Element e of an encoded address sits at its own place in the payload. */
  lemma {:induction false} ElementBytesAt(a: Address, v: Value, order: Order, n: nat, e: nat)
    requires a.dtype != Text && ElementBytes(a, v, order, n).Ok? && e < n
    ensures a.dtype != Bit && RegisterEntry(a, v, e).Some? && Wire(RegisterEntry(a, v, e).value, a.dtype).Ok?
    ensures var at, w, bytes := PlaceOf(a, e), 2 * RegistersPerElement(a.dtype), ElementBytes(a, v, order, n).value;
            && at + w <= |bytes|
            && bytes[at..at + w] == Permuted(Wire(RegisterEntry(a, v, e).value, a.dtype).value, order)
  {
    hide Wire, Permuted, ElementBytes, RegisterEntry, PlaceOf, RegistersPerElement;
    ElementBytesLast(a, v, order, n);
    ElementBytesPlace(a, v, order, n - 1);
    if e < n - 1 {
      ElementBytesAt(a, v, order, n - 1, e);
    }
  }

  lemma ElementBytesPlace(a: Address, v: Value, order: Order, n: nat)
    requires a.dtype != Text && ElementBytes(a, v, order, n).Ok?
    ensures |ElementBytes(a, v, order, n).value| == PlaceOf(a, n)
  {
    hide ElementBytes;
    ElementBytesCount(a, v, order, n);
  }

  /** Where the payload bytes of element e begin. */
  function PlaceOf(a: Address, e: nat): nat {
    2 * RegistersPerElement(a.dtype) * e
  }

  /** An address whose cells hold its image reads back in canonical form. */
  lemma HeldReadsBack(d: Device, a: Address, v: Value, base: nat, order: Order)
    requires d.Valid() && WellPlaced(a, base) && AreaParse(a.area).value.IsWritable()
    requires ImageOf(a, v, order).Ok?
    requires a.offset - base + ImageOf(a, v, order).value.Count() <= 0x1_0000
    requires Holds(d, a.offset - base, ImageOf(a, v, order).value)
    ensures ReadAlone(d, a, base, order) == CanonicalAt(a, v)
  {
    hide FlagsOf, RegisterBytes, ValueOrZero, Canonical, ReadAlone, CanonicalAt, Placed, Extent;
    if AddressIsBits(a) {
      CoilsReadBack(d, a, v, base, order);
    } else if a.dtype == Text {
      TextReadsBack(d, a, v, base, order);
      TextAlone(d, a, v, base, order);
    } else {
      NumbersReadBack(d, a, v, base, order);
    }
  }

  lemma TextAlone(d: Device, a: Address, v: Value, base: nat, order: Order)
    requires d.Valid() && a.dtype == Text && AreaParse(a.area) == Some(Holding)
    ensures ReadAlone(d, a, base, order) == ValueOrZero(d, Holding, order, Placed(a, 0, base, 0))
    ensures CanonicalAt(a, v) == Canonical(v, Text, a.length)
  {
    hide ValueOrZero, Canonical, Placed;
  }

  lemma CoilsReadBack(d: Device, a: Address, v: Value, base: nat, order: Order)
    requires d.Valid() && WellPlaced(a, base) && AreaParse(a.area) == Some(Coil)
    requires ImageOf(a, v, order).Ok?
    requires a.offset - base + ImageOf(a, v, order).value.Count() <= 0x1_0000
    requires Holds(d, a.offset - base, ImageOf(a, v, order).value)
    ensures ReadAlone(d, a, base, order) == CanonicalAt(a, v)
  {
    hide FlagsOf, ValueOrZero, Placed;
    var flags := FlagsOf(v, if a.length <= 1 then 1 else a.length).value;
    forall e | 0 <= e < Elements(a)
      ensures ValueOrZero(d, Coil, order, Placed(a, 0, base, e)) == Bool(flags[e])
    {
      CoilReadsBack(d, a, flags, base, order, e);
    }
  }

  lemma NumbersReadBack(d: Device, a: Address, v: Value, base: nat, order: Order)
    requires d.Valid() && WellPlaced(a, base) && AreaParse(a.area) == Some(Holding) && a.dtype != Text
    requires RegisterBytes(a, v, order).Ok?
    requires a.offset - base + |RegisterBytes(a, v, order).value| / 2 <= 0x1_0000
    requires Holds(d, a.offset - base, Words(BytesWords(RegisterBytes(a, v, order).value)))
    ensures ReadAlone(d, a, base, order) == CanonicalAt(a, v)
  {
    hide RegisterBytes, ValueOrZero, Canonical, Placed, BytesWords;
    forall e | 0 <= e < a.length
      ensures RegisterEntry(a, v, e).Some? &&
              ValueOrZero(d, Holding, order, Placed(a, 0, base, e))
                  == Canonical(RegisterEntry(a, v, e).value, a.dtype, 0)
    {
      RegisterReadsBack(d, a, v, base, order, e);
    }
    assert a.length == 1 ==> RegisterEntry(a, v, 0) == Some(v);
  }

  lemma CoilReadsBack(d: Device, a: Address, flags: seq<bool>, base: nat, order: Order, e: nat)
    requires d.Valid() && WellPlaced(a, base) && AreaParse(a.area) == Some(Coil) && e < Elements(a)
    requires |flags| == (if a.length <= 1 then 1 else a.length) && a.offset - base + |flags| <= 0x1_0000
    requires Holds(d, a.offset - base, Flags(flags))
    ensures ValueOrZero(d, Coil, order, Placed(a, 0, base, e)) == Bool(flags[e])
  {
    PlacedIsReadable(a, 0, base, e);
    var bus := a.offset - base;
    assert d.coils[bus..bus + |flags|][e] == d.coils[bus + e];
  }

  lemma TextReadsBack(d: Device, a: Address, v: Value, base: nat, order: Order)
    requires d.Valid() && WellPlaced(a, base) && AreaParse(a.area) == Some(Holding) && a.dtype == Text
    requires RegisterBytes(a, v, order).Ok?
    requires a.offset - base + |RegisterBytes(a, v, order).value| / 2 <= 0x1_0000
    requires Holds(d, a.offset - base, Words(BytesWords(RegisterBytes(a, v, order).value)))
    ensures ValueOrZero(d, Holding, order, Placed(a, 0, base, 0)) == Canonical(v, Text, a.length)
  {
    hide WordBytes, BytesWords, DecodeAt, Canonical, EncodeTo, RegisterBytes, ValueOrZero, Readable;
    TextIsPrefix(a, v, order);
    var bytes := RegisterBytes(a, v, order).value;
    var text := EncodeTo(v, Text, a.length, order, PAYLOAD_MAX).value;
    var it := Placed(a, 0, base, 0);
    WidthFits(a, base);
    ElementEnds(a, base, 0);
    RegisterBytesAreWhole(a, v, order);
    DecodeEncode(v, Text, a.length, order, PAYLOAD_MAX);
    TextPrefix(bytes, text, a.length, order);
    WordsOfBytes(bytes);
    assert it.offset == a.offset - base && it.End() == it.offset + |BytesWords(bytes)|;
    assert d.holdings[it.offset..it.End()] == BytesWords(bytes);
    DecodesFrom(d, it, bytes, order, Canonical(v, Text, a.length));
  }

  lemma TextIsPrefix(a: Address, v: Value, order: Order)
    requires a.dtype == Text && RegisterBytes(a, v, order).Ok?
    ensures EncodeTo(v, Text, a.length, order, PAYLOAD_MAX).Ok?
    ensures EncodeTo(v, Text, a.length, order, PAYLOAD_MAX).value <= RegisterBytes(a, v, order).value
    ensures |EncodeTo(v, Text, a.length, order, PAYLOAD_MAX).value| == a.length
    ensures a.length % 2 == 1 ==> RegisterBytes(a, v, order).value[a.length] == 0
  {
    TextFills(v, a.length, order);
    hide EncodeTo;
  }

  /** A register element whose bytes are known reads as what they decode to. */
  lemma DecodesFrom(d: Device, it: Item, bytes: seq<byte>, order: Order, v: Value)
    requires d.Valid() && it.End() <= 0x1_0000 && it.width >= 1
    requires WordBytes(d.holdings[it.offset..it.End()]) == bytes
    requires DecodeAt(bytes, 0, it.dtype, it.chars, order) == Ok(v)
    ensures ValueOrZero(d, Holding, order, it) == v
  {
    hide WordBytes, DecodeAt;
  }

  /** A string decodes from the front of its registers; the pad byte plays no part. */
  lemma TextPrefix(bytes: seq<byte>, text: seq<byte>, chars: nat, order: Order)
    requires text <= bytes && |text| == chars <= TEXT_MAX
    ensures DecodeAt(bytes, 0, Text, chars, order) == DecodeAt(text, 0, Text, chars, order)
  {
    assert bytes[0..chars] == text[0..chars];
  }

  lemma RegisterReadsBack(d: Device, a: Address, v: Value, base: nat, order: Order, e: nat)
    requires d.Valid() && WellPlaced(a, base) && AreaParse(a.area) == Some(Holding) && a.dtype != Text && e < a.length
    requires RegisterBytes(a, v, order).Ok?
    requires a.offset - base + |RegisterBytes(a, v, order).value| / 2 <= 0x1_0000
    requires Holds(d, a.offset - base, Words(BytesWords(RegisterBytes(a, v, order).value)))
    ensures RegisterEntry(a, v, e).Some?
    ensures ValueOrZero(d, Holding, order, Placed(a, 0, base, e)) == Canonical(RegisterEntry(a, v, e).value, a.dtype, 0)
  {
    hide WordBytes, BytesWords, DecodeAt, Canonical, EncodeTo, RegisterBytes, ValueOrZero, Permuted, Wire,
        ElementBytes, Readable;
    RegisterBytesAreWhole(a, v, order);
    NumbersAreElements(a, v, order);
    var bytes := RegisterBytes(a, v, order).value;
    ElementBytesAt(a, v, order, a.length, e);
    var entry := RegisterEntry(a, v, e).value;
    EncodesAlone(entry, a.dtype, order);
    DecodeEncode(entry, a.dtype, 0, order, 8);
    PlaceOfElement(a, base, e);
    hide PlaceOf, Placed, ElementWidth, Extent, WellPlaced;
    var it, bus, words := Placed(a, 0, base, e), a.offset - base, BytesWords(bytes);
    WordsOfBytes(bytes);
    var i := it.offset - bus;
    var j, from, to := i + it.width, 2 * i, 2 * i + 2 * it.width;
    HoldingSlice(d.holdings, bus, bus + |words|, words, bytes, i, j, it.offset, it.End(), from, to);
    DecodesFrom(d, it, bytes[from..to], order, Canonical(entry, a.dtype, 0));
  }

  lemma NumbersAreElements(a: Address, v: Value, order: Order)
    requires a.dtype != Text
    ensures RegisterBytes(a, v, order) == ElementBytes(a, v, order, a.length)
  {
  }

  /** Where element e lies on the bus, against where it lies in the payload. */
  lemma PlaceOfElement(a: Address, base: nat, e: nat)
    requires WellPlaced(a, base) && AreaParse(a.area) == Some(Holding) && a.dtype != Text && e < a.length
    ensures var it := Placed(a, 0, base, e);
            && it.offset >= a.offset - base && 2 * (it.offset - (a.offset - base)) == PlaceOf(a, e)
            && it.width == RegistersPerElement(a.dtype) >= 1 && it.chars == 0 && it.dtype == a.dtype
            && it.End() <= 0x1_0000
  {
    WidthFits(a, base);
    ElementEnds(a, base, e);
    var w := RegistersPerElement(a.dtype);
    assert 2 * (e * w) == 2 * w * e;
  }

  lemma EncodesAlone(v: Value, dtype: DType, order: Order)
    requires dtype != Text && dtype != Bit && Wire(v, dtype).Ok?
    ensures EncodeTo(v, dtype, 0, order, 8) == Ok(Permuted(Wire(v, dtype).value, order))
  {
    hide Wire, Permuted;
  }

  /** Registers i to j of a held image are bytes 2i to 2j of its payload. */
  lemma HoldingSlice(held: seq<word>, bus: nat, end: nat, words: seq<word>, bytes: seq<byte>,
                     i: nat, j: nat, at: nat, upto: nat, from: nat, to: nat)
    requires bus <= end <= |held| && held[bus..end] == words && WordBytes(words) == bytes
    requires i <= j <= |words| && at == bus + i && upto == bus + j && from == 2 * i && to == 2 * j
    ensures to <= |bytes| && WordBytes(held[at..upto]) == bytes[from..to]
  {
    hide *;
    SliceWithin(held, bus, end, i, j, at, upto);
    WordBytesSlice(words, i, j);
  }
}
