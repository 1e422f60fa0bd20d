/** Register payloads to values and back, in the four byte orders. */
module ModbusCodec {
  import opened Common
  import opened ModbusTypes

  // ------------------------------------------------------------- permutation

  /** Every complete pair of bytes swapped; an odd last byte stays. */
  function SwapBytes(s: seq<byte>): (t: seq<byte>)
    ensures |t| == |s|
  {
    if |s| < 2 then s else [s[1], s[0]] + SwapBytes(s[2..])
  }

  /** Every complete pair of 16 bit words swapped; an incomplete tail stays. */
  function SwapWords(s: seq<byte>): (t: seq<byte>)
    ensures |t| == |s|
  {
    if |s| < 4 then s else [s[2], s[3], s[0], s[1]] + SwapWords(s[4..])
  }

  function Permuted(s: seq<byte>, order: Order): (t: seq<byte>)
    ensures |t| == |s|
  {
    var b := if order.SwapsBytes() then SwapBytes(s) else s;
    if order.SwapsWords() then SwapWords(b) else b
  }

  lemma {:induction false} SwapBytesTwice(s: seq<byte>)
    ensures SwapBytes(SwapBytes(s)) == s
  {
    if |s| >= 2 {
      var t := SwapBytes(s);
      assert t[2..] == SwapBytes(s[2..]);
      SwapBytesTwice(s[2..]);
      assert s == [s[0], s[1]] + s[2..];
    }
  }

  lemma {:induction false} SwapWordsTwice(s: seq<byte>)
    ensures SwapWords(SwapWords(s)) == s
  {
    if |s| >= 4 {
      var t := SwapWords(s);
      assert t[4..] == SwapWords(s[4..]);
      SwapWordsTwice(s[4..]);
      assert s == [s[0], s[1], s[2], s[3]] + s[4..];
    }
  }

  lemma {:induction false} SwapsCommute(s: seq<byte>)
    ensures SwapWords(SwapBytes(s)) == SwapBytes(SwapWords(s))
  {
    if |s| >= 4 {
      var b, w := SwapBytes(s), SwapWords(s);
      assert b == [s[1], s[0], s[3], s[2]] + SwapBytes(s[4..]) by {
        assert s[2..][2..] == s[4..];
      }
      assert b[4..] == SwapBytes(s[4..]);
      assert w[2..] == [s[0], s[1]] + SwapWords(s[4..]);
      assert w[2..][2..] == SwapWords(s[4..]);
      SwapsCommute(s[4..]);
    }
  }

  /** The permutation undoes itself, for every length and every order. */
  lemma OrderIsItsOwnInverse(s: seq<byte>, order: Order)
    ensures Permuted(Permuted(s, order), order) == s
  {
    SwapBytesTwice(s);
    SwapWordsTwice(s);
    if order.DCBA? {
      SwapsCommute(SwapBytes(s));
      SwapWordsTwice(SwapBytes(SwapBytes(s)));
    }
  }

  /** After i bytes: the front is done, the back is as it was. */
  ghost predicate SwappedTo(now: seq<byte>, was: seq<byte>, i: nat, words: bool) {
    && i <= |now| == |was|
    && now[i..] == was[i..]
    && now[..i] + (if words then SwapWords(was[i..]) else SwapBytes(was[i..]))
       == if words then SwapWords(was) else SwapBytes(was)
  }

  lemma SwapOneMore(now: seq<byte>, next: seq<byte>, was: seq<byte>, i: nat)
    requires SwappedTo(now, was, i, false) && i + 1 < |was|
    requires next == now[..i] + [now[i + 1], now[i]] + now[i + 2..]
    ensures SwappedTo(next, was, i + 2, false)
  {
    var rest := was[i..];
    assert rest[2..] == was[i + 2..] == now[i..][2..] == now[i + 2..];
    assert [rest[1], rest[0]] == [now[i..][1], now[i..][0]] == [now[i + 1], now[i]];
    assert next[..i + 2] == now[..i] + [rest[1], rest[0]];
    assert next[i + 2..] == rest[2..];
  }

  lemma SwapTwoMore(now: seq<byte>, next: seq<byte>, was: seq<byte>, i: nat)
    requires SwappedTo(now, was, i, true) && i + 3 < |was|
    requires next == now[..i] + [now[i + 2], now[i + 3], now[i], now[i + 1]] + now[i + 4..]
    ensures SwappedTo(next, was, i + 4, true)
  {
    hide SwapWords, SwapBytes;
    var rest, front := was[i..], now[..i];
    var four := [now[i + 2], now[i + 3], now[i], now[i + 1]];
    assert rest == now[i..];
    assert four == [rest[2], rest[3], rest[0], rest[1]];
    assert rest[4..] == was[i + 4..] == now[i + 4..];
    FrontAndBack(front, four, now[i + 4..], next);
    FourAhead(front, rest, four);
  }

  lemma FourAhead(front: seq<byte>, rest: seq<byte>, four: seq<byte>)
    requires |rest| >= 4 && four == [rest[2], rest[3], rest[0], rest[1]]
    ensures front + SwapWords(rest) == front + four + SwapWords(rest[4..])
  {
  }

  lemma FrontAndBack(front: seq<byte>, part: seq<byte>, back: seq<byte>, whole: seq<byte>)
    requires whole == front + part + back
    ensures whole[..|front| + |part|] == front + part && whole[|front| + |part|..] == back
  {
  }

  lemma SwapsDone(now: seq<byte>, was: seq<byte>, i: nat, words: bool)
    requires SwappedTo(now, was, i, words) && |was| - i < if words then 4 else 2
    ensures now == if words then SwapWords(was) else SwapBytes(was)
  {
    assert (if words then SwapWords(was[i..]) else SwapBytes(was[i..])) == was[i..];
    hide SwapWords, SwapBytes;
    assert now == now[..i] + now[i..];
  }

  lemma PairMoved(now: seq<byte>, i: nat)
    requires i + 2 <= |now|
    ensures now[i := now[i + 1]][i + 1 := now[i]] == now[..i] + [now[i + 1], now[i]] + now[i + 2..]
  {
  }

  lemma FourMoved(now: seq<byte>, next: seq<byte>, i: nat, four: seq<byte>)
    requires |next| == |now| && i + 4 <= |now| && |four| == 4
    requires next[i] == four[0] && next[i + 1] == four[1] && next[i + 2] == four[2] && next[i + 3] == four[3]
    requires forall k :: 0 <= k < |now| && !(i <= k < i + 4) ==> next[k] == now[k]
    ensures next == now[..i] + four + now[i + 4..]
  {
  }

  method SwapBytesInPlace(bytes: array<byte>)
    modifies bytes
    ensures bytes[..] == SwapBytes(old(bytes[..]))
  {
    ghost var was := bytes[..];
    var i := 0;
    assert SwappedTo(was, was, 0, false);
    hide SwapBytes, SwapWords, SwappedTo;
    while i + 1 < bytes.Length
      invariant 0 <= i <= bytes.Length == |was|
      invariant SwappedTo(bytes[..], was, i, false)
    {
      ghost var now := bytes[..];
      bytes[i], bytes[i + 1] := bytes[i + 1], bytes[i];
      assert bytes[..] == now[i := now[i + 1]][i + 1 := now[i]];
      PairMoved(now, i);
      SwapOneMore(now, bytes[..], was, i);
      i := i + 2;
    }
    SwapsDone(bytes[..], was, i, false);
  }

  method SwapWordsInPlace(bytes: array<byte>)
    modifies bytes
    ensures bytes[..] == SwapWords(old(bytes[..]))
  {
    ghost var was := bytes[..];
    var i := 0;
    assert SwappedTo(was, was, 0, true);
    hide SwapBytes, SwapWords, SwappedTo;
    while i + 3 < bytes.Length
      invariant 0 <= i <= bytes.Length == |was|
      invariant SwappedTo(bytes[..], was, i, true)
    {
      ghost var now := bytes[..];
      var t0, t1 := bytes[i], bytes[i + 1];
      bytes[i], bytes[i + 1] := bytes[i + 2], bytes[i + 3];
      bytes[i + 2], bytes[i + 3] := t0, t1;
      FourMoved(now, bytes[..], i, [now[i + 2], now[i + 3], now[i], now[i + 1]]);
      SwapTwoMore(now, bytes[..], was, i);
      i := i + 4;
    }
    SwapsDone(bytes[..], was, i, true);
  }

  method OrderApply(bytes: array<byte>, order: Order)
    modifies bytes
    ensures bytes[..] == Permuted(old(bytes[..]), order)
  {
    if order.SwapsBytes() {
      SwapBytesInPlace(bytes);
    }
    if order.SwapsWords() {
      SwapWordsInPlace(bytes);
    }
  }

  // ------------------------------------------------------------------ decode

  const TEXT_MAX: nat := 255

  /** A NUL inside a text field reads as a blank. */
  function Blanked(s: seq<byte>): (t: seq<byte>)
    ensures |t| == |s|
    ensures forall i :: 0 <= i < |s| ==> t[i] == if s[i] == 0 then 0x20 else s[i]
  {
    seq(|s|, i requires 0 <= i < |s| => if s[i] == 0 then 0x20 else s[i])
  }

  /** What the bytes of one register element mean once they are in ABCD order. */
  function Meaning(bytes: seq<byte>, dtype: DType): (v: Value)
    requires dtype != Bit && dtype != Text && |bytes| == 2 * RegistersPerElement(dtype)
  {
    match dtype
    case Byte => Int(bytes[1])
    case Int16 => Int(Signed(BeNat(bytes) % 0x1_0000, 0x1_0000))
    case Int32 => Int(Signed(BeNat(bytes) % 0x1_0000_0000, 0x1_0000_0000))
    case Float32 => Single(BeNat(bytes))
    case Float64 => Double(BeNat(bytes))
  }

  /** The value at byte `offset` of a register payload. */
  function DecodeAt(data: seq<byte>, offset: nat, dtype: DType, chars: nat, order: Order): (r: Result<Value>) {
    if dtype == Text then
      var n := if chars > TEXT_MAX then TEXT_MAX else chars;
      if offset + n > |data| then Fail(OutOfRange)
      else
        var text := data[offset..offset + n];
        Ok(Chars(Blanked(if order.SwapsBytes() then SwapBytes(text) else text)))
    else if dtype == Bit then Fail(InvalidDataType)
    else
      var width := 2 * RegistersPerElement(dtype);
      if offset + width > |data| then Fail(OutOfRange)
      else Ok(Meaning(Permuted(data[offset..offset + width], order), dtype))
  }

  /** The text branch: copy, swap the bytes of each register, blank the NULs. */
  method DecodeText(raw: seq<byte>, order: Order) returns (v: Value)
    ensures v == Chars(Blanked(if order.SwapsBytes() then SwapBytes(raw) else raw))
  {
    var text := new byte[|raw|](i requires 0 <= i < |raw| => raw[i]);
    assert text[..] == raw;
    if order == BADC || order == DCBA {
      OrderApply(text, BADC);
    }
    ghost var swapped := text[..];
    for i := 0 to text.Length
      invariant forall k :: 0 <= k < i ==> text[k] == if swapped[k] == 0 then 0x20 else swapped[k]
      invariant forall k :: i <= k < text.Length ==> text[k] == swapped[k]
    {
      if text[i] == 0 {
        text[i] := 0x20;
      }
    }
    assert text[..] == Blanked(swapped);
    return Chars(text[..]);
  }

  /** The number branches: copy the element, undo its byte order, read it. */
  method DecodeNumber(raw: seq<byte>, dtype: DType, order: Order) returns (v: Value)
    requires dtype != Bit && dtype != Text && |raw| == 2 * RegistersPerElement(dtype)
    ensures v == Meaning(Permuted(raw, order), dtype)
  {
    var buffer := new byte[|raw|](i requires 0 <= i < |raw| => raw[i]);
    assert buffer[..] == raw;
    OrderApply(buffer, order);
    return Meaning(buffer[..], dtype);
  }

  method Decode(data: seq<byte>, offset: nat, dtype: DType, chars: nat, order: Order) returns (r: Result<Value>)
    ensures r == DecodeAt(data, offset, dtype, chars, order)
  {
    hide SwapBytes, Permuted, Meaning, Blanked;
    if dtype == Text {
      var n := if chars > TEXT_MAX then TEXT_MAX else chars;
      if offset + n > |data| {
        return Fail(OutOfRange);
      }
      var v := DecodeText(data[offset..offset + n], order);
      return Ok(v);
    }
    var width := 2 * RegistersPerElement(dtype);
    if width == 0 {
      return Fail(InvalidDataType);
    }
    if offset + width > |data| {
      return Fail(OutOfRange);
    }
    var v := DecodeNumber(data[offset..offset + width], dtype, order);
    return Ok(v);
  }

  // ------------------------------------------------------------------ encode

  /** JSON as an integer, for the values this model has. */
  function AsInt(v: Value): Option<int> {
    match v
    case Int(n) => Some(n)
    case Bool(b) => Some(if b then 1 else 0)
    case _ => None
  }

  /** Text cut to a field, or padded to it with the given byte. */
  function Field(text: seq<byte>, chars: nat, pad: byte): (t: seq<byte>)
    ensures |t| == chars
  {
    seq(chars, i requires 0 <= i < chars => if i < |text| then text[i] else pad)
  }

  /** The ABCD bytes of a value, or the reason it has none. */
  function Wire(v: Value, dtype: DType): (r: Result<seq<byte>>)
    requires dtype != Bit && dtype != Text
    ensures r.Ok? ==> |r.value| == 2 * RegistersPerElement(dtype)
  {
    match dtype
    case Byte => if AsInt(v).Some? then Ok(PutBe(AsInt(v).value % 0x1_0000, 2)) else Fail(InvalidValue)
    case Int16 => if AsInt(v).Some? then Ok(PutBe(AsInt(v).value % 0x1_0000, 2)) else Fail(InvalidValue)
    case Int32 => if AsInt(v).Some? then Ok(PutBe(AsInt(v).value % 0x1_0000_0000, 4)) else Fail(InvalidValue)
    case Float32 => if v.Single? then Ok(PutBe(v.pattern, 4)) else Fail(InvalidValue)
    case Float64 => if v.Double? then Ok(PutBe(v.pattern, 8)) else Fail(InvalidValue)
  }

  /** The payload bytes of one element, at most `cap` of them. */
  function EncodeTo(v: Value, dtype: DType, chars: nat, order: Order, cap: nat): (r: Result<seq<byte>>)
    ensures r.Ok? ==> |r.value| <= cap
    ensures r.Ok? ==> |r.value| == if dtype == Text then chars else 2 * RegistersPerElement(dtype)
  {
    if dtype == Text then
      if !v.Chars? then Fail(InvalidValue)
      else if order == CDAB || order == DCBA then Fail(NotSupported)
      else if cap < chars then Fail(OutOfRange)
      else
        var field := Field(CString(v.text), chars, 0);
        Ok(if order == BADC then SwapBytes(field) else field)
    else if dtype == Bit || cap < 2 * RegistersPerElement(dtype) then Fail(InvalidDataType)
    else
      var bytes :- Wire(v, dtype);
      Ok(Permuted(bytes, order))
  }

  method Encode(v: Value, dtype: DType, chars: nat, order: Order, cap: nat) returns (r: Result<seq<byte>>)
    ensures r == EncodeTo(v, dtype, chars, order, cap)
  {
    if dtype == Text {
      if !v.Chars? {
        return Fail(InvalidValue);
      }
      if order == CDAB || order == DCBA {
        return Fail(NotSupported);
      }
      if cap < chars {
        return Fail(OutOfRange);
      }
      var out := new byte[chars](_ => 0);
      ghost var cut := CString(v.text);
      var i := 0;
      while i < chars && i < |v.text| && v.text[i] != 0
        invariant 0 <= i <= chars && i <= |cut|
        invariant forall k :: 0 <= k < i ==> out[k] == cut[k]
        invariant forall k :: i <= k < chars ==> out[k] == 0
      {
        out[i] := v.text[i];
        i := i + 1;
      }
      assert out[..] == Field(cut, chars, 0);
      if order == BADC {
        OrderApply(out, BADC);
      }
      return Ok(out[..]);
    }
    if dtype == Bit || cap < 2 * RegistersPerElement(dtype) {
      return Fail(InvalidDataType);
    }
    var bytes := Wire(v, dtype);
    if bytes.Fail? {
      return bytes;
    }
    var buffer := new byte[|bytes.value|](i requires 0 <= i < |bytes.value| => bytes.value[i]);
    assert buffer[..] == bytes.value;
    OrderApply(buffer, order);
    return Ok(buffer[..]);
  }

  // -------------------------------------------------------------- round trip

  /** What a value becomes by going through registers of the given type. */
  function Canonical(v: Value, dtype: DType, chars: nat): (c: Value) {
    match dtype
    case Byte => if AsInt(v).Some? then Int(AsInt(v).value % 0x100) else v
    case Int16 => if AsInt(v).Some? then Int(Signed(AsInt(v).value % 0x1_0000, 0x1_0000)) else v
    case Int32 => if AsInt(v).Some? then Int(Signed(AsInt(v).value % 0x1_0000_0000, 0x1_0000_0000)) else v
    case Float32 => if v.Single? then Single(v.pattern % 0x1_0000_0000) else v
    case Float64 => if v.Double? then Double(v.pattern % 0x1_0000_0000_0000_0000) else v
    case Text => if v.Chars? then Chars(Field(CString(v.text), chars, 0x20)) else v
    case Bit => v
  }

  /** A number or a flag, and the number it reads back as: in range, and equal up to the size of the type. */
  predicate SameNumber(v: Value, c: Value, low: int, high: int) {
    && c.Int? && low <= c.number < high
    && match v
       case Int(n) => (c.number - n) % (if high - low == 0x100 then 0x100
                                        else if high - low == 0x1_0000 then 0x1_0000 else 0x1_0000_0000) == 0
       case Bool(on) => c.number == if on then 1 else 0
       case _ => false
  }

  /** Text, and the field of so many characters it reads back as: cut at its NUL, filled up with blanks. */
  predicate SameText(v: Value, c: Value, chars: nat) {
    && v.Chars? && c.Chars? && |c.text| == chars
    && (forall k :: 0 <= k < chars ==> c.text[k] == if k < |v.text| && 0 !in v.text[..k + 1] then v.text[k] else 0x20)
  }

  /** The value c is what the value v comes back as from registers of the type, case by case. */
  predicate Returns(v: Value, dtype: DType, chars: nat, c: Value) {
    match dtype
    case Bit => false
    case Byte => SameNumber(v, c, 0, 0x100)
    case Int16 => SameNumber(v, c, -0x8000, 0x8000)
    case Int32 => SameNumber(v, c, -0x8000_0000, 0x8000_0000)
    case Float32 => v.Single? && c == Single(v.pattern % 0x1_0000_0000)
    case Float64 => v.Double? && c == Double(v.pattern % 0x1_0000_0000_0000_0000)
    case Text => SameText(v, c, chars)
  }

  /** The values that can be written to an element, whatever else is true of them. */
  predicate Encodable(v: Value, dtype: DType, chars: nat, order: Order, cap: nat) {
    match dtype
    case Bit => false
    case Byte => (v.Int? || v.Bool?) && cap >= 2
    case Int16 => (v.Int? || v.Bool?) && cap >= 2
    case Int32 => (v.Int? || v.Bool?) && cap >= 4
    case Float32 => v.Single? && cap >= 4
    case Float64 => v.Double? && cap >= 8
    case Text => v.Chars? && (order == ABCD || order == BADC) && cap >= chars
  }

  /** Exactly these values are encoded. */
  lemma EncodesExactly(v: Value, dtype: DType, chars: nat, order: Order, cap: nat)
    ensures EncodeTo(v, dtype, chars, order, cap).Ok? <==> Encodable(v, dtype, chars, order, cap)
  {
    hide PutBe, Permuted, SwapBytes;
  }

  lemma CanonicalReturns(v: Value, dtype: DType, chars: nat, order: Order, cap: nat)
    requires Encodable(v, dtype, chars, order, cap)
    ensures Returns(v, dtype, chars, Canonical(v, dtype, chars))
  {
    if dtype == Text {
      forall k | 0 <= k < chars
        ensures Field(CString(v.text), chars, 0x20)[k]
                  == if k < |v.text| && 0 !in v.text[..k + 1] then v.text[k] else 0x20
      {
        CutAtNul(v.text, k);
      }
    } else if v.Int? {
      Wraps(v.number, 0x100);
      Wraps(v.number, 0x1_0000);
      Wraps(v.number, 0x1_0000_0000);
    }
  }

  lemma CutAtNul(s: seq<byte>, k: nat)
    ensures k < |CString(s)| <==> k < |s| && 0 !in s[..k + 1]
  {
    var cut := CString(s);
    if |cut| <= k < |s| {
      assert s[..k + 1][|cut|] == 0;
    }
    if k < |cut| {
      assert forall i :: 0 <= i <= k ==> s[..k + 1][i] == cut[i];
    }
  }

  lemma Wraps(n: int, m: nat)
    requires m == 0x100 || m == 0x1_0000 || m == 0x1_0000_0000
    ensures (n % m - n) % m == 0 && (n % m - m - n) % m == 0
  {
    assert n % m - n == -(n / m) * m;
  }

  lemma FieldReads(value: nat)
    ensures BeNat(PutBe(value, 2)) == value % 0x1_0000
    ensures BeNat(PutBe(value, 4)) == value % 0x1_0000_0000
    ensures BeNat(PutBe(value, 8)) == value % 0x1_0000_0000_0000_0000
  {
    Powers();
    PutBeReads(value, 2);
    PutBeReads(value, 4);
    PutBeReads(value, 8);
  }

  lemma Powers()
    ensures Pow256(2) == 0x1_0000 && Pow256(4) == 0x1_0000_0000 && Pow256(8) == 0x1_0000_0000_0000_0000
  {
    assert Pow256(1) == 0x100 * Pow256(0);
    assert Pow256(3) == 0x100 * Pow256(2);
    assert Pow256(5) == 0x100 * Pow256(4);
    assert Pow256(7) == 0x100 * Pow256(6);
  }

  /** In every byte order, a payload decodes to the canonical form of the value. */
  lemma DecodeEncode(v: Value, dtype: DType, chars: nat, order: Order, cap: nat)
    requires chars <= TEXT_MAX
    requires EncodeTo(v, dtype, chars, order, cap).Ok?
    ensures DecodeAt(EncodeTo(v, dtype, chars, order, cap).value, 0, dtype, chars, order)
            == Ok(Canonical(v, dtype, chars))
    ensures Returns(v, dtype, chars, Canonical(v, dtype, chars))
  {
    EncodesExactly(v, dtype, chars, order, cap);
    CanonicalReturns(v, dtype, chars, order, cap);
    hide Returns, Encodable;
    var bytes := EncodeTo(v, dtype, chars, order, cap).value;
    assert bytes[0..|bytes|] == bytes;
    if dtype == Text {
      var field := Field(CString(v.text), chars, 0);
      SwapBytesTwice(field);
      assert Blanked(field) == Field(CString(v.text), chars, 0x20);
    } else {
      var wire := Wire(v, dtype).value;
      OrderIsItsOwnInverse(wire, order);
      MeaningOfWire(v, dtype);
    }
  }

  lemma MeaningOfWire(v: Value, dtype: DType)
    requires dtype != Bit && dtype != Text && Wire(v, dtype).Ok?
    ensures Meaning(Wire(v, dtype).value, dtype) == Canonical(v, dtype, 0)
  {
    match dtype {
      case Byte => LowByte(AsInt(v).value);
      case Int16 => MeaningOfInt16(v);
      case Int32 => MeaningOfInt32(v);
      case Float32 => FieldReads(v.pattern);
      case Float64 => FieldReads(v.pattern);
    }
  }

  lemma MeaningOfInt16(v: Value)
    requires Wire(v, Int16).Ok?
    ensures Meaning(Wire(v, Int16).value, Int16) == Canonical(v, Int16, 0)
  {
    hide PutBe, BeNat;
    FieldReads(AsInt(v).value % 0x1_0000);
  }

  lemma MeaningOfInt32(v: Value)
    requires Wire(v, Int32).Ok?
    ensures Meaning(Wire(v, Int32).value, Int32) == Canonical(v, Int32, 0)
  {
    hide PutBe, BeNat;
    FieldReads(AsInt(v).value % 0x1_0000_0000);
  }

  lemma LowByte(n: int)
    ensures PutBe(n % 0x1_0000, 2)[1] == n % 0x100
  {
    LowByteOfWord(n);
    LastByte(n % 0x1_0000);
  }

  lemma LowByteOfWord(n: int)
    ensures n % 0x1_0000 % 0x100 == n % 0x100
  {
    var m := n % 0x1_0000;
    var q, k := n / 0x1_0000, m / 0x100;
    assert n == 0x1_0000 * q + m && m == 0x100 * k + m % 0x100;
    Remainder(n, 0x100 * q + k, m % 0x100);
  }

  lemma Remainder(n: int, k: int, r: nat)
    requires n == 0x100 * k + r && r < 0x100
    ensures n % 0x100 == r
  {
    assert k == n / 0x100;
  }

  lemma LastByte(m: word)
    ensures PutBe(m, 2)[1] == m % 0x100
  {
    assert PutBe(m, 2) == PutBe(m / 0x100, 1) + [m % 0x100];
  }
}
