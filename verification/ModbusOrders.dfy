/**
 * What cells mean, spelled out cell by cell and order by order: an independent
 * account of the values a read has to give.
 */
module ModbusOrders {
  import opened Common
  import opened ModbusTypes
  import opened ModbusCodec
  import opened ModbusDevice
  import opened ModbusItems
  import opened ModbusSlots

  /** A register with its two bytes exchanged. */
  function Turned(x: word): word {
    x % 0x100 * 0x100 + x / 0x100
  }

  /** Two registers as one number. */
  function Number32(x: word, y: word, order: Order): nat {
    match order
    case ABCD => x * 0x1_0000 + y
    case CDAB => y * 0x1_0000 + x
    case BADC => Turned(x) * 0x1_0000 + Turned(y)
    case DCBA => Turned(y) * 0x1_0000 + Turned(x)
  }

  /** Four registers as one number: words are exchanged within each half. */
  function Number64(r: seq<word>, order: Order): nat
    requires |r| == 4
  {
    Number32(r[0], r[1], order) * 0x1_0000_0000 + Number32(r[2], r[3], order)
  }

  /** A number of so many bits in two's complement. */
  function Number(pattern: nat, bits: nat): int
    requires bits == 16 || bits == 32
  {
    if bits == 16 then (if pattern < 0x8000 then pattern else pattern - 0x1_0000)
    else if pattern < 0x8000_0000 then pattern else pattern - 0x1_0000_0000
  }

  /** How many registers an element of a number type takes. */
  function Registers(dtype: DType): nat {
    match dtype
    case Byte => 1
    case Int16 => 1
    case Int32 => 2
    case Float32 => 2
    case Float64 => 4
    case _ => 0
  }

  /** What the registers of one number say. */
  function Said(r: seq<word>, dtype: DType, order: Order): Value
    requires dtype != Bit && dtype != Text && |r| == Registers(dtype)
  {
    var straight := order == ABCD || order == CDAB;
    match dtype
    case Byte => Int(if straight then r[0] % 0x100 else r[0] / 0x100)
    case Int16 => Int(Number(if straight then r[0] else Turned(r[0]), 16))
    case Int32 => Int(Number(Number32(r[0], r[1], order), 32))
    case Float32 => Single(Number32(r[0], r[1], order))
    case Float64 => Double(Number64(r, order))
  }

  /**
   * Character k of a string of n: the high byte of its register comes first, or the
   * low one when bytes are exchanged; a NUL is a blank.
   */
  function Letter(r: seq<word>, n: nat, k: nat, order: Order): byte
    requires k < n <= 2 * |r|
  {
    var low := if order == ABCD || order == CDAB then k % 2 == 1 else k % 2 == 0 && k + 1 < n;
    var b := if low then r[k / 2] % 0x100 else r[k / 2] / 0x100;
    if b == 0 then 0x20 else b
  }

  /** What the registers of an address say: a string, a number, or a list of numbers. */
  function SaidBy(words: seq<word>, at: nat, a: Address, order: Order): Value
    requires a.dtype != Bit
    requires if a.dtype == Text then at + (a.length + 1) / 2 <= |words|
             else at + Registers(a.dtype) * a.length <= |words| && a.length >= 1
  {
    if a.dtype == Text then
      Chars(seq(a.length, k requires 0 <= k < a.length => Letter(words[at..], a.length, k, order)))
    else
      var w := Registers(a.dtype);
      if a.length == 1 then Said(words[at..at + w], a.dtype, order)
      else List(seq(a.length, e requires 0 <= e < a.length => SaidAt(words, at, a, order, e)))
  }

  /** What element e of the address says. */
  function SaidAt(words: seq<word>, at: nat, a: Address, order: Order, e: nat): Value
    requires a.dtype != Bit && a.dtype != Text && at + Registers(a.dtype) * a.length <= |words| && e < a.length
  {
    var w := Registers(a.dtype);
    assert w * (e + 1) <= w * a.length;
    Said(words[at + w * e..at + w * e + w], a.dtype, order)
  }

  /** What the bits of an address say: one flag, or a list of them; a string of bits is one flag. */
  function Lit(flags: seq<bool>, at: nat, a: Address): Value
    requires a.length >= 1 && at + (if a.dtype == Text then 1 else a.length) <= |flags|
  {
    if a.length == 1 || a.dtype == Text then Bool(flags[at])
    else List(seq(a.length, e requires 0 <= e < a.length => Bool(flags[at + e])))
  }

  // ------------------------------------------------------------------- bytes

  lemma {:induction false} ByteOfWords(r: seq<word>, k: nat)
    requires k < 2 * |r|
    ensures WordBytes(r)[k] == if k % 2 == 0 then r[k / 2] / 0x100 else r[k / 2] % 0x100
  {
    if k >= 2 {
      ByteOfWords(r[1..], k - 2);
    }
  }

  lemma {:induction false} ByteOfSwapped(s: seq<byte>, k: nat)
    requires k < |s|
    ensures SwapBytes(s)[k] == if k % 2 == 1 then s[k - 1] else if k + 1 < |s| then s[k + 1] else s[k]
  {
    if k >= 2 {
      ByteOfSwapped(s[2..], k - 2);
    }
  }

  lemma PermutedPair(a: byte, b: byte, order: Order)
    ensures Permuted([a, b], order) == if order == ABCD || order == CDAB then [a, b] else [b, a]
  {
    assert [a, b][2..] == [];
  }

  lemma PermutedFour(a: byte, b: byte, c: byte, d: byte, order: Order)
    ensures Permuted([a, b, c, d], order)
            == match order
               case ABCD => [a, b, c, d]
               case CDAB => [c, d, a, b]
               case BADC => [b, a, d, c]
               case DCBA => [d, c, b, a]
  {
    assert [a, b, c, d][2..] == [c, d] && [c, d][2..] == [] && [a, b, c, d][4..] == [];
    assert SwapBytes([a, b, c, d]) == [b, a, d, c];
    assert [b, a, d, c][4..] == [];
  }

  /** Longer elements are exchanged four bytes at a time. */
  lemma PermutedJoins(s: seq<byte>, t: seq<byte>, order: Order)
    requires |s| == 4
    ensures Permuted(s + t, order) == Permuted(s, order) + Permuted(t, order)
  {
    SwapBytesJoins(s, t);
    SwapWordsJoins(s, t);
    SwapWordsJoins(SwapBytes(s), SwapBytes(t));
  }

  lemma {:induction false} SwapBytesJoins(s: seq<byte>, t: seq<byte>)
    requires |s| % 2 == 0
    ensures SwapBytes(s + t) == SwapBytes(s) + SwapBytes(t)
  {
    if s == [] {
      assert s + t == t;
    } else {
      assert (s + t)[2..] == s[2..] + t;
      SwapBytesJoins(s[2..], t);
    }
  }

  lemma SwapWordsJoins(s: seq<byte>, t: seq<byte>)
    requires |s| == 4
    ensures SwapWords(s + t) == SwapWords(s) + SwapWords(t)
  {
    assert (s + t)[4..] == t && s[4..] == [];
  }

  lemma NumberOfTwo(s: seq<byte>)
    requires |s| == 2
    ensures BeNat(s) == s[0] as int * 0x100 + s[1] as int
  {
    assert s[..1][..0] == [];
    assert BeNat(s[..1]) == s[0];
  }

  lemma NumberOfFour(s: seq<byte>)
    requires |s| == 4
    ensures BeNat(s) == BeNat(s[..2]) * 0x1_0000 + BeNat(s[2..])
  {
    NumberOfTwo(s[..2]);
    NumberOfTwo(s[2..]);
    assert s[..3][..2] == s[..2];
    assert BeNat(s[..3]) == BeNat(s[..2]) * 0x100 + s[2] as int;
  }

  lemma {:induction false} NumberJoins(s: seq<byte>, t: seq<byte>)
    ensures BeNat(s + t) == BeNat(s) * Pow256(|t|) + BeNat(t)
  {
    if t == [] {
      assert s + t == s;
    } else {
      var n := |t| - 1;
      assert (s + t)[..|s| + n] == s + t[..n];
      NumberJoins(s, t[..n]);
      assert BeNat(s) * Pow256(n) * 0x100 == BeNat(s) * Pow256(n + 1);
    }
  }

  // ------------------------------------------------------------------ values

  lemma OneRegister(x: word)
    ensures WordBytes([x]) == [x / 0x100, x % 0x100]
  {
    assert [x][1..] == [];
  }

  lemma TwoRegisters(x: word, y: word)
    ensures WordBytes([x, y]) == [x / 0x100, x % 0x100, y / 0x100, y % 0x100]
  {
    assert [x, y] == [x] + [y];
    WordBytesJoin([x], [y]);
    OneRegister(x);
    OneRegister(y);
  }

  /** The four bytes of two registers, put in order and read as one number. */
  lemma TwoRegistersSay(x: word, y: word, order: Order)
    ensures BeNat(Permuted(WordBytes([x, y]), order)) == Number32(x, y, order) < 0x1_0000_0000
  {
    hide BeNat, Permuted, WordBytes;
    TwoRegisters(x, y);
    var a, b, c, d := x / 0x100, x % 0x100, y / 0x100, y % 0x100;
    PermutedFour(a, b, c, d, order);
    var s := Permuted([a, b, c, d], order);
    NumberOfFour(s);
    NumberOfTwo(s[..2]);
    NumberOfTwo(s[2..]);
  }

  lemma FourRegistersSay(r: seq<word>, order: Order)
    requires |r| == 4
    ensures BeNat(Permuted(WordBytes(r), order)) == Number64(r, order)
  {
    hide BeNat, Permuted, WordBytes, Number32;
    assert r == [r[0], r[1]] + [r[2], r[3]];
    WordBytesJoin([r[0], r[1]], [r[2], r[3]]);
    PermutedJoins(WordBytes([r[0], r[1]]), WordBytes([r[2], r[3]]), order);
    TwoRegistersSay(r[0], r[1], order);
    TwoRegistersSay(r[2], r[3], order);
    NumberJoins(Permuted(WordBytes([r[0], r[1]]), order), Permuted(WordBytes([r[2], r[3]]), order));
    Powers();
  }

  /** In every order and for every type, the decoder gives what the registers say. */
  lemma DecodeSays(r: seq<word>, dtype: DType, order: Order)
    requires dtype != Bit && dtype != Text && |r| == Registers(dtype)
    ensures DecodeAt(WordBytes(r), 0, dtype, 0, order) == Ok(Said(r, dtype, order))
  {
    hide BeNat, Permuted, WordBytes, Number32, Meaning, Said, SwapBytes, Blanked;
    assert WordBytes(r)[0..2 * |r|] == WordBytes(r);
    MeaningIsSaid(r, dtype, order);
  }

  lemma MeaningIsSaid(r: seq<word>, dtype: DType, order: Order)
    requires dtype != Bit && dtype != Text && |r| == Registers(dtype)
    ensures Meaning(Permuted(WordBytes(r), order), dtype) == Said(r, dtype, order)
  {
    hide BeNat, Permuted, WordBytes, Number32, Number64, Turned;
    if |r| == 1 {
      OneMeans(r[0], order);
      assert r == [r[0]];
    } else if |r| == 2 {
      assert r == [r[0], r[1]];
      TwoRegistersSay(r[0], r[1], order);
    } else {
      FourRegistersSay(r, order);
    }
  }

  lemma OneMeans(x: word, order: Order)
    ensures var s := Permuted(WordBytes([x]), order);
            && |s| == 2
            && s[1] as int == (if order == ABCD || order == CDAB then x % 0x100 else x / 0x100)
            && BeNat(s) == if order == ABCD || order == CDAB then x else Turned(x)
  {
    hide BeNat, Permuted, WordBytes;
    OneRegister(x);
    PermutedPair(x / 0x100, x % 0x100, order);
    NumberOfTwo(Permuted(WordBytes([x]), order));
  }

  lemma LetterStands(r: seq<word>, text: seq<byte>, n: nat, k: nat, order: Order)
    requires k < n <= 2 * |r| && |text| == n && text == WordBytes(r)[..n]
    ensures var b := (if order.SwapsBytes() then SwapBytes(text) else text)[k];
            Letter(r, n, k, order) == if b == 0 then 0x20 else b
  {
    hide WordBytes, SwapBytes;
    if order == ABCD || order == CDAB {
      ByteOfWords(r, k);
    } else {
      SwappedStands(r, text, n, k);
    }
  }

  lemma SwappedStands(r: seq<word>, text: seq<byte>, n: nat, k: nat)
    requires k < n <= 2 * |r| && |text| == n && text == WordBytes(r)[..n]
    ensures SwapBytes(text)[k] == if k % 2 == 0 && k + 1 < n then r[k / 2] % 0x100 else r[k / 2] / 0x100
  {
    hide WordBytes, SwapBytes;
    ByteOfSwapped(text, k);
    var from := if k % 2 == 1 then k - 1 else if k + 1 < n then k + 1 else k;
    Neighbour(if k % 2 == 1 then k - 1 else k);
    ByteOfWords(r, from);
    assert text[from] == WordBytes(r)[from];
    assert from / 2 == k / 2;
  }

  lemma Neighbour(k: nat)
    requires k % 2 == 0
    ensures (k + 1) / 2 == k / 2 && (k + 1) % 2 == 1
  {
  }

  /** And of a string it gives the letters. */
  lemma DecodeSpells(r: seq<word>, n: nat, order: Order)
    requires n <= 2 * |r| && n <= 255
    ensures DecodeAt(WordBytes(r), 0, Text, n, order)
            == Ok(Chars(seq(n, k requires 0 <= k < n => Letter(r, n, k, order))))
  {
    hide WordBytes, SwapBytes, Letter;
    var text := WordBytes(r)[0..n];
    forall k | 0 <= k < n
      ensures Blanked(if order.SwapsBytes() then SwapBytes(text) else text)[k] == Letter(r, n, k, order)
    {
      LetterStands(r, text, n, k, order);
    }
    assert Blanked(if order.SwapsBytes() then SwapBytes(text) else text)
        == seq(n, k requires 0 <= k < n => Letter(r, n, k, order));
  }

  /** A longer string is read as if it had 255 characters. */
  lemma LongTextIsCut(r: seq<word>, n: nat, order: Order)
    requires n > 255 && 255 <= 2 * |r|
    ensures DecodeAt(WordBytes(r), 0, Text, n, order)
            == Ok(Chars(seq(255, k requires 0 <= k < 255 => Letter(r, 255, k, order))))
  {
    hide WordBytes, SwapBytes, Letter;
    DecodeSpells(r, 255, order);
  }

  // --------------------------------------------------------------- addresses

  lemma Room(a: Address, base: nat)
    requires WellPlaced(a, base)
    ensures var at := a.offset - base;
            && at >= 0 && a.length >= 1
            && (AreaParse(a.area).value.IsBits() ==> at + (if a.dtype == Text then 1 else a.length) <= 0x1_0000)
            && (!AreaParse(a.area).value.IsBits() ==>
                  && a.dtype != Bit
                  && (a.dtype == Text ==> at + (a.length + 1) / 2 <= 0x1_0000)
                  && (a.dtype != Text ==> at + Registers(a.dtype) * a.length <= 0x1_0000))
  {
    hide AreaParse;
    WidthFits(a, base);
    assert Registers(a.dtype) * a.length == a.length * Registers(a.dtype);
  }

  /** What the device holds where an address points: which cells, of which area, in which order. */
  function AsRead(d: Device, a: Address, base: nat, order: Order): Value
    requires d.Valid() && WellPlaced(a, base)
  {
    Room(a, base);
    var at := a.offset - base;
    match AreaParse(a.area).value
    case Coil => Lit(d.coils, at, a)
    case Discrete => Lit(d.discretes, at, a)
    case Input => SaidBy(d.inputs, at, a, order)
    case Holding => SaidBy(d.holdings, at, a, order)
  }

  lemma BitAlone(d: Device, a: Address, base: nat, order: Order, e: nat)
    requires d.Valid() && WellPlaced(a, base) && AreaParse(a.area).value.IsBits() && e < Elements(a)
    ensures a.offset - base + e < 0x1_0000
    ensures ValueOrZero(d, AreaParse(a.area).value, order, Placed(a, 0, base, e))
              == Bool(d.Flags(AreaParse(a.area).value)[a.offset - base + e])
  {
    hide AreaParse;
    WidthFits(a, base);
    ElementEnds(a, base, e);
  }

  lemma NumberAlone(d: Device, a: Address, base: nat, order: Order, e: nat)
    requires d.Valid() && WellPlaced(a, base) && !AreaParse(a.area).value.IsBits() && a.dtype != Text && e < a.length
    requires a.dtype != Bit && a.offset - base + Registers(a.dtype) * a.length <= 0x1_0000
    ensures ValueOrZero(d, AreaParse(a.area).value, order, Placed(a, 0, base, e))
              == SaidAt(d.Words(AreaParse(a.area).value), a.offset - base, a, order, e)
  {
    NumberPlace(a, base, e);
    hide AreaParse, DecodeAt, WordBytes, Said, Placed, Registers, WellPlaced;
    var it := Placed(a, 0, base, e);
    var r := d.Words(AreaParse(a.area).value)[it.offset..it.End()];
    DecodeSays(r, a.dtype, order);
  }

  lemma NumberPlace(a: Address, base: nat, e: nat)
    requires WellPlaced(a, base) && !AreaParse(a.area).value.IsBits() && a.dtype != Text && e < a.length
    requires a.dtype != Bit && a.offset - base + Registers(a.dtype) * a.length <= 0x1_0000
    ensures var it, w := Placed(a, 0, base, e), Registers(a.dtype);
            && it.offset == a.offset - base + w * e && it.width == w >= 1 && it.chars == 0 && it.dtype == a.dtype
            && it.End() <= 0x1_0000
  {
    hide AreaParse;
    WidthFits(a, base);
    hide WellPlaced, ElementWidth;
    var w := Registers(a.dtype);
    assert w * e == e * w && w * (e + 1) <= w * a.length;
    assert w * (e + 1) == w * e + w;
    assert a.offset >= base by {
      ElementOnBus(a, base);
    }
  }

  lemma ElementOnBus(a: Address, base: nat)
    requires WellPlaced(a, base)
    ensures a.offset >= base
  {
  }

  lemma TextAsSaid(d: Device, a: Address, base: nat, order: Order)
    requires d.Valid() && WellPlaced(a, base) && !AreaParse(a.area).value.IsBits() && a.dtype == Text
    ensures a.offset - base + (a.length + 1) / 2 <= 0x1_0000
    ensures ValueOrZero(d, AreaParse(a.area).value, order, Placed(a, 0, base, 0))
              == SaidBy(d.Words(AreaParse(a.area).value), a.offset - base, a, order)
  {
    hide AreaParse, DecodeAt, WordBytes;
    WidthFits(a, base);
    ElementEnds(a, base, 0);
    var it := Placed(a, 0, base, 0);
    var words := d.Words(AreaParse(a.area).value);
    var r := words[it.offset..it.End()];
    DecodeSpells(r, a.length, order);
    forall k | 0 <= k < a.length
      ensures Letter(r, a.length, k, order) == Letter(words[it.offset..], a.length, k, order)
    {
      assert r[k / 2] == words[it.offset..][k / 2];
    }
    hide Letter;
    assert seq(a.length, k requires 0 <= k < a.length => Letter(r, a.length, k, order))
        == seq(a.length, k requires 0 <= k < a.length => Letter(words[it.offset..], a.length, k, order));
  }

  /** Reading an address element by element gives what its cells say, for every area, type and order. */
  lemma AloneIsAsRead(d: Device, a: Address, base: nat, order: Order)
    requires d.Valid() && WellPlaced(a, base)
    ensures ReadAlone(d, a, base, order) == AsRead(d, a, base, order)
  {
    hide AreaParse, ValueOrZero, SaidAt, Placed;
    Room(a, base);
    var area, at := AreaParse(a.area).value, a.offset - base;
    if area.IsBits() {
      forall e | 0 <= e < Elements(a)
        ensures ValueOrZero(d, area, order, Placed(a, 0, base, e)) == Bool(d.Flags(area)[at + e])
      {
        BitAlone(d, a, base, order, e);
      }
    } else if a.dtype == Text {
      TextAsSaid(d, a, base, order);
    } else {
      forall e | 0 <= e < a.length
        ensures ValueOrZero(d, area, order, Placed(a, 0, base, e)) == SaidAt(d.Words(area), at, a, order, e)
      {
        NumberAlone(d, a, base, order, e);
      }
      FirstIsAll(d.Words(area), at, a, order);
    }
  }

  lemma FirstIsAll(words: seq<word>, at: nat, a: Address, order: Order)
    requires a.dtype != Bit && a.dtype != Text && at + Registers(a.dtype) * a.length <= |words| && a.length >= 1
    ensures a.length == 1 ==> SaidBy(words, at, a, order) == SaidAt(words, at, a, order, 0)
  {
  }
}
