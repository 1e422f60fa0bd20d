/** The vocabulary of the Modbus client: areas, types, addresses, values. */
module ModbusTypes {
  import opened Common

  datatype Area = Coil | Discrete | Input | Holding {
    predicate IsBits() {
      Coil? || Discrete?
    }

    predicate IsWritable() {
      Coil? || Holding?
    }

    /** The read function code of the area. */
    function ReadCode(): byte {
      match this
      case Coil => 0x01
      case Discrete => 0x02
      case Input => 0x04
      case Holding => 0x03
    }

    /** How many bits or registers one read may ask for. */
    function MaxRead(): nat {
      if IsBits() then 2000 else 125
    }

    /** How many bits or registers one write may carry. */
    function MaxWrite(): nat {
      if IsBits() then 1968 else 123
    }
  }

  const AREA_NAMES: seq<(string, Area)> :=
    [ ("coil", Coil), ("coils", Coil), ("0x", Coil),
      ("discrete", Discrete), ("discrete_input", Discrete), ("1x", Discrete),
      ("input", Input), ("input_register", Input), ("3x", Input),
      ("holding", Holding), ("holding_register", Holding), ("register", Holding), ("4x", Holding) ]

  function FindArea(text: string, from: nat): (area: Option<Area>)
    requires from <= |AREA_NAMES|
    decreases |AREA_NAMES| - from
  {
    if from == |AREA_NAMES| then None
    else if EqIgnoreCase(text, AREA_NAMES[from].0) then Some(AREA_NAMES[from].1)
    else FindArea(text, from + 1)
  }

  /** The area a point map names; a blank or unknown name is no area. */
  function AreaParse(text: string): (area: Option<Area>) {
    FindArea(text, 0)
  }

  /** The text is one of these words, in capitals or small letters. */
  predicate OneOf(text: string, words: seq<string>) {
    exists i :: 0 <= i < |words| && EqIgnoreCase(text, words[i])
  }

  /** The words of each area; every other text names none. */
  lemma NamesExactly(text: string)
    ensures AreaParse(text) == Some(Coil) <==> OneOf(text, ["coil", "coils", "0x"])
    ensures AreaParse(text) == Some(Discrete) <==> OneOf(text, ["discrete", "discrete_input", "1x"])
    ensures AreaParse(text) == Some(Input) <==> OneOf(text, ["input", "input_register", "3x"])
    ensures AreaParse(text) == Some(Holding) <==> OneOf(text, ["holding", "holding_register", "register", "4x"])
  {
    hide EqIgnoreCase, FindArea, OneOf;
    FoundFrom(text, 0);
    forall j, k | 0 <= j < |AREA_NAMES| && 0 <= k < |AREA_NAMES| && Named(text, j) && Named(text, k)
      ensures AREA_NAMES[j].1 == AREA_NAMES[k].1
    {
      OneName(text, j, k);
    }
    ListedFrom(text, Coil, ["coil", "coils", "0x"], 0);
    ListedFrom(text, Discrete, ["discrete", "discrete_input", "1x"], 3);
    ListedFrom(text, Input, ["input", "input_register", "3x"], 6);
    ListedFrom(text, Holding, ["holding", "holding_register", "register", "4x"], 9);
  }

  lemma HoldingIsNamed()
    ensures AreaParse("holding") == Some(Holding)
  {
    var words := ["holding", "holding_register", "register", "4x"];
    NamesExactly("holding");
    assert EqIgnoreCase("holding", words[0]);
    hide EqIgnoreCase, AreaParse;
    assert OneOf("holding", words);
  }

  /** The words of an area stand one behind the other in the list. */
  lemma ListedFrom(text: string, area: Area, words: seq<string>, at: nat)
    requires at + |words| <= |AREA_NAMES|
    requires forall i :: 0 <= i < |words| ==> AREA_NAMES[at + i] == (words[i], area)
    requires forall k :: 0 <= k < |AREA_NAMES| && AREA_NAMES[k].1 == area ==> at <= k < at + |words|
    ensures OneOf(text, words) <==> exists k :: 0 <= k < |AREA_NAMES| && Named(text, k) && AREA_NAMES[k].1 == area
  {
    hide EqIgnoreCase;
    if i :| 0 <= i < |words| && EqIgnoreCase(text, words[i]) {
      assert AREA_NAMES[at + i] == (words[i], area);
      assert Named(text, at + i);
    }
    if k :| 0 <= k < |AREA_NAMES| && Named(text, k) && AREA_NAMES[k].1 == area {
      assert AREA_NAMES[at + (k - at)] == (words[k - at], area);
    }
  }

  /** No text is two of the words. */
  lemma OneName(text: string, j: nat, k: nat)
    requires j < |AREA_NAMES| && k < |AREA_NAMES| && Named(text, j) && Named(text, k)
    ensures j == k
  {
    hide FindArea;
    var v, w := AREA_NAMES[j].0, AREA_NAMES[k].0;
    assert LowerChar(v[0]) == v[0] && LowerChar(w[0]) == w[0];
    assert |v| == |w| && v[0] == w[0];
  }

  /** The word at a place of the list is what the text says. */
  predicate Named(text: string, k: nat)
    requires k < |AREA_NAMES|
  {
    EqIgnoreCase(text, AREA_NAMES[k].0)
  }

  lemma {:induction false} FoundFrom(text: string, from: nat)
    requires from <= |AREA_NAMES|
    ensures FindArea(text, from).None? ==> forall k :: from <= k < |AREA_NAMES| ==> !Named(text, k)
    ensures FindArea(text, from).Some? ==>
              exists k :: from <= k < |AREA_NAMES| && Named(text, k) && FindArea(text, from).value == AREA_NAMES[k].1
    decreases |AREA_NAMES| - from
  {
    hide EqIgnoreCase;
    if from < |AREA_NAMES| {
      FoundFrom(text, from + 1);
      if EqIgnoreCase(text, AREA_NAMES[from].0) {
        assert Named(text, from);
      }
    }
  }

  datatype DType = Bit | Byte | Int16 | Int32 | Float32 | Float64 | Text

  /** How the bytes of a value wider than a register are laid out. */
  datatype Order = ABCD | CDAB | BADC | DCBA {
    predicate SwapsWords() {
      CDAB? || DCBA?
    }

    predicate SwapsBytes() {
      BADC? || DCBA?
    }
  }

  /** Registers of one element; strings are measured by their own length. */
  function RegistersPerElement(dtype: DType): (n: nat) {
    match dtype
    case Bit => 0
    case Byte => 1
    case Int16 => 1
    case Int32 => 2
    case Float32 => 2
    case Float64 => 4
    case Text => 1
  }

  datatype Address = Address(area: string, offset: int, length: nat, dtype: DType)

  /** JSON values; the floating point ones are kept as their bit patterns. */
  datatype Value =
    | Bool(on: bool)
    | Int(number: int)
    | Single(pattern: nat)
    | Double(pattern: nat)
    | Chars(text: seq<byte>)
    | List(items: seq<Value>)

  /** One value to move: its slot in the caller's array and its place on the bus. */
  datatype Item = Item(index: nat, element: nat, offset: nat, width: nat, chars: nat, dtype: DType) {
    function End(): nat {
      offset + width
    }
  }

  predicate AddressIsBits(a: Address) {
    AreaParse(a.area).Some? && AreaParse(a.area).value.IsBits()
  }

  /** Registers (or bits) one element occupies, as the 16 bit field that holds it. */
  function ElementWidth(a: Address): (w: nat) {
    if a.dtype == Text then (a.length + 1) / 2 % 0x1_0000
    else if AddressIsBits(a) || RegistersPerElement(a.dtype) == 0 then 1
    else RegistersPerElement(a.dtype)
  }
}
