/**
 * Reading one value of a machine: the item's name carries a byte offset as text, the
 * reply carries blocks, a block carries a table of records, a record a scaled number.
 */
module FocasRecord {
  import opened Common
  import opened FocasBlocks
  import S = FocasSession

  const NAME_CAP: nat := 64
  const PRINT_CAP: nat := 48
  const MAX_CBS: nat := 12
  const RECORD: nat := 8
  const DEC_AT: nat := 6
  const SIZE_WRAP: nat := 0x1_0000_0000_0000_0000

  datatype DType = Bit | Byte | Int16 | Int32 | Float32 | Float64 | Text | Other

  function Width(t: DType): nat {
    match t
    case Bit => 1 case Byte => 1 case Int16 => 2 case Int32 => 4
    case Float32 => 4 case Float64 => 8 case Text => 1 case Other => 0
  }

  /** The item table, and names that are bare command codes. */
  datatype Items = Items(lookup: string -> Option<seq<Cb>>, bare: string -> Option<word>)

  // ------------------------------------------------------------------- names

  predicate Digit(c: char) {
    '0' <= c <= '9'
  }

  /** A number as decimal text. */
  function Decimal(n: nat): (s: string)
    ensures s != [] && forall i :: 0 <= i < |s| ==> Digit(s[i])
  {
    if n < 10 then [(n + 48) as char] else Decimal(n / 10) + [(n % 10 + 48) as char]
  }

  /** The number decimal text stands for, in a 64 bit word. */
  function NumberOf(s: string): (n: nat)
    requires forall i :: 0 <= i < |s| ==> Digit(s[i])
  {
    if s == [] then 0 else (NumberOf(s[..|s| - 1]) * 10 + (s[|s| - 1] as nat - 48)) % SIZE_WRAP
  }

  lemma {:induction false} DecimalReads(n: nat)
    requires n < SIZE_WRAP
    ensures NumberOf(Decimal(n)) == n
    decreases n
  {
    var s := Decimal(n);
    if n >= 10 {
      DecimalReads(n / 10);
      assert s[..|s| - 1] == Decimal(n / 10);
    } else {
      assert s[..0] == [];
      assert NumberOf(s[..0]) == 0;
    }
  }

  lemma {:induction false} DecimalIsShort(n: nat)
    requires n < 1000
    ensures |Decimal(n)| <= 3
  {
    assert n >= 10 ==> |Decimal(n / 10)| <= 2 by {
      assert n / 10 >= 10 ==> |Decimal(n / 10 / 10)| == 1;
    }
  }

  /** Position of the last '@', or -1. */
  function LastAt(s: string): (k: int)
    ensures -1 <= k < |s| && (k >= 0 ==> s[k] == '@') && forall i :: k < i < |s| ==> s[i] != '@'
  {
    if s == [] then -1 else if s[|s| - 1] == '@' then |s| - 1 else LastAt(s[..|s| - 1])
  }

  predicate AllDigits(s: string) {
    forall i :: 0 <= i < |s| ==> Digit(s[i])
  }

  /** The item name and the byte offset of "NAME@offset"; anything else is a name as it stands. */
  function ItemName(area: string): (string, nat) {
    var k := LastAt(area);
    if k <= 0 || k == |area| - 1 then (area, 0) else
    var digits := area[k + 1..];
    if !AllDigits(digits) || NumberOf(digits) > 0xFFFF then (area, 0)
    else if k + 1 > NAME_CAP then (area, NumberOf(digits))
    else (area[..k], NumberOf(digits))
  }

  /** Scans the text the way the driver does. */
  method ParseItemName(area: string) returns (name: string, offset: nat)
    ensures (name, offset) == ItemName(area)
  {
    hide NumberOf;
    var at := |area| - 1;
    while at >= 0 && area[at] != '@'
      invariant -1 <= at < |area| && forall i :: at < i < |area| ==> area[i] != '@'
    {
      at := at - 1;
    }
    LastAtIs(area, at);
    if at <= 0 || at == |area| - 1 {
      return area, 0;
    }
    ghost var digits := area[at + 1..];
    var p := at + 1;
    offset := 0;
    NoDigits();
    while p < |area| && Digit(area[p])
      invariant at + 1 <= p <= |area| && AllDigits(digits[..p - at - 1]) && offset == NumberOf(digits[..p - at - 1])
    {
      assert digits[p - at - 1] == area[p];
      OneDigitMore(digits, p - at - 1);
      offset := (offset * 10 + (area[p] as nat - 48)) % SIZE_WRAP;
      p := p + 1;
    }
    if p < |area| {
      assert !Digit(digits[p - at - 1]);
      return area, 0;
    }
    assert digits[..|digits|] == digits;
    if offset > 0xFFFF {
      return area, 0;
    }
    if at + 1 > NAME_CAP {
      return area, offset;
    }
    return area[..at], offset;
  }

  lemma {:induction false} LastAtIs(s: string, k: int)
    requires -1 <= k < |s| && (k >= 0 ==> s[k] == '@') && forall i :: k < i < |s| ==> s[i] != '@'
    ensures LastAt(s) == k
  {
    if k < |s| - 1 {
      LastAtIs(s[..|s| - 1], k);
    }
  }

  lemma NoDigits()
    ensures AllDigits([]) && NumberOf([]) == 0
  {
  }

  lemma OneDigitMore(digits: string, n: nat)
    requires n < |digits| && AllDigits(digits[..n]) && Digit(digits[n])
    ensures AllDigits(digits[..n + 1])
    ensures NumberOf(digits[..n + 1]) == (NumberOf(digits[..n]) * 10 + (digits[n] as nat - 48)) % SIZE_WRAP
  {
    assert digits[..n + 1][..n] == digits[..n];
  }

  /** A name printed with an offset is read back, whatever characters the name holds. */
  lemma PrintedNameReads(name: string, offset: nat)
    requires 0 < |name| < 64 && offset <= 0xFFFF
    ensures ItemName(name + "@" + Decimal(offset)) == (name, offset)
  {
    hide Decimal, NumberOf, LastAt;
    var area := name + "@" + Decimal(offset);
    LastAtIs(area, |name|);
    assert area[|name| + 1..] == Decimal(offset);
    assert area[..|name|] == name;
    DecimalReads(offset);
  }

  /** Digits the address parser split off a name are put back when only then the item is known. */
  function Rejoin(items: Items, item: string, offset: int): string {
    if offset <= 0 || items.lookup(item).Some? then item else
    var joined := item + Decimal(offset);
    if |joined| >= NAME_CAP || items.lookup(joined).None? then item else joined
  }

  /** The item, block and byte offset an address names. */
  function Route(items: Items, area: string, block: int): (string, int, nat) {
    var (item, named) := ItemName(area);
    if named == 0 && Rejoin(items, item, block) != item then (Rejoin(items, item, block), 0, 0)
    else (item, block, named)
  }

  /** The blocks of an item; a bare command code is one block of it without arguments. */
  function CbsOf(items: Items, item: string): (cbs: Option<seq<Cb>>)
    ensures items.lookup(item).Some? ==> cbs == items.lookup(item)
    ensures items.lookup(item).None? && items.bare(item).Some? ==>
              cbs == Some([Cb(1, 1, items.bare(item).value, 0, 0, 0, 0, 0, 0)])
    ensures items.lookup(item).None? && items.bare(item).None? ==> cbs == None
  {
    match items.lookup(item)
    case Some(cbs) => Some(cbs)
    case None => match items.bare(item)
      case Some(code) => Some([CbInit(code)])
      case None => None
  }

  // ------------------------------------------------------------------ reply

  /** The payload of one block of a reply, cut to what the machine says it is. */
  function Payload(reply: seq<byte>, block: int): (r: Result<seq<byte>>) {
    if block < 0 || block >= BlockCount(reply) then Fail(ERR_RB_MISSING) else
    var place :- BlockAt(reply, block);
    var bytes := BlockOf(reply, place);
    if |bytes| < 16 then Fail(ERR_LENGTH) else
    var declared := Be16(bytes[14], bytes[15]);
    Ok(if 0 < declared < |bytes| - 16 then bytes[16..16 + declared] else bytes[16..])
  }

  /** `size` bytes from an offset in a payload. */
  function Part(payload: seq<byte>, offset: nat, size: nat): (r: Result<seq<byte>>)
    ensures r.Ok? ==> |r.value| == size
  {
    if offset > |payload| then Fail(OutOfRange)
    else if |payload| - offset < size then Fail(ERR_LENGTH)
    else Ok(payload[offset..offset + size])
  }

  /** The request for an item, built in a buffer of twelve blocks. */
  method BuildItem(cbs: seq<Cb>) returns (r: Result<seq<byte>>)
    ensures r == if |cbs| <= 12 then Ok(Body(cbs)) else Fail(OutOfRange)
  {
    hide Body;
    var body := new byte[MAX_CBS * CB_SIZE + 2];
    var used := BodyBegin(body);
    for i := 0 to |cbs|
      invariant used == 2 + CB_SIZE * i && used <= body.Length && body[..used] == Body(cbs[..i])
    {
      var next := BodyAdd(body, used, cbs[i], cbs[..i]);
      if next == 0 {
        return Fail(OutOfRange);
      }
      assert cbs[..i] + [cbs[i]] == cbs[..i + 1];
      used := next;
    }
    assert cbs[..|cbs|] == cbs;
    return Ok(body[..used]);
  }

  /**
   * One point: the bytes of a field in a block of the reply. `reply` is the answer
   * the machine gave, when the request got that far.
   */
  method ReadOne(s: S.Session, items: Items, area: string, block: int, bit: int, dtype: DType, length: int)
    returns (r: Result<seq<byte>>, ghost reply: Option<seq<byte>>)
    requires s.Valid()
    modifies s
    ensures s.Valid() && old(s.log) <= s.log
    ensures length < 1 ==> r == Fail(InvalidArg) && s.log == old(s.log)
    ensures length >= 1 && CbsOf(items, Route(items, area, block).0).None? ==>
              r == Fail(InvalidDataName) && s.log == old(s.log)
    ensures reply.None? ==> r.Fail?
    ensures reply.Some? ==>
              var (item, index, named) := Route(items, area, block);
              && length >= 1
              && CbsOf(items, item).Some?
              && S.AnsweredWith(s.wire(s.log), S.COMMAND, reply.value)
              && s.socket.Some?
                  && S.Sent(s.socket.value, S.COMMAND, DIR_REQUEST, Body(CbsOf(items, item).value)) in s.log
              && (AllFine(reply.value) ==>
                  r == FieldOf(reply.value, index, if bit > 0 then bit else named, dtype, length))
              && (!AllFine(reply.value) ==> r.Fail?)
  {
    hide S.Sound, Body, ItemName, S.AnsweredWith, BlockAt, BlockFine, BlockCount;
    reply := None;
    if length < 1 {
      return Fail(InvalidArg), reply;
    }
    var item, named := ParseItemName(area);
    var index := block;
    if named == 0 {
      var joined := Rejoin(items, item, block);
      if joined != item {
        item, index := joined, 0;
      }
    }
    var cbs := CbsOf(items, item);
    if cbs.None? {
      return Fail(InvalidDataName), reply;
    }
    var body := BuildItem(cbs.value);
    if body.Fail? {
      return Fail(body.error), reply;
    }
    var done, answer := s.Command(body.value);
    if done.Fail? {
      return Fail(done.error), reply;
    }
    reply := Some(answer);
    var fine, bad := CheckBlocks(answer);
    CheckedIsFine(answer, fine.Ok?);
    if fine.Fail? {
      return Fail(fine.error), reply;
    }
    r := TakeField(answer, index, if bit > 0 then bit else named, dtype, length);
  }

  /** Every block of the reply parses and says 0, and there is one. */
  predicate AllFine(reply: seq<byte>) {
    BlockCount(reply) > 0 && forall i :: 0 <= i < BlockCount(reply) ==> BlockFine(reply, i)
  }

  lemma CheckedIsFine(reply: seq<byte>, ok: bool)
    requires ok <==> BlockCount(reply) > 0 && forall i :: 0 <= i < BlockCount(reply) ==> BlockFine(reply, i)
    ensures ok <==> AllFine(reply)
  {
  }

  /** The bytes of a field: `length` elements of a type from an offset in a block's payload. */
  function FieldOf(reply: seq<byte>, block: int, offset: nat, dtype: DType, length: nat): Result<seq<byte>> {
    var payload :- Payload(reply, block);
    if offset > |payload| then Fail(OutOfRange)
    else if dtype == Other then Fail(InvalidDataType)
    else Part(payload, offset, Width(dtype) * length)
  }

  method TakeField(reply: seq<byte>, block: int, offset: nat, dtype: DType, length: nat) returns (r: Result<seq<byte>>)
    ensures r == FieldOf(reply, block, offset, dtype, length)
    ensures r.Ok? && dtype in {Bit, Byte, Text} ==> |r.value| == length
    ensures r.Ok? && dtype == Int16 ==> |r.value| == 2 * length
    ensures r.Ok? && dtype in {Int32, Float32} ==> |r.value| == 4 * length
    ensures r.Ok? && dtype == Float64 ==> |r.value| == 8 * length
    ensures r.Ok? ==> dtype != Other
  {
    hide BlockAt, BlockCount;
    if block < 0 || block >= BlockCount(reply) {
      return Fail(ERR_RB_MISSING);
    }
    var place := FindBlock(reply, block);
    if place.Fail? {
      return Fail(place.error);
    }
    var bytes := BlockOf(reply, place.value);
    if |bytes| < 16 {
      return Fail(ERR_LENGTH);
    }
    var payload := bytes[16..];
    var declared := Be16(bytes[14], bytes[15]);
    if declared > 0 && declared < |payload| {
      assert payload[..declared] == bytes[16..16 + declared];
      payload := payload[..declared];
    }
    if offset > |payload| {
      return Fail(OutOfRange);
    }
    if dtype == Other {
      return Fail(InvalidDataType);
    }
    if |payload| - offset < Width(dtype) * length {
      return Fail(ERR_LENGTH);
    }
    return Ok(payload[offset..offset + Width(dtype) * length]);
  }

  // ----------------------------------------------------------------- records

  function Pow10(n: nat): (p: nat)
    ensures p > 0
  {
    if n == 0 then 1 else 10 * Pow10(n - 1)
  }

  /** A record: a signed 32 bit number and how many of its digits are decimals. */
  datatype Record = Record(data: int, dec: nat)

  predicate Fits(r: Record) {
    -0x8000_0000 <= r.data < 0x8000_0000 && r.dec < 0x1_0000
  }

  /** The real number of a record; decimals outside 0..9 count as none. */
  function Scaled(r: Record): real {
    r.data as real / Pow10(if r.dec > 9 then 0 else r.dec) as real
  }

  function RecordBytes(r: Record): (s: seq<byte>)
    ensures |s| == RECORD
  {
    PutBe(r.data % 0x1_0000_0000, 4) + [0, 10] + PutBe16(r.dec)
  }

  /** A table of records as the machine lays it out. */
  function Table(records: seq<Record>): (s: seq<byte>)
    ensures |s| == RECORD * |records|
  {
    if records == [] then [] else Table(records[..|records| - 1]) + RecordBytes(records[|records| - 1])
  }

  lemma {:induction false} TableAt(records: seq<Record>, i: nat)
    requires i < |records|
    ensures Table(records)[RECORD * i..RECORD * i + RECORD] == RecordBytes(records[i])
  {
    hide RecordBytes;
    var n := |records| - 1;
    assert Table(records) == Table(records[..n]) + RecordBytes(records[n]);
    if i < n {
      TableAt(records[..n], i);
      assert Table(records)[RECORD * i..RECORD * i + RECORD] == Table(records[..n])[RECORD * i..RECORD * i + RECORD];
    }
  }

  /** What the eight bytes of a record say. */
  function ReadRecord(bytes: seq<byte>): Record
    requires |bytes| == RECORD
  {
    BeNatWrites(bytes[..4]);
    FourBytes();
    Record(Signed(BeNat(bytes[..4]), 0x1_0000_0000), Be16(bytes[DEC_AT], bytes[DEC_AT + 1]))
  }

  lemma FourBytes()
    ensures Pow256(4) == 0x1_0000_0000
  {
    assert Pow256(2) == 0x1_0000;
  }

  lemma FourShifts(bytes: seq<byte>)
    requires |bytes| >= 4
    ensures BeNat(bytes[..4]) == Be16(bytes[0], bytes[1]) as int * 0x1_0000 + Be16(bytes[2], bytes[3]) as int
  {
    assert bytes[..4][..3] == bytes[..3] && bytes[..3][..2] == bytes[..2] && bytes[..2][..1] == bytes[..1];
    assert bytes[..1][..0] == [];
    assert BeNat([]) == 0;
    hide BeNat;
    BeNatNext(bytes[..1]);
    BeNatNext(bytes[..2]);
    BeNatNext(bytes[..3]);
    BeNatNext(bytes[..4]);
  }

  lemma BeNatNext(s: seq<byte>)
    requires s != []
    ensures BeNat(s) == BeNat(s[..|s| - 1]) * 0x100 + s[|s| - 1]
  {
  }

  /** The bytes of a record, one by one: four of the number in two's complement, two of the decimals. */
  predicate IsRecord(s: seq<byte>, r: Record) {
    && |s| == 8
    && r.data % 0x1_0000_0000 == s[0] as int * 0x100_0000 + s[1] as int * 0x1_0000 + s[2] as int * 0x100 + s[3] as int
    && r.dec == s[6] as int * 0x100 + s[7] as int
  }

  lemma BytesAreRecord(r: Record)
    requires Fits(r)
    ensures IsRecord(RecordBytes(r), r)
  {
    hide PutBe, BeNat, PutBe16, Pow256;
    var u := r.data % 0x1_0000_0000;
    var bytes := RecordBytes(r);
    PutBeReads(u, 4);
    FourBytes();
    assert bytes[..4] == PutBe(u, 4);
    assert bytes[6] == PutBe16(r.dec)[0] && bytes[7] == PutBe16(r.dec)[1];
    FourShifts(bytes);
  }

  /** Eight bytes that spell a record are read as it. */
  lemma RecordReads(s: seq<byte>, r: Record)
    requires Fits(r) && IsRecord(s, r)
    ensures ReadRecord(s) == r
  {
    hide BeNat;
    FourShifts(s);
    SignedBack(r.data);
  }

  lemma SignedBack(data: int)
    requires -0x8000_0000 <= data < 0x8000_0000
    ensures Signed(data % 0x1_0000_0000, 0x1_0000_0000) == data
  {
  }

  /** The bytes shifted together, and the decimals clamped. */
  method DecodeRecord(bytes: seq<byte>) returns (data: int, dec: nat)
    requires |bytes| == RECORD
    ensures data == ReadRecord(bytes).data
    ensures dec == if ReadRecord(bytes).dec > 9 then 0 else ReadRecord(bytes).dec
  {
    hide BeNat;
    FourShifts(bytes);
    var u := Be16(bytes[0], bytes[1]) as int * 0x1_0000 + Be16(bytes[2], bytes[3]) as int;
    data := if u >= 0x8000_0000 then u - 0x1_0000_0000 else u;
    dec := Be16(bytes[DEC_AT], bytes[DEC_AT + 1]);
    if dec > 9 {
      dec := 0;
    }
  }

  method Scale(data: int, dec: nat) returns (value: real)
    ensures value == data as real / Pow10(dec) as real
  {
    var scale := 1.0;
    for i := 0 to dec
      invariant scale == Pow10(i) as real
    {
      TenTimes(i);
      scale := scale * 10.0;
    }
    return data as real / scale;
  }

  lemma TenTimes(i: nat)
    ensures Pow10(i + 1) as real == Pow10(i) as real * 10.0
  {
  }

  /** The address record_at asks for, cut at the size of its buffer. */
  function RecordName(item: string, index: nat): string {
    var full := item + "@" + Decimal(index * RECORD);
    if |full| >= PRINT_CAP then full[..PRINT_CAP - 1] else full
  }

  /** What a reply says about record `index` of the table in one of its blocks. */
  function RecordIn(reply: seq<byte>, block: int, index: nat): Result<Record> {
    var bytes :- FieldOf(reply, block, index * RECORD, Byte, RECORD);
    Ok(ReadRecord(bytes))
  }

  /** The item's name fits the buffers, and its block number is not taken for part of a longer name. */
  predicate Addressable(items: Items, item: string, block: int, index: int) {
    0 < |item| < 44 && (index > 0 || !Misread(items, item, block))
  }

  /** The block number is taken for part of the name: the item is unknown, and known with the number behind it. */
  predicate Misread(items: Items, item: string, block: int) {
    && block > 0 && items.lookup(item).None?
    && |item + Decimal(block)| < 64 && items.lookup(item + Decimal(block)).Some?
  }

  /** Only record 0 of an item the table does not know can go astray, when name and block number spell a known item. */
  lemma RecordRoute(items: Items, item: string, block: int, index: nat)
    requires 0 < |item| < 44 && index <= 63
    ensures Route(items, RecordName(item, index), block) == (item, block, index * RECORD)
            <==> Addressable(items, item, block, index)
  {
    hide Decimal, ItemName;
    DecimalIsShort(index * RECORD);
    PrintedNameReads(item, index * RECORD);
  }

  /** Record 0 of block 1 of A, at a machine whose table has A1 and no A: block 0 of A1 is read. */
  lemma RecordGoesAstray(items: Items)
    requires items.lookup("A") == None && items.lookup("A1").Some?
    ensures !Addressable(items, "A", 1, 0) && Route(items, RecordName("A", 0), 1) == ("A1", 0, 0)
  {
    hide ItemName;
    assert Decimal(1) == "1" && "A" + "1" == "A1";
    assert Rejoin(items, "A", 1) == "A1" && Misread(items, "A", 1);
    hide Decimal, Rejoin, Misread;
    DecimalIsShort(0);
    PrintedNameReads("A", 0);
  }

  /** In a block that carries a table, record i is the i-th of the table. */
  lemma TableIsRead(reply: seq<byte>, block: nat, records: seq<Record>, rest: seq<byte>, i: nat)
    requires block < BlockCount(reply) && BlockAt(reply, block).Ok? && i < |records|
    requires forall k :: 0 <= k < |records| ==> Fits(records[k])
    requires var bytes := BlockOf(reply, BlockAt(reply, block).value);
             && |bytes| >= 16 && bytes[16..] == Table(records) + rest
             && (var declared := Be16(bytes[14], bytes[15]); declared == 0 || declared >= RECORD * |records|)
    ensures RecordIn(reply, block, i) == Ok(records[i])
  {
    hide BlockAt, BlockCount, Table, ReadRecord, RecordBytes, Payload, BlockOf, IsRecord;
    var table := Table(records);
    PayloadHolds(reply, block, table, rest);
    TableAt(records, i);
    BytesAreRecord(records[i]);
    RecordReads(RecordBytes(records[i]), records[i]);
    PartOfFront(Payload(reply, block).value, table, RECORD * i, RECORD);
  }

  lemma PayloadHolds(reply: seq<byte>, block: nat, table: seq<byte>, rest: seq<byte>)
    requires block < BlockCount(reply) && BlockAt(reply, block).Ok?
    requires var bytes := BlockOf(reply, BlockAt(reply, block).value);
             && |bytes| >= 16 && bytes[16..] == table + rest
             && (var declared := Be16(bytes[14], bytes[15]); declared == 0 || declared >= |table|)
    ensures Payload(reply, block).Ok? && table <= Payload(reply, block).value
  {
    hide BlockAt, BlockCount, BlockOf;
    var bytes := BlockOf(reply, BlockAt(reply, block).value);
    var payload := Payload(reply, block).value;
    assert payload == bytes[16..][..|payload|];
  }

  lemma PartOfFront(payload: seq<byte>, table: seq<byte>, at: nat, size: nat)
    requires table <= payload && at + size <= |table|
    ensures Part(payload, at, size) == Ok(table[at..at + size])
  {
    assert payload[..|table|] == table;
    assert payload[at..at + size] == payload[..|table|][at..at + size];
  }

  /**
   * Reads one scaled value out of a table of records: the record's number is printed
   * into the item's name, parsed out of it again, and found in the block.
   */
  method RecordAt(s: S.Session, items: Items, item: string, block: int, index: int)
    returns (r: Result<(real, nat)>, ghost reply: Option<seq<byte>>)
    requires s.Valid()
    modifies s
    ensures s.Valid() && old(s.log) <= s.log
    ensures index < 0 || index > 63 ==> r == Fail(OutOfRange) && s.log == old(s.log)
    ensures reply.None? ==> r.Fail?
    ensures reply.Some? && Addressable(items, item, block, index) ==>
              && 0 <= index <= 63 && CbsOf(items, item).Some?
              && S.AnsweredWith(s.wire(s.log), S.COMMAND, reply.value)
              && s.socket.Some?
                  && S.Sent(s.socket.value, S.COMMAND, DIR_REQUEST, Body(CbsOf(items, item).value)) in s.log
              && (AllFine(reply.value) ==>
                    r == match RecordIn(reply.value, block, index)
                         case Ok(one) => Ok((Scaled(one), if one.dec > 9 then 0 else one.dec))
                         case Fail(e) => Fail(e))
              && (!AllFine(reply.value) ==> r.Fail?)
  {
    hide S.Sound, Body, Route, RecordName, S.AnsweredWith, AllFine, Payload, Rejoin, ReadRecord;
    reply := None;
    if index < 0 || index > 63 {
      return Fail(OutOfRange), reply;
    }
    var name := RecordName(item, index);
    if Addressable(items, item, block, index) {
      RecordRoute(items, item, block, index);
    }
    var bytes;
    bytes, reply := ReadOne(s, items, name, block, -1, Byte, RECORD);
    if bytes.Fail? {
      return Fail(bytes.error), reply;
    }
    if |bytes.value| < RECORD {
      return Fail(ParseError), reply;
    }
    var data, dec := DecodeRecord(bytes.value);
    var value := Scale(data, dec);
    return Ok((value, dec)), reply;
  }
}
