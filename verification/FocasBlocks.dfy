/**
 * FOCAS frames and the block lists inside them: a count, then blocks that each
 * begin with their own size; a request may carry a payload behind its last block.
 */
module FocasBlocks {
  import opened Common

  // ----------------------------------------------------------------- framing

  const HEADER: nat := 10
  const MAGIC: byte := 0xA0
  const DIR_REQUEST: byte := 1
  const DIR_REPLY: byte := 2
  const DIR_STATUS: byte := 3
  const DIR_DATA: byte := 4

  const ERR_MAGIC: Err := Protocol(0xB0)
  const ERR_HEADER: Err := Protocol(0xB1)
  const ERR_LENGTH: Err := Protocol(0xB2)
  const ERR_RB_MISSING: Err := Protocol(0xB3)
  const ERR_RB_CODE: Err := Protocol(0xB4)
  const ERR_RB_COUNT: Err := Protocol(0xB5)
  const ERR_NO_DATA: Err := Protocol(0xB6)

  datatype Pdu = Pdu(kind: word, func: byte, dir: byte, length: word)

  function FrameBytes(func: byte, dir: byte, body: seq<byte>): (s: seq<byte>)
    ensures |s| == HEADER + |body|
  {
    [MAGIC, MAGIC, MAGIC, MAGIC] + PutBe16(1) + [func, dir] + PutBe16(|body|) + body
  }

  /** A frame, byte by byte: four marks, the version, function, direction, the length of the body, the body. */
  predicate IsFrame(s: seq<byte>, func: byte, dir: byte, body: seq<byte>) {
    && |s| == 10 + |body|
    && s[0] == s[1] == s[2] == s[3] == 0xA0 && s[4] == 0 && s[5] == 1 && s[6] == func && s[7] == dir
    && s[8] as int * 0x100 + s[9] as int == |body| && s[10..] == body
  }

  lemma FrameBytesAreFrame(func: byte, dir: byte, body: seq<byte>)
    requires |body| <= 0xFFFF
    ensures IsFrame(FrameBytes(func, dir, body), func, dir, body)
  {
    VersionIsOne();
    hide PutBe16;
    var s := FrameBytes(func, dir, body);
    assert s[4] == PutBe16(1)[0] && s[5] == PutBe16(1)[1];
    assert s[8] == PutBe16(|body|)[0] && s[9] == PutBe16(|body|)[1];
  }

  lemma VersionIsOne()
    ensures PutBe16(1) == [0, 1]
  {
  }

  /** Fills `out` with a frame; 0 when it does not fit. */
  method Build(out: array<byte>, func: byte, dir: byte, body: seq<byte>) returns (n: nat)
    modifies out
    ensures n == 0 <==> out.Length < HEADER + |body| || |body| > 0xFFFF
    ensures n > 0 ==> n == HEADER + |body| && out[..n] == FrameBytes(func, dir, body)
    ensures n > 0 ==> IsFrame(out[..n], func, dir, body)
    ensures out[n..] == old(out[n..])
  {
    hide IsFrame;
    if out.Length < HEADER + |body| || |body| > 0xFFFF {
      return 0;
    }
    n := HEADER + |body|;
    var head := [MAGIC, MAGIC, MAGIC, MAGIC] + PutBe16(1) + [func, dir] + PutBe16(|body|);
    hide PutBe16;
    WriteAt(out, 0, head + body);
    FrameBytesAreFrame(func, dir, body);
  }

  /** The header of a frame and its total length, once both are known to be sound. */
  function Split(frame: seq<byte>): (r: Result<(Pdu, nat)>) {
    if |frame| < HEADER then Fail(OutOfRange)
    else if frame[..4] != [MAGIC, MAGIC, MAGIC, MAGIC] then Fail(ERR_MAGIC)
    else if frame[7] < 1 || frame[7] > 4 then Fail(ERR_HEADER)
    else
      var length := Be16(frame[8], frame[9]);
      if |frame| < HEADER + length then Fail(OutOfRange)
      else Ok((Pdu(Be16(frame[4], frame[5]), frame[6], frame[7], length), HEADER + length))
  }

  /** Which bytes are a frame, and what each of the others is refused as. */
  lemma SplitExactly(frame: seq<byte>)
    ensures Split(frame).Ok? <==>
              && |frame| >= 10 && frame[0] == frame[1] == frame[2] == frame[3] == 0xA0 && 1 <= frame[7] <= 4
              && |frame| >= 10 + frame[8] as int * 0x100 + frame[9] as int
    ensures |frame| >= 10 && !(frame[0] == frame[1] == frame[2] == frame[3] == 0xA0) ==>
              Split(frame) == Fail(Protocol(0xB0))
    ensures |frame| >= 10 && frame[0] == frame[1] == frame[2] == frame[3] == 0xA0 && !(1 <= frame[7] <= 4) ==>
              Split(frame) == Fail(Protocol(0xB1))
    ensures Split(frame).Fail? && Split(frame).error !in {Protocol(0xB0), Protocol(0xB1)} ==>
              Split(frame) == Fail(OutOfRange)
  {
    if |frame| >= 10 {
      assert frame[..4] == [frame[0], frame[1], frame[2], frame[3]];
    }
  }

  lemma SplitBuilt(func: byte, dir: byte, body: seq<byte>, rest: seq<byte>)
    requires 1 <= dir <= 4 && |body| <= 0xFFFF
    ensures Split(FrameBytes(func, dir, body) + rest) == Ok((Pdu(1, func, dir, |body|), HEADER + |body|))
    ensures (FrameBytes(func, dir, body) + rest)[HEADER..HEADER + |body|] == body
  {
    hide PutBe16;
    var frame := FrameBytes(func, dir, body) + rest;
    assert frame[4] == PutBe16(1)[0] && frame[5] == PutBe16(1)[1];
    assert frame[8] == PutBe16(|body|)[0] && frame[9] == PutBe16(|body|)[1];
  }

  // ---------------------------------------------------------- command blocks

  const CB_SIZE: nat := 28

  datatype Cb = Cb(first: word, index: word, code: word, arg0: nat, arg1: nat, arg2: nat, arg3: nat, tag0: word,
                   tag1: word)

  function CbInit(code: word): Cb {
    Cb(1, 1, code, 0, 0, 0, 0, 0, 0)
  }

  /** One block with its size field. */
  function BlockBytes(size: nat, cb: Cb): (s: seq<byte>)
    ensures |s| == CB_SIZE
  {
    PutBe(size, 2) + PutBe(cb.first, 2) + PutBe(cb.index, 2) + PutBe(cb.code, 2)
    + PutBe(cb.arg0, 4) + PutBe(cb.arg1, 4) + PutBe(cb.arg2, 4) + PutBe(cb.arg3, 4)
    + PutBe(cb.tag0, 2) + PutBe(cb.tag1, 2)
  }

  lemma TwoBytes(value: nat)
    ensures PutBe(value, 2) == PutBe16(value)
  {
    assert PutBe(value / 0x100, 1) == PutBe(value / 0x100 / 0x100, 0) + [value / 0x100 % 0x100];
  }

  /** The blocks of a list, one after the other, without payload. */
  function Flat(cbs: seq<Cb>): (s: seq<byte>)
    ensures |s| == CB_SIZE * |cbs|
  {
    if cbs == [] then [] else Flat(cbs[..|cbs| - 1]) + BlockBytes(CB_SIZE, cbs[|cbs| - 1])
  }

  /** A request body: the count, the blocks, and what hangs behind the last one. */
  function Body(cbs: seq<Cb>): (s: seq<byte>)
    ensures |s| == 2 + CB_SIZE * |cbs|
  {
    PutBe16(|cbs|) + Flat(cbs)
  }

  /** A payload grows the size of the block it hangs behind and fills its last field. */
  function BodyWith(cbs: seq<Cb>, payload: seq<byte>): (s: seq<byte>)
    requires cbs != [] && payload != []
  {
    PutBe16(|cbs|) + Flat(cbs[..|cbs| - 1]) + Carrier(cbs[|cbs| - 1], payload) + payload
  }

  /** The block a payload hangs behind. */
  function Carrier(cb: Cb, payload: seq<byte>): (s: seq<byte>)
    ensures |s| == CB_SIZE
  {
    BlockBytes(CB_SIZE + |payload|, cb.(tag1 := |payload| % 0x1_0000))
  }

  lemma EmptyBody()
    ensures Body([]) == [0, 0]
  {
    hide BlockBytes;
    assert Flat([]) == [];
    assert PutBe16(0) == [0, 0];
  }

  method BodyBegin(out: array<byte>) returns (used: nat)
    modifies out
    ensures used == if out.Length < 2 then 0 else 2
    ensures out.Length >= 2 ==> out[..2] == Body([])
  {
    hide Body;
    if out.Length < 2 {
      return 0;
    }
    out[0], out[1] := 0, 0;
    EmptyBody();
    return 2;
  }

  /** A buffer with a block written behind `used` bytes and the count in front adjusted to the size. */
  function Grown(s: seq<byte>, used: nat, cb: Cb): (t: seq<byte>)
    requires 2 <= used && used + CB_SIZE <= |s|
    ensures |t| == |s|
  {
    Splice(Splice(s, used, BlockBytes(CB_SIZE, cb)), 0, PutBe16((used + CB_SIZE - 2) / CB_SIZE))
  }

  /**
   * Appends a block and rewrites the count, in place. `cbs` are the blocks the
   * buffer holds, if that is what it holds.
   */
  method BodyAdd(out: array<byte>, used: nat, cb: Cb, ghost cbs: seq<Cb>) returns (next: nat)
    modifies out
    ensures next == 0 <==> used < 2 || out.Length < used + CB_SIZE
    ensures next == 0 ==> out[..] == old(out[..])
    ensures next > 0 ==> next == used + CB_SIZE && out[..] == Grown(old(out[..]), used, cb)
    ensures next > 0 && old(out[..used]) == Body(cbs) ==> out[..next] == Body(cbs + [cb])
  {
    hide PutBe16, BlockBytes;
    assert (cbs + [cb])[..|cbs|] == cbs;
    assert Flat(cbs + [cb]) == Flat(cbs) + BlockBytes(CB_SIZE, cb);
    assert Body(cbs)[2..] == Flat(cbs);
    assert Body(cbs + [cb]) == PutBe16(|cbs| + 1) + Flat(cbs) + BlockBytes(CB_SIZE, cb);
    hide Body, Flat;
    if used < 2 || out.Length < used + CB_SIZE {
      return 0;
    }
    next := used + CB_SIZE;
    ghost var was := out[..];
    var block, count := BlockBytes(CB_SIZE, cb), PutBe16((next - 2) / CB_SIZE);
    WriteAt(out, used, block);
    WriteAt(out, 0, count);
    if was[..used] == Body(cbs) {
      assert used == |Body(cbs)| by {
        assert |was[..used]| == used;
      }
      GrownParts(was, used, block, count);
      Divides(|cbs| + 1);
      assert was[2..used] == was[..used][2..] == Flat(cbs);
    }
  }

  /** What a block behind and a count in front make of a buffer, in parts. */
  lemma GrownParts(was: seq<byte>, used: nat, block: seq<byte>, count: seq<byte>)
    requires 2 <= used && used + |block| <= |was| && |count| == 2
    ensures Splice(Splice(was, used, block), 0, count)[..used + |block|] == count + was[2..used] + block
  {
    var t := Splice(was, used, block);
    SpliceParts(was, used, block);
    SpliceParts(t, 0, count);
    hide Splice;
    var now := Splice(t, 0, count);
    assert now[..used + |block|] == now[..2] + now[2..used] + now[used..used + |block|];
    assert now[2..used] == was[2..used];
  }

  lemma Divides(n: nat)
    ensures CB_SIZE * n / CB_SIZE == n
  {
  }

  /** A buffer with a payload behind `used` bytes, and its length in two fields of the 28 bytes before it. */
  function Hung(s: seq<byte>, used: nat, data: seq<byte>): (t: seq<byte>)
    requires CB_SIZE <= used && used + |data| <= |s|
    ensures |t| == |s|
  {
    Splice(Splice(Splice(s, used, data), used - CB_SIZE, PutBe16(CB_SIZE + |data|)), used - CB_SIZE + 26,
        PutBe16(|data|))
  }

  lemma HungMeans(s: seq<byte>, used: nat, data: seq<byte>)
    requires CB_SIZE <= used && used + |data| <= |s|
    ensures var at := used - CB_SIZE;
            Hung(s, used, data) == Splice(Splice(Splice(s, used, data), at, PutBe16(CB_SIZE + |data|)), at + 26,
                                          PutBe16(|data|))
  {
    hide PutBe16, Splice;
  }

  /** What the driver takes for the size of the last block. */
  function SizeBehind(s: seq<byte>, used: nat): word
    requires CB_SIZE <= used <= |s|
  {
    Be16(s[used - CB_SIZE], s[used - CB_SIZE + 1])
  }

  /**
   * Hangs a payload behind the last block, in place, if the 28 bytes before it
   * begin with their own size. `cbs` are the blocks the buffer holds, if that is
   * what it holds.
   */
  method BodyAddPayload(out: array<byte>, used: nat, data: seq<byte>, ghost cbs: seq<Cb>) returns (next: nat)
    modifies out
    ensures next == 0 <==> || data == [] || used < 2 + CB_SIZE || out.Length < used + |data| || used + |data| > 0xFFFF
                           || SizeBehind(old(out[..]), used) != CB_SIZE
    ensures next == 0 ==> out[..] == old(out[..])
    ensures next > 0 ==> next == used + |data| && out[..] == Hung(old(out[..]), used, data)
    ensures cbs != [] && used <= out.Length && old(out[..used]) == Body(cbs) ==>
              && (next == 0 <==> data == [] || out.Length < used + |data| || used + |data| > 0xFFFF)
              && (next > 0 ==> out[..next] == BodyWith(cbs, data))
  {
    hide PutBe16, BlockBytes, Flat, Splice, Hung;
    if cbs != [] && data != [] {
      BlockRewritten(CB_SIZE + |data|, cbs[|cbs| - 1], |data|);
    }
    assert cbs != [] && data != [] ==>
        BodyWith(cbs, data)
            == PutBe16(|cbs|) + Flat(cbs[..|cbs| - 1])
              + (PutBe16(CB_SIZE + |data|) + BlockBytes(CB_SIZE, cbs[|cbs| - 1])[2..26] + PutBe16(|data|)) + data;
    hide Body, BodyWith;
    ghost var was := out[..];
    ghost var known := cbs != [] && used <= out.Length && was[..used] == Body(cbs);
    if known {
      LastBlock(was, used, cbs);
    }
    if data == [] || used < 2 + CB_SIZE || out.Length < used + |data| || used + |data| > 0xFFFF {
      return 0;
    }
    if Be16(out[used - CB_SIZE], out[used - CB_SIZE + 1]) != CB_SIZE {
      return 0;
    }
    HangPayload(out, used, data);
    if known {
      HungParts(was, used, data, PutBe16(CB_SIZE + |data|), PutBe16(|data|));
      HungMeans(was, used, data);
    }
    return used + |data|;
  }

  /** The payload goes behind the block, its length into the block's size and last field. */
  method HangPayload(out: array<byte>, used: nat, data: seq<byte>)
    requires CB_SIZE <= used && used + |data| <= out.Length
    modifies out
    ensures out[..] == Hung(old(out[..]), used, data)
  {
    hide PutBe16, Splice;
    WriteAt(out, used, data);
    WriteAt(out, used - CB_SIZE, PutBe16(CB_SIZE + |data|));
    WriteAt(out, used - CB_SIZE + 26, PutBe16(|data|));
  }

  /**
   * Behind a first payload the driver looks for the size of the last block 28 bytes
   * before the end. That is in the payload when it is long, in the block when it is
   * short, and for 27 bytes the last byte of one and the first of the other; a second
   * payload is accepted exactly when the number 28 stands there.
   */
  lemma SecondPayloadExactly(cbs: seq<Cb>, payload: seq<byte>)
    requires cbs != [] && payload != []
    ensures var s, block, n := BodyWith(cbs, payload), Carrier(cbs[|cbs| - 1], payload), |payload|;
            && |s| >= CB_SIZE
            && (SizeBehind(s, |s|) == CB_SIZE <==>
                  if n >= CB_SIZE then payload[n - 28] == 0 && payload[n - 27] == 28
                  else if n == 27 then block[27] == 0 && payload[0] == 28
                  else block[n] == 0 && block[n + 1] == 28)
  {
    hide PutBe16, Flat, BlockBytes, Carrier;
    var s, front := BodyWith(cbs, payload), PutBe16(|cbs|) + Flat(cbs[..|cbs| - 1]);
    var block := Carrier(cbs[|cbs| - 1], payload);
    assert s == front + (block + payload);
    assert s[|s| - CB_SIZE] == (block + payload)[|payload|];
    assert s[|s| - CB_SIZE + 1] == (block + payload)[|payload| + 1];
  }

  /** Ten bytes behind a block whose first argument is 28: the argument is taken for the size, and a second payload. */
  lemma SecondPayloadIsTaken(cbs: seq<Cb>, payload: seq<byte>)
    requires cbs != [] && cbs[|cbs| - 1].arg0 == 28 && |payload| == 10
    ensures var s := BodyWith(cbs, payload); |s| >= CB_SIZE && SizeBehind(s, |s|) == CB_SIZE
  {
    hide BodyWith, SizeBehind, BlockBytes, Flat, PutBe16, PutBe;
    SecondPayloadExactly(cbs, payload);
    ArgumentPlace(CB_SIZE + 10, cbs[|cbs| - 1].(tag1 := 10));
    ArgumentBytes();
  }

  lemma ArgumentBytes()
    ensures PutBe(28, 4)[2] == 0 && PutBe(28, 4)[3] == 28
  {
    assert PutBe(28, 4) == PutBe(0, 3) + [28];
    assert PutBe(0, 3) == PutBe(0, 2) + [0];
  }

  lemma ArgumentPlace(size: nat, cb: Cb)
    ensures BlockBytes(size, cb)[10] == PutBe(cb.arg0, 4)[2] && BlockBytes(size, cb)[11] == PutBe(cb.arg0, 4)[3]
  {
    hide PutBe16, PutBe;
  }

  /** After 26 or 27 bytes what stands there is the length of the payload, so the second is refused. */
  lemma SecondPayloadIsRefused(cbs: seq<Cb>, payload: seq<byte>)
    requires cbs != [] && (|payload| == 26 || |payload| == 27)
    ensures var s := BodyWith(cbs, payload); |s| >= CB_SIZE && SizeBehind(s, |s|) != CB_SIZE
  {
    hide BodyWith, SizeBehind, BlockBytes, Flat, PutBe;
    SecondPayloadExactly(cbs, payload);
    LengthPlace(CB_SIZE + |payload|, cbs[|cbs| - 1].(tag1 := |payload|));
  }

  lemma LengthPlace(size: nat, cb: Cb)
    ensures BlockBytes(size, cb)[26..] == PutBe16(cb.tag1)
  {
    TwoBytes(cb.tag1);
    hide PutBe16, PutBe;
  }

  /** The last block of a body begins with its own size, 28. */
  lemma LastBlock(s: seq<byte>, used: nat, cbs: seq<Cb>)
    requires used <= |s| && cbs != [] && s[..used] == Body(cbs)
    ensures used >= 2 + CB_SIZE
    ensures s[used - CB_SIZE..used] == BlockBytes(CB_SIZE, cbs[|cbs| - 1])
    ensures s[..used - CB_SIZE] == PutBe16(|cbs|) + Flat(cbs[..|cbs| - 1])
    ensures Be16(s[used - CB_SIZE], s[used - CB_SIZE + 1]) == CB_SIZE
  {
    hide BlockBytes, PutBe16;
    assert |s[..used]| == used;
    var last := BlockBytes(CB_SIZE, cbs[|cbs| - 1]);
    assert s[..used][used - CB_SIZE..] == last;
    BlockSize(CB_SIZE, cbs[|cbs| - 1]);
    assert s[used - CB_SIZE] == last[0] && s[used - CB_SIZE + 1] == last[1];
  }

  lemma BlockSize(size: nat, cb: Cb)
    requires size < 0x1_0000
    ensures Be16(BlockBytes(size, cb)[0], BlockBytes(size, cb)[1]) == size
  {
    TwoBytes(size);
    hide PutBe, PutBe16;
    var s := BlockBytes(size, cb);
    assert s[..2] == PutBe16(size);
    assert s[0] == s[..2][0] && s[1] == s[..2][1];
  }

  /** Rewriting the size and the last field of a block gives the block with these values. */
  lemma BlockRewritten(size: nat, cb: Cb, len: nat)
    ensures PutBe16(size) + BlockBytes(CB_SIZE, cb)[2..26] + PutBe16(len)
            == BlockBytes(size, cb.(tag1 := len % 0x1_0000))
  {
    hide PutBe;
    PutBe16Wraps(len);
    TwoBytes(size);
    TwoBytes(len % 0x1_0000);
    hide PutBe16;
    var middle := PutBe(cb.first, 2) + PutBe(cb.index, 2) + PutBe(cb.code, 2)
      + PutBe(cb.arg0, 4) + PutBe(cb.arg1, 4) + PutBe(cb.arg2, 4) + PutBe(cb.arg3, 4) + PutBe(cb.tag0, 2);
    assert BlockBytes(CB_SIZE, cb) == PutBe(CB_SIZE, 2) + middle + PutBe(cb.tag1, 2);
    assert BlockBytes(CB_SIZE, cb)[2..26] == middle;
    assert BlockBytes(size, cb.(tag1 := len % 0x1_0000)) == PutBe16(size) + middle + PutBe16(len);
  }

  lemma PutBe16Wraps(x: nat)
    ensures PutBe16(x % 0x1_0000) == PutBe16(x)
  {
    var q := x / 0x1_0000;
    assert x == 0x100 * (0x100 * q) + x % 0x1_0000;
    assert x / 0x100 == 0x100 * q + x % 0x1_0000 / 0x100;
  }

  /** The three writes of a payload, on a buffer of which the last block is known. */
  lemma ThreeWrites(head: seq<byte>, block: seq<byte>, tail: seq<byte>, data: seq<byte>, size: seq<byte>,
                    len: seq<byte>)
    requires |block| == CB_SIZE && |data| <= |tail| && |size| == |len| == 2
    ensures var at := |head|;
            Splice(Splice(Splice(head + block + tail, at + CB_SIZE, data), at, size), at + 26, len)
            == head + (size + block[2..26] + len) + (data + tail[|data|..])
  {
    var at, rest := |head|, data + tail[|data|..];
    var s1 := Splice(head + block + tail, at + CB_SIZE, data);
    assert s1 == head + block + rest;
    var s2 := Splice(s1, at, size);
    assert s2 == head + (size + block[2..]) + rest;
    assert Splice(s2, at + 26, len) == head + (size + block[2..26] + len) + rest;
  }

  /** What the three writes make of a buffer that ends in a block, in parts. */
  lemma HungParts(was: seq<byte>, used: nat, data: seq<byte>, size: seq<byte>, len: seq<byte>)
    requires CB_SIZE <= used && used + |data| <= |was| && |size| == |len| == 2
    ensures var at := used - CB_SIZE;
            Splice(Splice(Splice(was, used, data), at, size), at + 26, len)[..used + |data|]
              == was[..at] + (size + was[at..used][2..26] + len) + data
  {
    hide Splice;
    var at := used - CB_SIZE;
    var head, block, tail := was[..at], was[at..used], was[used..];
    assert was == head + block + tail;
    ThreeWrites(head, block, tail, data, size, len);
    Front(head, size + block[2..26] + len, data, tail[|data|..]);
  }

  lemma Front(a: seq<byte>, b: seq<byte>, c: seq<byte>, d: seq<byte>)
    ensures (a + b + (c + d))[..|a| + |b| + |c|] == a + b + c
  {
  }

  // ------------------------------------------------------------ reply blocks

  function BlockCount(body: seq<byte>): nat {
    if |body| < 2 then 0 else Be16(body[0], body[1])
  }

  function SizeAt(body: seq<byte>, at: nat): word
    requires at + 2 <= |body|
  {
    Be16(body[at], body[at + 1])
  }

  /** Where the walk stands after skipping `index` blocks. */
  function OffsetOf(body: seq<byte>, index: nat): (r: Result<nat>)
    requires |body| >= 2
    ensures r.Ok? ==> 2 <= r.value <= |body|
  {
    if index == 0 then Ok(2)
    else
      var at :- OffsetOf(body, index - 1);
      if at + 2 > |body| || at + SizeAt(body, at) > |body| then Fail(ERR_LENGTH)
      else Ok(at + SizeAt(body, at))
  }

  /** Place and size of one block, the size field included. */
  function BlockAt(body: seq<byte>, index: nat): (r: Result<(nat, nat)>)
    ensures r.Ok? ==> 2 <= r.value.0 && 10 <= r.value.1 && r.value.0 + r.value.1 <= |body|
  {
    if |body| < 2 then Fail(ERR_LENGTH)
    else if index >= BlockCount(body) then Fail(if BlockCount(body) == 0 then ERR_RB_COUNT else ERR_RB_MISSING)
    else
      var at :- OffsetOf(body, index);
      if at + 2 > |body| then Fail(ERR_LENGTH)
      else
        var size := SizeAt(body, at);
        if size < 10 || at + size > |body| then Fail(ERR_LENGTH) else Ok((at, size))
  }

  method FindBlock(body: seq<byte>, index: nat) returns (r: Result<(nat, nat)>)
    ensures r == BlockAt(body, index)
  {
    if |body| < 2 {
      return Fail(ERR_LENGTH);
    }
    var count := Be16(body[0], body[1]);
    if index >= count {
      return Fail(if count == 0 then ERR_RB_COUNT else ERR_RB_MISSING);
    }
    var offset := 2;
    for i := 0 to index
      invariant OffsetOf(body, i) == Ok(offset)
    {
      if offset + 2 > |body| {
        WalkStays(body, i + 1, index);
        return Fail(ERR_LENGTH);
      }
      offset := offset + SizeAt(body, offset);
      if offset > |body| {
        WalkStays(body, i + 1, index);
        return Fail(ERR_LENGTH);
      }
    }
    if offset + 2 > |body| {
      return Fail(ERR_LENGTH);
    }
    var size := SizeAt(body, offset);
    if size < 10 || offset + size > |body| {
      return Fail(ERR_LENGTH);
    }
    return Ok((offset, size));
  }

  lemma {:induction false} WalkStays(body: seq<byte>, m: nat, n: nat)
    requires |body| >= 2 && m <= n && OffsetOf(body, m) == Fail(ERR_LENGTH)
    ensures OffsetOf(body, n) == Fail(ERR_LENGTH)
  {
    if m < n {
      WalkStays(body, m, n - 1);
    }
  }

  /** Later walks pass every earlier block completely. */
  lemma {:induction false} WalkAdvances(body: seq<byte>, m: nat, n: nat)
    requires |body| >= 2 && m < n && OffsetOf(body, n).Ok?
    ensures OffsetOf(body, m).Ok? && OffsetOf(body, m).value + 2 <= |body|
    ensures OffsetOf(body, m).value + SizeAt(body, OffsetOf(body, m).value) <= OffsetOf(body, n).value
  {
    if m < n - 1 {
      WalkAdvances(body, m, n - 1);
    }
  }

  /**
   * Whatever the bytes: a block that is found lies inside the body behind the
   * count, says its own size, and no two blocks overlap.
   */
  lemma BlocksAreInside(body: seq<byte>, i: nat, j: nat)
    requires i < j && BlockAt(body, j).Ok?
    ensures var (at, size) := BlockAt(body, j).value;
            2 <= at && 10 <= size && at + size <= |body| && size == SizeAt(body, at)
    ensures BlockAt(body, i).Ok? ==> BlockAt(body, i).value.0 + BlockAt(body, i).value.1 <= BlockAt(body, j).value.0
    ensures OffsetOf(body, i).Ok? && OffsetOf(body, i).value + 2 <= |body|
    ensures BlockAt(body, i).Fail? <==> SizeAt(body, OffsetOf(body, i).value) < 10
    ensures BlockAt(body, i).Fail? ==> BlockAt(body, i) == Fail(Protocol(0xB2))
  {
    WalkAdvances(body, i, j);
  }

  /** The machine's return code of a block, sign extended. */
  function BlockCode(block: seq<byte>): int {
    if |block| < 10 then 0 else Signed(Be16(block[8], block[9]), 0x1_0000)
  }

  /** The block at a place that was found. */
  function BlockOf(body: seq<byte>, place: (nat, nat)): seq<byte>
    requires place.0 + place.1 <= |body|
  {
    body[place.0..place.0 + place.1]
  }

  /** The block was found, and its bytes 8 and 9 say 0. */
  predicate BlockFine(body: seq<byte>, i: nat) {
    var place := BlockAt(body, i);
    place.Ok? && body[place.value.0 + 8] == 0 && body[place.value.0 + 9] == 0
  }

  /** The error of a block that is not fine: 1 and 6 mean that the machine has no such thing. */
  function BlockError(body: seq<byte>, i: nat): Err {
    match BlockAt(body, i)
    case Fail(error) => error
    case Ok(place) =>
      if body[place.0 + 8] == 0 && body[place.0 + 9] in {1, 6} then Unavailable else ERR_RB_CODE
  }

  lemma CodeMeans(body: seq<byte>, place: (nat, nat))
    requires 10 <= place.1 && place.0 + place.1 <= |body|
    ensures var code, high, low := BlockCode(BlockOf(body, place)), body[place.0 + 8], body[place.0 + 9];
            (code == 0 <==> high == 0 && low == 0) && (code in {1, 6} <==> high == 0 && low in {1, 6})
  {
    assert BlockOf(body, place)[8] == body[place.0 + 8] && BlockOf(body, place)[9] == body[place.0 + 9];
  }

  /**
   * Fails on the first block that does not parse or that the machine refused:
   * success means there is at least one block and all of them say 0.
   */
  method CheckBlocks(body: seq<byte>) returns (r: Result<()>, index: nat)
    ensures r.Ok? <==> BlockCount(body) > 0 && forall i :: 0 <= i < BlockCount(body) ==> BlockFine(body, i)
    ensures BlockCount(body) == 0 ==> r == Fail(Protocol(0xB5))
    ensures r.Fail? && BlockCount(body) > 0 ==>
              && index < BlockCount(body) && !BlockFine(body, index)
              && (forall i :: 0 <= i < index ==> BlockFine(body, i))
              && r.error == BlockError(body, index)
  {
    hide BlockCode;
    index := 0;
    var count := BlockCount(body);
    if count == 0 {
      return Fail(ERR_RB_COUNT), 0;
    }
    for i := 0 to count
      invariant forall k :: 0 <= k < i ==> BlockFine(body, k)
    {
      var place := FindBlock(body, i);
      if place.Fail? {
        assert !BlockFine(body, i);
        return Fail(place.error), i;
      }
      var code := BlockCode(BlockOf(body, place.value));
      CodeMeans(body, place.value);
      if code != 0 {
        assert !BlockFine(body, i);
        return Fail(if code in {1, 6} then Unavailable else ERR_RB_CODE), i;
      }
    }
    return Ok(()), count;
  }

  /** A body of one block, byte by byte: 10 and 11 hold what the machine says. */
  method CheckOneBlock(body: seq<byte>) returns (r: Result<()>)
    requires |body| >= 12 && body[0] == 0 && body[1] == 1
    requires 10 <= body[2] as int * 256 + body[3] as int <= |body| - 2
    ensures r.Ok? <==> body[10] == 0 && body[11] == 0
    ensures r == Fail(Unavailable) <==> body[10] == 0 && (body[11] == 1 || body[11] == 6)
    ensures r.Fail? && r.error != Unavailable ==> r.error == Protocol(0xB4)
  {
    assert OffsetOf(body, 0) == Ok(2);
    assert BlockAt(body, 0) == Ok((2, body[2] as int * 256 + body[3] as int));
    var index;
    r, index := CheckBlocks(body);
    assert BlockCount(body) == 1;
    assert BlockFine(body, 0) <==> body[10] == 0 && body[11] == 0;
  }

  // --------------------------------------------------------- print and parse

  function Request(cbs: seq<Cb>, payload: seq<byte>): (s: seq<byte>)
    requires cbs != []
  {
    if payload == [] then Body(cbs) else BodyWith(cbs, payload)
  }

  /** The fields of a block, read back from its bytes. */
  function ParseCb(s: seq<byte>): Cb
    requires |s| >= CB_SIZE
  {
    Cb(Be16(s[2], s[3]), Be16(s[4], s[5]), Be16(s[6], s[7]), BeNat(s[8..12]), BeNat(s[12..16]), BeNat(s[16..20]),
       BeNat(s[20..24]), Be16(s[24], s[25]), Be16(s[26], s[27]))
  }

  predicate Fits32(cb: Cb) {
    cb.arg0 < 0x1_0000_0000 && cb.arg1 < 0x1_0000_0000 && cb.arg2 < 0x1_0000_0000 && cb.arg3 < 0x1_0000_0000
  }

  lemma Long(value: nat)
    requires value < 0x1_0000_0000
    ensures BeNat(PutBe(value, 4)) == value
  {
    PutBeReads(value, 4);
    assert Pow256(1) == 0x100 * Pow256(0);
    assert Pow256(3) == 0x100 * Pow256(2);
  }

  lemma Pair(s: seq<byte>, at: nat, value: word)
    requires at + 2 <= |s| && s[at..at + 2] == PutBe(value, 2)
    ensures Be16(s[at], s[at + 1]) == value
  {
    TwoBytes(value);
    hide PutBe16;
    assert s[at] == s[at..at + 2][0] && s[at + 1] == s[at..at + 2][1];
  }

  /** A block at the front of the bytes, and the payload behind it. */
  predicate IsBlock(s: seq<byte>, cb: Cb, payload: seq<byte>) {
    && |s| >= 28 + |payload|
    && Be16(s[0], s[1]) == 28 + |payload|
    && Be16(s[2], s[3]) == cb.first && Be16(s[4], s[5]) == cb.index && Be16(s[6], s[7]) == cb.code
    && BeNat(s[8..12]) == cb.arg0 && BeNat(s[12..16]) == cb.arg1
    && BeNat(s[16..20]) == cb.arg2 && BeNat(s[20..24]) == cb.arg3
    && Be16(s[24], s[25]) == cb.tag0
    && Be16(s[26], s[27]) == (if payload == [] then cb.tag1 else |payload|)
    && s[28..28 + |payload|] == payload
  }

  /** Where the fields of a block stand. */
  lemma FieldsStand(size: nat, cb: Cb, s: seq<byte>)
    requires BlockBytes(size, cb) <= s
    ensures s[0..2] == PutBe(size, 2) && s[2..4] == PutBe(cb.first, 2)
    ensures s[4..6] == PutBe(cb.index, 2) && s[6..8] == PutBe(cb.code, 2)
    ensures s[8..12] == PutBe(cb.arg0, 4) && s[12..16] == PutBe(cb.arg1, 4)
    ensures s[16..20] == PutBe(cb.arg2, 4) && s[20..24] == PutBe(cb.arg3, 4)
    ensures s[24..26] == PutBe(cb.tag0, 2) && s[26..28] == PutBe(cb.tag1, 2)
  {
    hide PutBe, PutBe16;
    var block := BlockBytes(size, cb);
    assert forall k :: 0 <= k < CB_SIZE ==> s[k] == block[k];
    var short := PutBe(size, 2) + PutBe(cb.first, 2) + PutBe(cb.index, 2) + PutBe(cb.code, 2);
    var long := PutBe(cb.arg0, 4) + PutBe(cb.arg1, 4) + PutBe(cb.arg2, 4) + PutBe(cb.arg3, 4);
    assert block == short + long + (PutBe(cb.tag0, 2) + PutBe(cb.tag1, 2));
    assert s[..8] == short && s[8..24] == long && s[24..28] == PutBe(cb.tag0, 2) + PutBe(cb.tag1, 2);
  }

  lemma LadenBlock(cb: Cb, payload: seq<byte>)
    requires Fits32(cb) && |payload| + CB_SIZE < 0x1_0000
    ensures IsBlock((if payload == [] then BlockBytes(CB_SIZE, cb) else Carrier(cb, payload)) + payload, cb, payload)
  {
    hide BlockBytes, PutBe16, PutBe, BeNat, IsBlock;
    var tagged := if payload == [] then cb else cb.(tag1 := |payload|);
    var s := BlockBytes(CB_SIZE + |payload|, tagged) + payload;
    assert (if payload == [] then BlockBytes(CB_SIZE, cb) else Carrier(cb, payload)) + payload == s;
    FieldsStand(CB_SIZE + |payload|, tagged, s);
    FieldsRead(s, cb, tagged, payload);
  }

  lemma FieldsRead(s: seq<byte>, cb: Cb, tagged: Cb, payload: seq<byte>)
    requires Fits32(cb) && |payload| + CB_SIZE < 0x1_0000 && |s| >= CB_SIZE && s[28..] == payload
    requires tagged == if payload == [] then cb else cb.(tag1 := |payload|)
    requires s[0..2] == PutBe(28 + |payload|, 2) && s[2..4] == PutBe(cb.first, 2)
    requires s[4..6] == PutBe(cb.index, 2) && s[6..8] == PutBe(cb.code, 2)
    requires s[8..12] == PutBe(cb.arg0, 4) && s[12..16] == PutBe(cb.arg1, 4)
    requires s[16..20] == PutBe(cb.arg2, 4) && s[20..24] == PutBe(cb.arg3, 4)
    requires s[24..26] == PutBe(cb.tag0, 2) && s[26..28] == PutBe(tagged.tag1, 2)
    ensures IsBlock(s, cb, payload)
  {
    hide PutBe16, PutBe, BeNat;
    Pair(s, 0, CB_SIZE + |payload|);
    Pair(s, 2, cb.first);
    Pair(s, 4, cb.index);
    Pair(s, 6, cb.code);
    Long(cb.arg0);
    Long(cb.arg1);
    Long(cb.arg2);
    Long(cb.arg3);
    Pair(s, 24, cb.tag0);
    Pair(s, 26, tagged.tag1);
  }

  lemma {:induction false} FlatAt(cbs: seq<Cb>, i: nat)
    requires i < |cbs|
    ensures Flat(cbs)[CB_SIZE * i..CB_SIZE * i + CB_SIZE] == BlockBytes(CB_SIZE, cbs[i])
  {
    hide BlockBytes;
    if i < |cbs| - 1 {
      FlatAt(cbs[..|cbs| - 1], i);
    }
  }

  /** What stands at the place of block i of a request. */
  function Printed(cbs: seq<Cb>, payload: seq<byte>, i: nat): (s: seq<byte>)
    requires i < |cbs|
  {
    if i < |cbs| - 1 || payload == [] then BlockBytes(CB_SIZE, cbs[i]) else Carrier(cbs[i], payload) + payload
  }

  lemma RequestAt(cbs: seq<Cb>, payload: seq<byte>, i: nat)
    requires i < |cbs|
    ensures var req, at := Request(cbs, payload), 2 + CB_SIZE * i;
            && |req| == 2 + CB_SIZE * |cbs| + |payload|
            && at + |Printed(cbs, payload, i)| <= |req|
            && req[at..at + |Printed(cbs, payload, i)|] == Printed(cbs, payload, i)
            && req[..2] == PutBe16(|cbs|)
  {
    hide BlockBytes, PutBe16, Flat;
    if payload == [] {
      var from := CB_SIZE * i;
      FlatAt(cbs, i);
      assert Request(cbs, payload) == PutBe16(|cbs|) + Flat(cbs) + [];
      Within(Request(cbs, payload), PutBe16(|cbs|), Flat(cbs), [], from, from + CB_SIZE, 2 + from, 2 + from + CB_SIZE);
    } else {
      LadenAt(cbs, payload, i);
    }
  }

  lemma LadenAt(cbs: seq<Cb>, payload: seq<byte>, i: nat)
    requires i < |cbs| && payload != []
    ensures var req, at, block := BodyWith(cbs, payload), 2 + CB_SIZE * i, Printed(cbs, payload, i);
            && |req| == 2 + CB_SIZE * |cbs| + |payload|
            && at + |block| <= |req| && req[at..at + |block|] == block && req[..2] == PutBe16(|cbs|)
  {
    hide BlockBytes, PutBe16, Flat;
    var n, from := |cbs| - 1, CB_SIZE * i;
    var count, front := PutBe16(|cbs|), Flat(cbs[..n]);
    var last := Carrier(cbs[n], payload) + payload;
    var req := BodyWith(cbs, payload);
    hide Carrier;
    Joined(req, count, front, last);
    if i < n {
      FlatAt(cbs[..n], i);
      hide BodyWith;
      Within(req, count, front, last, from, from + CB_SIZE, 2 + from, 2 + from + CB_SIZE);
    } else {
      hide BodyWith;
      Within(req, count + front, last, [], 0, |last|, 2 + from, 2 + from + |last|);
      PrintedLast(cbs, payload);
    }
  }

  lemma PrintedLast(cbs: seq<Cb>, payload: seq<byte>)
    requires cbs != [] && payload != []
    ensures Printed(cbs, payload, |cbs| - 1) == Carrier(cbs[|cbs| - 1], payload) + payload
  {
  }

  lemma Joined(s: seq<byte>, a: seq<byte>, b: seq<byte>, c: seq<byte>)
    ensures s == a + b + c ==> s == a + b + c + [] && s[..|a|] == a && |s| == |a| + |b| + |c|
  {
  }

  lemma Within(s: seq<byte>, a: seq<byte>, b: seq<byte>, c: seq<byte>, i: nat, j: nat, from: nat, to: nat)
    requires s == a + b + c && i <= j <= |b| && from == |a| + i && to == |a| + j
    ensures s[from..to] == b[i..j]
  {
  }

  /**
   * The layout of a request, byte by byte: the number of blocks, then each block with
   * its size and fields, then the payload, which counts into the last block.
   */
  ghost predicate IsRequest(req: seq<byte>, cbs: seq<Cb>, payload: seq<byte>) {
    && |req| == 2 + 28 * |cbs| + |payload|
    && Be16(req[0], req[1]) == |cbs|
    && (forall i :: 0 <= i < |cbs| ==> IsBlock(req[2 + 28 * i..], cbs[i], if i == |cbs| - 1 then payload else []))
  }

  /** A request is laid out this way. */
  lemma RequestIsLaidOut(cbs: seq<Cb>, payload: seq<byte>)
    requires 0 < |cbs| < 0x1_0000 && |payload| + CB_SIZE < 0x1_0000
    requires forall i :: 0 <= i < |cbs| ==> Fits32(cbs[i])
    ensures IsRequest(Request(cbs, payload), cbs, payload)
  {
    hide Request, Printed, PutBe16, IsBlock;
    var req := Request(cbs, payload);
    RequestAt(cbs, payload, 0);
    TwoBytes(|cbs|);
    Pair(req, 0, |cbs|);
    forall i | 0 <= i < |cbs|
      ensures IsBlock(req[2 + 28 * i..], cbs[i], if i == |cbs| - 1 then payload else [])
    {
      RequestAt(cbs, payload, i);
      PrintedIsBlock(cbs, payload, i);
      BlockGoesOn(Printed(cbs, payload, i), req[2 + 28 * i..], cbs[i], if i == |cbs| - 1 then payload else []);
    }
  }

  lemma BlockGoesOn(block: seq<byte>, s: seq<byte>, cb: Cb, payload: seq<byte>)
    requires IsBlock(block, cb, payload) && block <= s
    ensures IsBlock(s, cb, payload)
  {
    hide BeNat;
    var n := 28 + |payload|;
    assert forall k :: 0 <= k < n ==> s[k] == block[k];
    assert s[8..12] == block[8..12] && s[12..16] == block[12..16];
    assert s[16..20] == block[16..20] && s[20..24] == block[20..24] && s[28..n] == block[28..n];
  }

  lemma PrintedIsBlock(cbs: seq<Cb>, payload: seq<byte>, i: nat)
    requires i < |cbs| && |payload| + CB_SIZE < 0x1_0000 && Fits32(cbs[i])
    ensures IsBlock(Printed(cbs, payload, i), cbs[i], if i == |cbs| - 1 then payload else [])
  {
    hide BlockBytes, IsBlock, Carrier;
    var carried: seq<byte> := if i == |cbs| - 1 then payload else [];
    LadenBlock(cbs[i], carried);
    assert BlockBytes(CB_SIZE, cbs[i]) + [] == BlockBytes(CB_SIZE, cbs[i]);
  }

  /** The walk passes the blocks one by one. */
  lemma {:induction false} RequestWalk(req: seq<byte>, cbs: seq<Cb>, payload: seq<byte>, i: nat)
    requires IsRequest(req, cbs, payload) && i < |cbs|
    ensures OffsetOf(req, i) == Ok(2 + 28 * i)
  {
    if i > 0 {
      RequestWalk(req, cbs, payload, i - 1);
      var at := 2 + 28 * (i - 1);
      assert IsBlock(req[at..], cbs[i - 1], []);
      assert req[at] == req[at..][0] && req[at + 1] == req[at..][1];
    }
  }

  /**
   * A request parses back: the count is the number of blocks, every block is
   * found and has its fields, and the payload is what follows the last one.
   */
  lemma PrintAndParse(req: seq<byte>, cbs: seq<Cb>, payload: seq<byte>, i: nat)
    requires IsRequest(req, cbs, payload) && i < |cbs|
    ensures BlockCount(req) == |cbs| && BlockAt(req, i).Ok?
    ensures var block := BlockOf(req, BlockAt(req, i).value);
            && |block| >= CB_SIZE
            && ParseCb(block) == (if i == |cbs| - 1 && payload != [] then cbs[i].(tag1 := |payload|) else cbs[i])
            && block[CB_SIZE..] == if i == |cbs| - 1 then payload else []
  {
    var at, carried := 2 + 28 * i, if i == |cbs| - 1 then payload else [];
    RequestWalk(req, cbs, payload, i);
    assert IsBlock(req[at..], cbs[i], carried);
    assert req[at] == req[at..][0] && req[at + 1] == req[at..][1];
    assert BlockAt(req, i) == Ok((at, 28 + |carried|));
    ParsesAlone(req[at..], cbs[i], carried);
    assert BlockOf(req, (at, 28 + |carried|)) == req[at..][..28 + |carried|];
  }

  lemma ParsesAlone(s: seq<byte>, cb: Cb, payload: seq<byte>)
    requires IsBlock(s, cb, payload)
    ensures var block := s[..28 + |payload|];
            && ParseCb(block) == (if payload == [] then cb else cb.(tag1 := |payload|))
            && block[CB_SIZE..] == payload
  {
    hide BeNat;
    var block := s[..28 + |payload|];
    assert block[8..12] == s[8..12] && block[12..16] == s[12..16];
    assert block[16..20] == s[16..20] && block[20..24] == s[20..24];
  }
}
