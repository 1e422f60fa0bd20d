/**
 * CRC-16 of MODBUS over Serial Line V1.02, section 2.5.1.2 (reflected
 * polynomial 0xA001, seed 0xFFFF), studied as the linear machine it is: the
 * difference between two frames of one length alone decides the difference
 * between their CRCs.
 */
module ModbusCrc {
  import opened Common
  import opened Bits

  const POLYNOMIAL: nat := 0xA001
  const SEED: nat := 0xFFFF

  /** One turn of the register: shift out the low bit and fold in the polynomial. */
  function Step(c: nat): nat {
    if c % 2 != 0 then Xor(c / 2, POLYNOMIAL) else c / 2
  }

  function Steps(c: nat, n: nat): nat
    decreases n
  {
    if n == 0 then c else Steps(Step(c), n - 1)
  }

  /** The register after one more byte. */
  function AddByte(c: nat, b: byte): nat {
    Steps(Xor(c, b), 8)
  }

  /** The register after the bytes of s. */
  function Run(c: nat, s: seq<byte>): nat {
    if s == [] then c else AddByte(Run(c, s[..|s| - 1]), s[|s| - 1])
  }

  function Crc(s: seq<byte>): nat {
    Run(SEED, s)
  }

  method Crc16(data: seq<byte>) returns (crc: nat)
    ensures crc == Crc(data) && crc < 0x1_0000
  {
    hide Xor;
    crc := SEED;
    for i := 0 to |data|
      invariant crc == Crc(data[..i])
    {
      assert data[..i + 1][..i] == data[..i];
      crc := Xor(crc, data[i]);
      ghost var full := Steps(crc, 8);
      for bit := 0 to 8
        invariant Steps(crc, 8 - bit) == full
      {
        if crc % 2 != 0 {
          crc := Xor(crc / 2, POLYNOMIAL);
        } else {
          crc := crc / 2;
        }
      }
    }
    assert data[..|data|] == data;
    RunFits(SEED, data);
  }

  // -------------------------------------------------------- in plain numbers

  /** One turn of the register in plain arithmetic: the bits 15, 13 and 0 are folded in after an odd one. */
  function Turn(c: word): int {
    var half := c / 2;
    if c % 2 == 0 then half
    else half + 0x8000 + (if half / 0x2000 % 2 == 0 then 0x2000 else -0x2000) + (if half % 2 == 0 then 1 else -1)
  }

  /** Folding in the polynomial switches the bits 15, 13 and 0. */
  lemma FoldIn(x: nat)
    requires x < 0x8000
    ensures Xor(x, POLYNOMIAL)
              == x + 0x8000 + (if x / 0x2000 % 2 == 0 then 0x2000 else -0x2000) + (if x % 2 == 0 then 1 else -1)
  {
    BitsOfPolynomial();
    hide Xor, Pow2;
    XorAssociates(x, 0xA000, 1);
    XorAssociates(x, 0x8000, 0x2000);
    FlipBit(x, 15, 0x8000);
    var y := x + 0x8000;
    FlipBit(y, 13, 0x2000);
    BitBelow(x);
    FlipBit(Xor(x, 0xA000), 0, 1);
  }

  lemma BitBelow(x: nat)
    requires x < 0x8000
    ensures x / 0x8000 == 0 && (x + 0x8000) / 0x2000 % 2 == x / 0x2000 % 2
    ensures (x + 0x8000 + 0x2000) % 2 == x % 2 && (x + 0x8000 - 0x2000) % 2 == x % 2
  {
    assert (x + 0x8000) / 0x2000 == x / 0x2000 + 4;
  }

  lemma BitsOfPolynomial()
    ensures Pow2(15) == 0x8000 && Pow2(13) == 0x2000 && Pow2(0) == 1
    ensures Xor(0x8000, 0x2000) == 0xA000 && Xor(0xA000, 1) == POLYNOMIAL
  {
    hide Xor;
    PowersOfTwo();
    assert Pow2(15) == 2 * Pow2(14) && Pow2(14) == 2 * Pow2(13);
    FlipBit(0x8000, 13, 0x2000);
    FlipBit(0xA000, 0, 1);
  }

  /** So turns the register, for every state of it. */
  lemma StepIsTurn(c: word)
    ensures Step(c) == Turn(c)
  {
    hide Xor;
    FoldIn(c / 2);
  }

  /** The start of the register, and the turns that fix its polynomial. */
  lemma RegisterIsKnown()
    ensures Crc([]) == 0xFFFF && Step(1) == 0xA001 && forall k: nat :: Step(2 * k) == k
  {
    XorZero(POLYNOMIAL);
  }

  /** Four turns, one after the other. */
  lemma FourTurns(a: word, b: word, c: word, d: word, e: word, n: nat)
    requires Turn(a) == b && Turn(b) == c && Turn(c) == d && Turn(d) == e
    ensures Steps(a, n + 4) == Steps(e, n)
  {
    StepIsTurn(a);
    StepIsTurn(b);
    StepIsTurn(c);
    StepIsTurn(d);
    hide Step, Turn;
    assert Steps(a, n + 4) == Steps(b, n + 3) == Steps(c, n + 2) == Steps(d, n + 1);
  }

  /** The frame that the standard gives as its example: the two bytes 02 07 have the CRC 41 12, low byte first. */
  lemma ExampleFrame()
    ensures Crc([0x02, 0x07]) == 0x1241
  {
    FirstByte();
    SecondByte();
    hide AddByte;
    var one: seq<byte> := [0x02];
    assert one[..0] == [] && [0x02, 0x07][..1] == one;
    assert Run(SEED, one[..0]) == SEED;
    assert Run(SEED, one) == 0x813E;
  }

  lemma FirstByte()
    ensures AddByte(0xFFFF, 0x02) == 0x813E
  {
    TwoIn();
    hide Xor, Steps;
    FourTurns(0xFFFD, 0xDFFF, 0xCFFE, 0x67FF, 0x93FE, 4);
    FourTurns(0x93FE, 0x49FF, 0x84FE, 0x427F, 0x813E, 0);
    NoStep(0x813E);
  }

  lemma SecondByte()
    ensures AddByte(0x813E, 0x07) == 0x1241
  {
    SevenIn();
    hide Xor, Steps;
    FourTurns(0x8139, 0xE09D, 0xD04F, 0xC826, 0x6413, 4);
    FourTurns(0x6413, 0x9208, 0x4904, 0x2482, 0x1241, 0);
    NoStep(0x1241);
  }

  lemma NoStep(c: nat)
    ensures Steps(c, 0) == c
  {
  }

  lemma TwoIn()
    ensures Xor(0xFFFF, 2) == 0xFFFD
  {
    assert Pow2(1) == 2;
    hide Xor, Pow2;
    FlipBit(0xFFFF, 1, 2);
  }

  lemma SevenIn()
    ensures Xor(0x813E, 7) == 0x8139
  {
    assert Pow2(0) == 1 && Pow2(1) == 2 && Pow2(2) == 4;
    hide Xor, Pow2;
    FlipBit(2, 0, 1);
    FlipBit(3, 2, 4);
    XorAssociates(0x813E, 2, 1);
    XorAssociates(0x813E, 3, 4);
    FlipBit(0x813E, 1, 2);
    FlipBit(0x813C, 0, 1);
    FlipBit(0x813D, 2, 4);
  }

  // ------------------------------------------------------- a 16 bit register

  lemma StepFits(c: nat)
    requires c < 0x1_0000
    ensures Step(c) < 0x1_0000
  {
    PowersOfTwo();
    XorFits(c / 2, POLYNOMIAL, 16);
  }

  lemma {:induction false} StepsFit(c: nat, n: nat)
    requires c < 0x1_0000
    ensures Steps(c, n) < 0x1_0000
    decreases n
  {
    if n > 0 {
      StepFits(c);
      StepsFit(Step(c), n - 1);
    }
  }

  lemma {:induction false} RunFits(c: nat, s: seq<byte>)
    requires c < 0x1_0000
    ensures Run(c, s) < 0x1_0000
  {
    if s != [] {
      RunFits(c, s[..|s| - 1]);
      PowersOfTwo();
      XorFits(Run(c, s[..|s| - 1]), s[|s| - 1], 16);
      StepsFit(Xor(Run(c, s[..|s| - 1]), s[|s| - 1]), 8);
    }
  }

  // --------------------------------------------------------------- linearity

  lemma StepIsLinear(a: nat, b: nat)
    ensures Step(Xor(a, b)) == Xor(Step(a), Step(b))
  {
    hide Xor;
    XorHalves(a, b);
    XorParity(a, b);
    var x, y, p := a / 2, b / 2, POLYNOMIAL;
    if a % 2 != 0 && b % 2 != 0 {
      XorMixes(x, p, y, p);
      XorIsZero(p, p);
      XorZero(Xor(x, y));
    } else if a % 2 != 0 {
      XorAssociates(x, p, y);
      XorCommutes(p, y);
      XorAssociates(x, y, p);
    } else if b % 2 != 0 {
      XorAssociates(x, y, p);
    }
  }

  lemma {:induction false} StepsAreLinear(a: nat, b: nat, n: nat)
    ensures Steps(Xor(a, b), n) == Xor(Steps(a, n), Steps(b, n))
    decreases n
  {
    hide Xor, Step;
    if n > 0 {
      StepIsLinear(a, b);
      StepsAreLinear(Step(a), Step(b), n - 1);
    }
  }

  /** Only the zero register steps to zero; by linearity the step is injective. */
  lemma StepKeepsNonZero(c: nat)
    requires 0 < c < 0x1_0000
    ensures 0 < Step(c) < 0x1_0000
  {
    StepFits(c);
    PowersOfTwo();
    XorKeepsTop(c / 2, POLYNOMIAL, 15);
  }

  /** Two different registers never meet again. */
  lemma StepIsInjective(a: nat, b: nat)
    requires a < 0x1_0000 && b < 0x1_0000 && Step(a) == Step(b)
    ensures a == b
  {
    hide Xor, Step;
    StepIsLinear(a, b);
    PowersOfTwo();
    XorFits(a, b, 16);
    XorIsZero(a, b);
    XorIsZero(Step(a), Step(b));
    if a != b {
      StepKeepsNonZero(Xor(a, b));
    }
  }

  lemma {:induction false} StepsKeepNonZero(c: nat, n: nat)
    requires 0 < c < 0x1_0000
    ensures 0 < Steps(c, n) < 0x1_0000
    decreases n
  {
    if n > 0 {
      StepKeepsNonZero(c);
      StepsKeepNonZero(Step(c), n - 1);
    }
  }

  /** The bytes in which two frames of one length differ. */
  function Difference(s: seq<byte>, t: seq<byte>): (d: seq<byte>)
    requires |s| == |t|
    ensures |d| == |s|
  {
    seq(|s|, i requires 0 <= i < |s| => XorByte(s[i], t[i]))
  }

  function XorByte(x: byte, y: byte): (z: byte) {
    PowersOfTwo();
    XorFits(x, y, 8);
    Xor(x, y)
  }

  /** The CRC machine is affine over exclusive or, for frames of any length. */
  lemma {:induction false} RunIsAffine(a: nat, b: nat, s: seq<byte>, t: seq<byte>)
    requires |s| == |t|
    ensures Run(Xor(a, b), Difference(s, t)) == Xor(Run(a, s), Run(b, t))
  {
    hide Xor, Steps;
    if s != [] {
      var n := |s| - 1;
      var d := Difference(s, t);
      assert d[..n] == Difference(s[..n], t[..n]);
      RunIsAffine(a, b, s[..n], t[..n]);
      var ra, rb := Run(a, s[..n]), Run(b, t[..n]);
      XorMixes(ra, rb, s[n], t[n]);
      StepsAreLinear(Xor(ra, s[n]), Xor(rb, t[n]), 8);
    }
  }

  // ------------------------------------------------------------ line by line

  /** The register after one line bit. */
  function AddBit(c: nat, bit: nat): nat {
    Step(Xor(c, bit))
  }

  /** The register after the first n line bits of s. */
  function RunBits(c: nat, s: seq<byte>, n: nat): nat
    requires n <= 8 * |s|
  {
    if n == 0 then c else AddBit(RunBits(c, s, n - 1), LineBit(s, n - 1))
  }

  /** Bits that are still waiting to be shifted out do not feed back. */
  lemma WaitingBits(c: nat, bit: nat, rest: nat)
    requires bit < 2
    ensures Step(Xor(c, bit + 2 * rest)) == Xor(AddBit(c, bit), rest)
  {
    var w := bit + 2 * rest;
    SplitLowBit(bit, rest);
    hide Xor, Step;
    XorAssociates(c, bit, 2 * rest);
    StepIsLinear(Xor(c, bit), 2 * rest);
    EvenSteps(rest);
  }

  lemma SplitLowBit(bit: nat, rest: nat)
    requires bit < 2
    ensures Xor(bit, 2 * rest) == bit + 2 * rest
  {
    if bit == 0 || rest == 0 {
      XorZero(bit + 2 * rest);
    } else {
      XorZero(rest);
    }
  }

  lemma EvenSteps(rest: nat)
    ensures Step(2 * rest) == rest
  {
  }

  /** Feeding n line bits is adding their word at once and stepping n times. */
  lemma {:induction false} BitsAsWord(c: nat, s: seq<byte>, p: nat, n: nat)
    requires p + n <= 8 * |s|
    ensures Steps(Xor(RunBits(c, s, p), Word(s, p, n)), n) == RunBits(c, s, p + n)
    decreases n
  {
    hide Xor, Step, LineBit;
    var r := RunBits(c, s, p);
    if n == 0 {
      XorZero(r);
    } else {
      WaitingBits(r, LineBit(s, p), Word(s, p + 1, n - 1));
      BitsAsWord(c, s, p + 1, n - 1);
    }
  }

  lemma {:induction false} RunIsRunBits(c: nat, s: seq<byte>, k: nat)
    requires k <= |s|
    ensures Run(c, s[..k]) == RunBits(c, s, 8 * k)
  {
    hide Xor, Steps, Word, AddBit, Shr;
    if k > 0 {
      RunIsRunBits(c, s, k - 1);
      assert s[..k][..k - 1] == s[..k - 1];
      BitsAsWord(c, s, 8 * (k - 1), 8);
      ByteWord(s, k - 1, 0);
      ShrNone(s[k - 1]);
    }
  }

  // --------------------------------------------------------- error detection

  /** All line bits that differ lie within 16 consecutive positions. */
  ghost predicate WithinBurst(d: seq<byte>, p: nat) {
    forall i :: 0 <= i < 8 * |d| && LineBit(d, i) != 0 ==> p <= i < p + 16
  }

  lemma {:induction false} ZeroPrefix(d: seq<byte>, p: nat, n: nat)
    requires WithinBurst(d, p) && n <= 8 * |d| && n <= p
    ensures RunBits(0, d, n) == 0
  {
    if n > 0 {
      ZeroPrefix(d, p, n - 1);
    }
  }

  lemma {:induction false} NonZeroSuffix(d: seq<byte>, p: nat, m: nat, n: nat)
    requires WithinBurst(d, p) && p + 16 <= m <= n <= 8 * |d|
    requires 0 < RunBits(0, d, m) < 0x1_0000
    ensures 0 < RunBits(0, d, n) < 0x1_0000
  {
    if m < n {
      NonZeroSuffix(d, p, m, n - 1);
      assert LineBit(d, n - 1) == 0;
      StepKeepsNonZero(RunBits(0, d, n - 1));
    }
  }

  lemma {:induction false} WordFits(s: seq<byte>, p: nat, n: nat)
    requires p + n <= 8 * |s|
    ensures Word(s, p, n) < Pow2(n)
    decreases n
  {
    if n > 0 {
      WordFits(s, p + 1, n - 1);
    }
  }

  /** A difference confined to 16 consecutive line bits leaves a non-zero register. */
  lemma BurstLeavesTrace(d: seq<byte>, p: nat, i: nat)
    requires WithinBurst(d, p) && i < 8 * |d| && LineBit(d, i) != 0
    ensures Run(0, d) != 0
  {
    hide Xor, Step, Steps, Word, RunBits, LineBit, Run, Pow2;
    var total := 8 * |d|;
    var n := if p + 16 <= total then 16 else total - p;
    ZeroPrefix(d, p, p);
    BitsAsWord(0, d, p, n);
    if Word(d, p, n) == 0 {
      WordIsZero(d, p, n, i);
    }
    WordFits(d, p, n);
    XorZero(Word(d, p, n));
    PowersOfTwo();
    Pow2Grows(n, 16);
    StepsKeepNonZero(Word(d, p, n), n);
    if p + n < total {
      NonZeroSuffix(d, p, p + n, total);
    }
    RunIsRunBits(0, d, |d|);
    assert d[..|d|] == d;
  }

  /**
   * Two different byte strings of one length, alike outside 16 consecutive line
   * bits, never have the same CRC register.
   */
  lemma BurstChangesCrc(s: seq<byte>, t: seq<byte>, p: nat)
    requires |s| == |t| && s != t
    requires forall i :: 0 <= i < 8 * |s| && LineBit(s, i) != LineBit(t, i) ==> p <= i < p + 16
    ensures Crc(s) != Crc(t)
  {
    hide Xor, Run, BitOf;
    var d := Difference(s, t);
    RunIsAffine(SEED, SEED, s, t);
    XorIsZero(SEED, SEED);
    XorIsZero(Crc(s), Crc(t));
    forall i | 0 <= i < 8 * |d|
      ensures LineBit(d, i) != 0 ==> LineBit(s, i) != LineBit(t, i)
    {
      BitOfXor(s[i / 8], t[i / 8], i % 8);
    }
    var i := DifferentBit(s, t);
    BurstLeavesTrace(d, p, i);
  }

  lemma DifferentBit(s: seq<byte>, t: seq<byte>) returns (i: nat)
    requires |s| == |t| && s != t
    ensures i < 8 * |s| && LineBit(Difference(s, t), i) != 0
  {
    hide Xor, BitOf, Pow2;
    var k :| 0 <= k < |s| && s[k] != t[k];
    PowersOfTwo();
    if forall j :: 0 <= j < 8 ==> BitOf(s[k], j) == BitOf(t[k], j) {
      SameBits(s[k], t[k], 8);
    }
    var j :| 0 <= j < 8 && BitOf(s[k], j) != BitOf(t[k], j);
    BitOfXor(s[k], t[k], j);
    i := 8 * k + j;
  }

  /** Bytes first, then their CRC low byte first: the register ends at zero. */
  lemma ResidueIsZero(s: seq<byte>, lo: byte, hi: byte)
    ensures Crc(s + [lo, hi]) == 0 <==> Crc(s) == lo + 0x100 * hi
  {
    hide Xor, Steps;
    RunFits(SEED, s);
    var c, w := Crc(s), lo + 0x100 * hi;
    RunTwo(SEED, s, lo, hi);
    TwoBytesAsWord(c, lo, hi);
    PowersOfTwo();
    XorFits(c, w, 16);
    XorIsZero(c, w);
    if c != w {
      StepsKeepNonZero(Xor(c, w), 16);
    } else {
      ZeroSteps(16);
    }
  }

  lemma RunTwo(c: nat, s: seq<byte>, lo: byte, hi: byte)
    ensures Run(c, s + [lo, hi]) == AddByte(AddByte(Run(c, s), lo), hi)
  {
    hide AddByte;
    var all := s + [lo, hi];
    assert all[..|s| + 1] == s + [lo];
    assert all[..|s| + 1][..|s|] == s;
  }

  lemma TwoBytesAsWord(c: nat, lo: byte, hi: byte)
    ensures AddByte(AddByte(c, lo), hi) == Steps(Xor(c, lo + 0x100 * hi), 16)
  {
    hide Xor, Steps, Step, Word, AddByte, Shr, RunBits, Run, Pow2;
    var s := [lo, hi];
    BitsAsWord(c, s, 0, 16);
    RunIsRunBits(c, s, 2);
    RunTwo(c, [], lo, hi);
    assert s[..2] == s == [] + [lo, hi];
    RunBitsNone(c, s);
    RunNone(c);
    WordSplits(s, 0, 8, 8);
    ByteWord(s, 0, 0);
    ByteWord(s, 1, 0);
    ShrNone(lo);
    ShrNone(hi);
    PowersOfTwo();
  }

  lemma RunBitsNone(c: nat, s: seq<byte>)
    ensures RunBits(c, s, 0) == c
  {
  }

  lemma RunNone(c: nat)
    ensures Run(c, []) == c
  {
  }

  lemma {:induction false} WordSplits(s: seq<byte>, p: nat, m: nat, n: nat)
    requires p + m + n <= 8 * |s|
    ensures Word(s, p, m + n) == Word(s, p, m) + Pow2(m) * Word(s, p + m, n)
    decreases m
  {
    hide LineBit;
    if m > 0 {
      WordSplits(s, p + 1, m - 1, n);
      Doubled(Pow2(m - 1), Word(s, p + m, n));
    }
  }

  lemma Doubled(x: nat, y: nat)
    ensures 2 * (x * y) == 2 * x * y
  {
  }

  lemma {:induction false} ZeroSteps(n: nat)
    ensures Steps(0, n) == 0
    decreases n
  {
    if n > 0 {
      ZeroSteps(n - 1);
    }
  }
}
