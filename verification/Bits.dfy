/** Bits of natural numbers: shifts, single bits and exclusive or. */
module Bits {
  import opened Common

  /** x >> n */
  function Shr(x: nat, n: nat): nat
    decreases n
  {
    if n == 0 then x else Shr(x / 2, n - 1)
  }

  /** Bit n of x, as 0 or 1. */
  function BitOf(x: nat, n: nat): (b: nat)
    ensures b < 2
  {
    Shr(x, n) % 2
  }

  /** x ^ y, bit by bit. */
  function Xor(x: nat, y: nat): (z: nat)
    decreases x + y
  {
    if x == 0 then y else if y == 0 then x
    else (x % 2 + y % 2) % 2 + 2 * Xor(x / 2, y / 2)
  }

  lemma XorZero(x: nat)
    ensures Xor(x, 0) == x && Xor(0, x) == x
  {
  }

  lemma XorParity(x: nat, y: nat)
    ensures Xor(x, y) % 2 == (x % 2 + y % 2) % 2
  {
  }

  lemma {:induction false} XorIsZero(x: nat, y: nat)
    ensures Xor(x, y) == 0 <==> x == y
    decreases x + y
  {
    if x > 0 && y > 0 {
      XorIsZero(x / 2, y / 2);
      XorParity(x, y);
    }
  }

  lemma XorHalves(x: nat, y: nat)
    ensures Xor(x, y) / 2 == Xor(x / 2, y / 2)
  {
  }

  lemma {:induction false} XorCommutes(x: nat, y: nat)
    ensures Xor(x, y) == Xor(y, x)
    decreases x + y
  {
    if x > 0 && y > 0 {
      XorCommutes(x / 2, y / 2);
    }
  }

  lemma {:induction false} XorAssociates(x: nat, y: nat, z: nat)
    ensures Xor(Xor(x, y), z) == Xor(x, Xor(y, z))
    decreases x + y + z
  {
    hide Xor;
    var left, right := Xor(Xor(x, y), z), Xor(x, Xor(y, z));
    if x == 0 {
      XorZero(y);
      XorZero(Xor(y, z));
    } else if y == 0 {
      XorZero(x);
      XorZero(z);
    } else if z == 0 {
      XorZero(Xor(x, y));
      XorZero(y);
    } else {
      XorAssociates(x / 2, y / 2, z / 2);
      assert left / 2 == Xor(Xor(x / 2, y / 2), z / 2) by {
        XorHalves(x, y);
        XorHalves(Xor(x, y), z);
      }
      assert right / 2 == Xor(x / 2, Xor(y / 2, z / 2)) by {
        XorHalves(y, z);
        XorHalves(x, Xor(y, z));
      }
      XorParity(Xor(x, y), z);
      XorParity(x, Xor(y, z));
      XorParity(x, y);
      XorParity(y, z);
      Parity(x % 2, y % 2, z % 2);
      Rebuild(left, right);
    }
  }

  lemma Parity(a: nat, b: nat, c: nat)
    requires a < 2 && b < 2 && c < 2
    ensures ((a + b) % 2 + c) % 2 == (a + (b + c) % 2) % 2
  {
  }

  /** Equal last bits and equal halves make equal numbers. */
  lemma Rebuild(x: nat, y: nat)
    requires x % 2 == y % 2 && x / 2 == y / 2
    ensures x == y
  {
  }

  /** (x ^ y) ^ (u ^ v) with the middle pair exchanged. */
  lemma XorMixes(x: nat, y: nat, u: nat, v: nat)
    ensures Xor(Xor(x, y), Xor(u, v)) == Xor(Xor(x, u), Xor(y, v))
  {
    hide Xor;
    XorAssociates(Xor(x, y), u, v);
    XorAssociates(x, y, u);
    XorCommutes(y, u);
    XorAssociates(x, u, y);
    XorAssociates(Xor(x, u), y, v);
  }

  function Pow2(n: nat): (p: nat)
    ensures p >= 1
  {
    if n == 0 then 1 else 2 * Pow2(n - 1)
  }

  lemma {:induction false} XorFits(x: nat, y: nat, n: nat)
    requires x < Pow2(n) && y < Pow2(n)
    ensures Xor(x, y) < Pow2(n)
    decreases n
  {
    if n > 0 && x > 0 && y > 0 {
      XorFits(x / 2, y / 2, n - 1);
    }
  }

  /** A top bit that only one side has survives. */
  lemma {:induction false} XorKeepsTop(x: nat, y: nat, n: nat)
    requires x < Pow2(n) <= y
    ensures Xor(x, y) >= Pow2(n)
    decreases n
  {
    if n > 0 && x > 0 {
      XorKeepsTop(x / 2, y / 2, n - 1);
    }
  }

  lemma {:induction false} BitOfXor(x: nat, y: nat, n: nat)
    ensures BitOf(Xor(x, y), n) == (BitOf(x, n) + BitOf(y, n)) % 2
    decreases n
  {
    hide Xor;
    if n == 0 {
      XorParity(x, y);
    } else {
      XorHalves(x, y);
      BitOfXor(x / 2, y / 2, n - 1);
    }
  }

  /** The number whose bits, lowest first, are the n bits of s from bit p on. */
  function Word(s: seq<byte>, p: nat, n: nat): (w: nat)
    requires p + n <= 8 * |s|
    decreases n
  {
    if n == 0 then 0 else LineBit(s, p) + 2 * Word(s, p + 1, n - 1)
  }

  /** Bit i of a run of bytes in line order: byte after byte, low bit first. */
  function LineBit(s: seq<byte>, i: nat): (b: nat)
    requires i < 8 * |s|
    ensures b < 2
  {
    BitOf(s[i / 8], i % 8)
  }

  /** A word is zero only when all its bits are. */
  lemma {:induction false} WordIsZero(s: seq<byte>, p: nat, n: nat, i: nat)
    requires p + n <= 8 * |s| && p <= i < p + n
    requires Word(s, p, n) == 0
    ensures LineBit(s, i) == 0
    decreases n
  {
    if p < i {
      WordIsZero(s, p + 1, n - 1, i);
    }
  }

  /** The eight line bits of a byte are the byte. */
  lemma {:induction false} ByteWord(s: seq<byte>, k: nat, from: nat)
    requires k < |s| && from <= 8
    ensures Word(s, 8 * k + from, 8 - from) == Shr(s[k], from)
    decreases 8 - from
  {
    if from == 8 {
      ShrAll(s[k], 8);
      assert Pow2(8) == 256 by { PowersOfTwo(); }
    } else {
      ByteWord(s, k, from + 1);
      ShrNext(s[k], from);
    }
  }

  lemma ShrNone(x: nat)
    ensures Shr(x, 0) == x
  {
  }

  lemma {:induction false} ShrNext(x: nat, n: nat)
    ensures Shr(x, n + 1) == Shr(x, n) / 2
    decreases n
  {
    if n > 0 {
      ShrNext(x / 2, n - 1);
    }
  }

  lemma {:induction false} ShrAll(x: nat, n: nat)
    ensures x < Pow2(n) ==> Shr(x, n) == 0
    decreases n
  {
    if n > 0 {
      ShrAll(x / 2, n - 1);
    }
  }

  lemma {:induction false} Pow2Grows(m: nat, n: nat)
    requires m <= n
    ensures Pow2(m) <= Pow2(n)
    decreases n
  {
    if m < n {
      Pow2Grows(m, n - 1);
    }
  }

  lemma PowersOfTwo()
    ensures Pow2(8) == 0x100 && Pow2(15) == 0x8000 && Pow2(16) == 0x1_0000
  {
    assert Pow2(4) == 16;
    assert Pow2(8) == 0x100;
    assert Pow2(12) == 0x1000;
  }

  /** Exclusive or with a single bit adds it or takes it away. */
  lemma {:induction false} FlipBit(x: nat, k: nat, p: nat)
    requires p == Pow2(k)
    ensures Xor(x, p) == if x / p % 2 == 0 then x + p else x - p
    decreases k
  {
    hide Xor;
    XorHalves(x, p);
    XorParity(x, p);
    if k == 0 {
      XorZero(x / 2);
    } else {
      var q := Pow2(k - 1);
      assert p == 2 * q && p / 2 == q && p % 2 == 0;
      hide Pow2;
      FlipBit(x / 2, k - 1, q);
      HalfFirst(x, q);
    }
  }

  lemma HalfFirst(x: nat, q: nat)
    requires q > 0
    ensures x / 2 / q == x / (2 * q)
  {
    var a, r := x / 2 / q, x / 2 % q;
    assert x / 2 == a * q + r;
    assert x == a * (2 * q) + (2 * r + x % 2) by {
      assert 2 * (a * q) == a * (2 * q);
    }
    assert 2 * r + x % 2 < 2 * q;
    QuotientIs(x, 2 * q, a, 2 * r + x % 2);
  }

  lemma QuotientIs(x: int, m: nat, a: int, r: nat)
    requires r < m && x == a * m + r
    ensures x / m == a
  {
    ModUnique(x, m, a, r);
    var d := x / m - a;
    assert d * m == 0;
    if d >= 1 {
      MulAtLeast(d, m);
    } else if d <= -1 {
      MulAtLeast(-d, m);
    }
  }

  /** Two bytes with the same eight bits are the same byte. */
  lemma {:induction false} SameBits(x: nat, y: nat, n: nat)
    requires x < Pow2(n) && y < Pow2(n)
    requires forall k :: 0 <= k < n ==> BitOf(x, k) == BitOf(y, k)
    ensures x == y
    decreases n
  {
    if n > 0 {
      forall k | 0 <= k < n - 1
        ensures BitOf(x / 2, k) == BitOf(y / 2, k)
      {
        assert BitOf(x, k + 1) == BitOf(y, k + 1);
      }
      assert BitOf(x, 0) == BitOf(y, 0);
      SameBits(x / 2, y / 2, n - 1);
    }
  }

  lemma FlagAndRest(f: nat, rest: nat)
    requires f < 2
    ensures (f + 2 * rest) / 2 == rest && (f + 2 * rest) % 2 == f
  {
  }

  /** Sets bit k as |= does. */
  function SetBit(b: nat, k: nat): (c: nat)
    decreases k
  {
    if k == 0 then (if b % 2 == 1 then b else b + 1) else b % 2 + 2 * SetBit(b / 2, k - 1)
  }

  lemma {:induction false} SetBitSets(b: nat, k: nat, j: nat)
    ensures BitOf(SetBit(b, k), j) == if j == k then 1 else BitOf(b, j)
    decreases k
  {
    if k == 0 {
      assert SetBit(b, 0) / 2 == b / 2 && SetBit(b, 0) % 2 == 1;
    } else {
      FlagAndRest(b % 2, SetBit(b / 2, k - 1));
      if j > 0 {
        SetBitSets(b / 2, k - 1, j - 1);
      }
    }
  }

  lemma {:induction false} SetBitFits(b: nat, k: nat, n: nat)
    requires b < Pow2(n) && k < n
    ensures SetBit(b, k) < Pow2(n)
    decreases k
  {
    var p := Pow2(n - 1);
    assert Pow2(n) == 2 * p;
    hide Pow2;
    FitsHalved(b, p);
    if k > 0 {
      SetBitFits(b / 2, k - 1, n - 1);
    }
  }

  lemma FitsHalved(b: nat, p: nat)
    requires b < 2 * p
    ensures b / 2 < p && (b % 2 == 0 ==> b + 1 < 2 * p)
  {
  }

  /** Clears bit k, as &= ~ does. */
  function ClearBit(b: nat, k: nat): (c: nat)
    ensures c <= b
    decreases k
  {
    if k == 0 then b - b % 2 else b % 2 + 2 * ClearBit(b / 2, k - 1)
  }

  lemma {:induction false} ClearBitClears(b: nat, k: nat, j: nat)
    ensures BitOf(ClearBit(b, k), j) == if j == k then 0 else BitOf(b, j)
    decreases k
  {
    if k == 0 {
      assert ClearBit(b, 0) / 2 == b / 2 && ClearBit(b, 0) % 2 == 0;
    } else {
      FlagAndRest(b % 2, ClearBit(b / 2, k - 1));
      if j > 0 {
        ClearBitClears(b / 2, k - 1, j - 1);
      }
    }
  }
}
