/** Bytes, error codes and ASCII text shared by all the protocol clients. */
module Common {

  type byte = x: int | 0 <= x < 0x100
  type word = x: int | 0 <= x < 0x1_0000

  datatype Option<+T> = None | Some(value: T)

  /** The three driver tiers, and the plain library errors the clients use. */
  datatype Err =
    | Transport(code: nat)
    | Protocol(code: nat)
    | Business(code: nat)
    | InvalidArg
    | InvalidValue
    | InvalidDataType
    | InvalidDataName
    | OutOfRange
    | ParseError
    | NotSupported
    | NotFound
    | Unavailable

  datatype Result<+T> = Ok(value: T) | Fail(error: Err) {
    predicate IsFailure() {
      Fail?
    }

    function PropagateFailure<U>(): Result<U>
      requires Fail?
    {
      Fail(error)
    }

    function Extract(): T
      requires Ok?
    {
      value
    }
  }

  // ------------------------------------------------------------- big endian

  /** What two big endian bytes say. */
  function Be16(hi: byte, lo: byte): (w: word) {
    hi * 0x100 + lo
  }

  /** A 16 bit field as it goes on the wire; wider values lose their high part. */
  function PutBe16(value: nat): (s: seq<byte>)
    ensures |s| == 2
    ensures Be16(s[0], s[1]) == value % 0x1_0000
  {
    ModSplit(value, 0x100);
    [value / 0x100 % 0x100, value % 0x100]
  }

  /** The number a run of big endian bytes stands for. */
  function BeNat(s: seq<byte>): (n: nat) {
    if s == [] then 0 else BeNat(s[..|s| - 1]) * 0x100 + s[|s| - 1]
  }

  /** The low `n` bytes of `value`, most significant first. */
  function PutBe(value: nat, n: nat): (s: seq<byte>)
    ensures |s| == n
  {
    if n == 0 then [] else PutBe(value / 0x100, n - 1) + [value % 0x100]
  }

  function Pow256(n: nat): (p: nat)
    ensures p >= 1
  {
    if n == 0 then 1 else 0x100 * Pow256(n - 1)
  }

  /** Writing a number in n bytes and reading it back keeps it modulo 256^n. */
  lemma {:induction false} PutBeReads(value: nat, n: nat)
    ensures BeNat(PutBe(value, n)) == value % Pow256(n)
    decreases n
  {
    if n > 0 {
      var s := PutBe(value, n);
      assert s[..n - 1] == PutBe(value / 0x100, n - 1);
      PutBeReads(value / 0x100, n - 1);
      ModSplit(value, Pow256(n - 1));
    }
  }

  lemma ModSplit(value: nat, m: nat)
    requires m >= 1
    ensures value / 0x100 % m * 0x100 + value % 0x100 == value % (0x100 * m)
  {
    var q := value / 0x100;
    var k := q / m;
    var r := q % m;
    assert q == k * m + r;
    assert value == 0x100 * q + value % 0x100;
    assert value == k * (0x100 * m) + (0x100 * r + value % 0x100) by {
      assert 0x100 * (k * m) == k * (0x100 * m);
    }
    assert 0 <= 0x100 * r + value % 0x100 < 0x100 * m;
    ModUnique(value, 0x100 * m, k, 0x100 * r + value % 0x100);
  }

  lemma ModUnique(value: int, m: nat, k: int, r: nat)
    requires 0 <= r < m && value == k * m + r
    ensures value % m == r
  {
    var d := value / m - k;
    assert d * m == r - value % m;
    if d >= 1 {
      MulAtLeast(d, m);
    } else if d <= -1 {
      MulAtLeast(-d, m);
    }
  }

  lemma MulAtLeast(d: int, m: nat)
    requires d >= 1
    ensures d * m >= m && -d * m <= -(m as int)
  {
  }

  /** Reading n bytes as a number and writing them back gives the bytes. */
  lemma {:induction false} BeNatWrites(s: seq<byte>)
    ensures PutBe(BeNat(s), |s|) == s
    ensures BeNat(s) < Pow256(|s|)
  {
    if s != [] {
      BeNatWrites(s[..|s| - 1]);
      assert s == s[..|s| - 1] + [s[|s| - 1]];
      var high := BeNat(s[..|s| - 1]);
      assert BeNat(s) / 0x100 == high && BeNat(s) % 0x100 == s[|s| - 1];
    }
  }

  /** A 16 or 32 bit value read as two's complement. */
  function Signed(value: nat, modulus: nat): (n: int)
    requires modulus == 0x1_0000 || modulus == 0x1_0000_0000
    requires value < modulus
    ensures -(modulus / 2) <= n < modulus / 2
    ensures n % modulus == value
  {
    if 2 * value >= modulus then value - modulus else value
  }

  // ---------------------------------------------------------------- buffers

  /** s with `part` in the place of what stood from position `at` on. */
  function Splice<T>(s: seq<T>, at: nat, part: seq<T>): (t: seq<T>)
    requires at + |part| <= |s|
    ensures |t| == |s|
  {
    s[..at] + part + s[at + |part|..]
  }

  lemma SpliceParts<T>(s: seq<T>, at: nat, part: seq<T>)
    requires at + |part| <= |s|
    ensures forall i :: 0 <= i < |s| ==> Splice(s, at, part)[i] == if at <= i < at + |part| then part[i - at] else s[i]
    ensures Splice(s, at, part)[..at] == s[..at]
    ensures Splice(s, at, part)[at..at + |part|] == part
    ensures Splice(s, at, part)[at + |part|..] == s[at + |part|..]
  {
  }

  lemma SpliceTwice<T>(s: seq<T>, at: nat, part: seq<T>)
    requires at + |part| <= |s|
    ensures Splice(Splice(s, at, part), at, part) == Splice(s, at, part)
  {
  }

  /** Copies bytes into a buffer. */
  method WriteAt(out: array<byte>, at: nat, part: seq<byte>)
    requires at + |part| <= out.Length
    modifies out
    ensures out[..] == Splice(old(out[..]), at, part)
  {
    forall i | 0 <= i < |part| {
      out[at + i] := part[i];
    }
  }

  // ------------------------------------------------------------------- text

  function LowerChar(c: char): char {
    if 'A' <= c <= 'Z' then c + 32 as char else c
  }

  /** Equal text when the case of ASCII letters does not matter. */
  predicate EqIgnoreCase(a: string, b: string) {
    |a| == |b| && forall i :: 0 <= i < |a| ==> LowerChar(a[i]) == LowerChar(b[i])
  }

  // --------------------------------------------------------------- C strings

  /** What a C string holds of these bytes: everything before the first NUL. */
  function CString(s: seq<byte>): (t: seq<byte>)
    ensures |t| <= |s| && t == s[..|t|] && t <= s && (|t| < |s| ==> s[|t|] == 0) && forall i :: 0 <= i < |t| ==>
              t[i] != 0
  {
    if s == [] || s[0] == 0 then [] else [s[0]] + CString(s[1..])
  }

  lemma {:induction false} CStringIs(s: seq<byte>, t: seq<byte>)
    requires t <= s && (|t| < |s| ==> s[|t|] == 0) && forall i :: 0 <= i < |t| ==> t[i] != 0
    ensures CString(s) == t
  {
    if t != [] {
      assert s[0] == t[0];
      CStringIs(s[1..], t[1..]);
      assert t == [t[0]] + t[1..];
    }
  }
}
