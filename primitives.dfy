/** Shared vocabulary of the model: bytes, the exceptions the C# code can raise
    (as an explicit failure result), little-endian field reads, and the C#
    integer operators whose meaning differs from Dafny's. */
module Primitives {

  type byte = x: int | 0 <= x < 256
  type u16 = x: int | 0 <= x < 0x1_0000

  const UInt32Mod: int := 0x1_0000_0000

  /** The exceptions of the .NET runtime and of the source that the model keeps
      apart.  `Diverges` stands for a loop of the source that never ends and
      `Undefined` for an unchecked memory access outside its buffer. */
  datatype Error =
    | EndOfStream
    | IndexOutOfRange
    | ArgumentOutOfRange
    | Argument
    | InvalidData
    | InvalidOperation
    | NotSupported
    | DivideByZero
    | Overflow
    | NullReference
    | Exception(message: string)
    | Diverges
    | Undefined

  datatype Result<T> = Ok(value: T) | Fail(error: Error) {
    predicate IsFailure() { Fail? }
    function PropagateFailure<U>(): Result<U> requires Fail? { Fail(error) }
    function Extract(): T requires Ok? { value }
  }

  datatype Option<T> = None | Some(value: T)

  function Pow2(n: nat): (r: nat)
    ensures r >= 1
  {
    if n == 0 then 1 else 2 * Pow2(n - 1)
  }

  /** Bit `i` of a non-negative integer. */
  function Bit(x: nat, i: nat): (b: nat)
    ensures b < 2
  {
    x / Pow2(i) % 2
  }

  /** Bitwise OR of two non-negative integers. */
  function Or(a: nat, b: nat): (r: nat)
    decreases a + b
  {
    if a == 0 then b
    else if b == 0 then a
    else 2 * Or(a / 2, b / 2) + (if a % 2 == 1 || b % 2 == 1 then 1 else 0)
  }

  /** OR of a multiple of 2^k with a value below 2^k is their sum. */
  lemma {:induction false} OrDisjoint(m: nat, b: nat, k: nat)
    requires b < Pow2(k)
    ensures Or(m * Pow2(k), b) == m * Pow2(k) + b
    decreases k
  {
    var a := m * Pow2(k);
    if a == 0 || b == 0 {
    } else {
      assert k > 0;
      var p := Pow2(k - 1);
      assert a == 2 * (m * p);
      assert a / 2 == m * p && a % 2 == 0;
      OrDisjoint(m, b / 2, k - 1);
    }
  }

  /** Euclidean division has one quotient. */
  lemma Quotient(x: int, d: int, q: int)
    requires 0 < d && q * d <= x < q * d + d
    ensures x / d == q
  {
    var m := x / d - q;
    assert m * d == (x / d) * d - q * d;
    if m > 0 {
      Grows(m, d);
    } else if m < 0 {
      assert (-m) * d == -(m * d);
      Grows(-m, d);
    }
  }

  lemma Grows(m: int, d: int)
    requires 0 < m && 0 < d
    ensures m * d >= d
  {
    assert m * d == (m - 1) * d + d;
    assert (m - 1) * d >= 0;
  }

  /** The low 8 bits of an integer, as C#'s unchecked `(byte)` cast keeps them. */
  function ToByte(x: int): byte { x % 256 }

  /** The low 16 bits, as an unchecked `(ushort)` cast keeps them. */
  function ToU16(x: int): u16 { x % 0x1_0000 }

  /** The unchecked `(uint)` cast. */
  function ToUInt32(x: int): (r: int)
    ensures 0 <= r < UInt32Mod
  {
    x % UInt32Mod
  }

  /** The unchecked `(int)` cast: two's-complement reinterpretation of the
      low 32 bits, which is also C#'s wrap-around for `int` arithmetic. */
  function Int32(v: int): (r: int)
    ensures -0x8000_0000 <= r < 0x8000_0000
    ensures (r - v) % UInt32Mod == 0
  {
    var m := v % UInt32Mod;
    if m < 0x8000_0000 then m else m - UInt32Mod
  }

  /** The unchecked `(short)` cast. */
  function Int16(v: int): (r: int)
    ensures -0x8000 <= r < 0x8000
    ensures (r - v) % 0x1_0000 == 0
  {
    var m := v % 0x1_0000;
    if m < 0x8000 then m else m - 0x1_0000
  }

  /** C#'s `/` on `int`: the quotient is truncated toward zero. */
  function CsDiv(a: int, b: int): (q: int)
    requires b != 0
  {
    var aa := if a < 0 then -a else a;
    var bb := if b < 0 then -b else b;
    if (a < 0) == (b < 0) then aa / bb else -(aa / bb)
  }

  /** C#'s `%` on `int`: the remainder takes the sign of the dividend. */
  function CsRem(a: int, b: int): (r: int)
    requires b != 0
  {
    a - b * CsDiv(a, b)
  }

  /** Little-endian unsigned value of `n` bytes at offset `i`. */
  function LE(s: seq<byte>, i: nat, n: nat): (v: nat)
    requires i + n <= |s|
    ensures v < Pow2(8 * n)
    decreases n
  {
    if n == 0 then 0
    else
      var rest := LE(s, i + 1, n - 1);
      assert Pow2(8 * n) == 256 * Pow2(8 * (n - 1)) by { Pow2Add(8, 8 * (n - 1)); }
      s[i] + 256 * rest
  }

  lemma {:induction false} Pow2Add(a: nat, b: nat)
    ensures Pow2(a + b) == Pow2(a) * Pow2(b)
    decreases a
  {
    if a > 0 {
      Pow2Add(a - 1, b);
    }
  }

  /** The fixed-width little-endian reads, written out byte by byte. */
  function U16At(s: seq<byte>, i: nat): nat
    requires i + 2 <= |s|
  {
    s[i] as int + 0x100 * s[i + 1] as int
  }

  function U32At(s: seq<byte>, i: nat): nat
    requires i + 4 <= |s|
  {
    U16At(s, i) + 0x1_0000 * U16At(s, i + 2)
  }

  function I16At(s: seq<byte>, i: nat): int
    requires i + 2 <= |s|
  {
    var u := U16At(s, i);
    if u < 0x8000 then u else u - 0x1_0000
  }

  function I32At(s: seq<byte>, i: nat): int
    requires i + 4 <= |s|
  {
    var u := U32At(s, i);
    if u < 0x8000_0000 then u else u - UInt32Mod
  }

  /** The fixed-width reads are the general little-endian value... */
  lemma UnsignedReads(s: seq<byte>, i: nat)
    requires i + 4 <= |s|
    ensures U16At(s, i) == LE(s, i, 2) && U32At(s, i) == LE(s, i, 4)
  {
    assert LE(s, i + 2, 2) == U16At(s, i + 2);
  }

  /** ... and the signed ones its two's-complement reinterpretation. */
  lemma SignedReads(s: seq<byte>, i: nat)
    requires i + 4 <= |s|
    ensures I16At(s, i) == Int16(U16At(s, i)) && I32At(s, i) == Int32(U32At(s, i))
  {
    var u := U16At(s, i);
    assert u % 0x1_0000 == u;
    var w := U32At(s, i);
    assert w % UInt32Mod == w;
  }

  /** Input bytes left from `p` on, the termination measure of the decoders'
      loops. */
  function Remaining(data: seq<byte>, p: nat): nat
  {
    if p <= |data| then |data| - p else 0
  }

  /** Byte `i` of `s`, or 0 past its end (a partially filled read buffer). */
  function ByteOr0(s: seq<byte>, i: nat): byte { if i < |s| then s[i] else 0 }

  /** `int.ToString()` of a non-negative value: its decimal digits as
      UTF-16 code units, most significant first, without leading zeros. */
  function Decimal(n: nat): (s: seq<int>)
    ensures 1 <= |s|
    ensures forall k :: 0 <= k < |s| ==> '0' as int <= s[k] <= '9' as int
    ensures s[0] == '0' as int ==> n == 0
    decreases n
  {
    if n < 10 then ['0' as int + n] else Decimal(n / 10) + ['0' as int + n % 10]
  }

  /** The number a string of decimal digits spells. */
  function DecimalValue(s: seq<int>): int
  {
    if s == [] then 0 else DecimalValue(s[..|s| - 1]) * 10 + (s[|s| - 1] - '0' as int)
  }

  /** The digits spell the number back. */
  lemma {:induction false} DecimalRoundTrip(n: nat)
    ensures DecimalValue(Decimal(n)) == n
    decreases n
  {
    if n >= 10 {
      DecimalRoundTrip(n / 10);
      var s := Decimal(n);
      assert s[..|s| - 1] == Decimal(n / 10);
    }
  }

  /** A read of several values with `acc` read in front of them. */
  function Prepend<T>(acc: seq<T>, r: Result<(seq<T>, nat)>): Result<(seq<T>, nat)>
  {
    match r
    case Fail(e) => Fail(e)
    case Ok((xs, q)) => Ok((acc + xs, q))
  }

  lemma PrependEmpty<T>(r: Result<(seq<T>, nat)>)
    ensures Prepend([], r) == r
  {
    match r {
      case Fail(e) =>
      case Ok((xs, q)) =>
        assert [] + xs == xs;
    }
  }

  lemma PrependAppend<T>(acc: seq<T>, x: T, r: Result<(seq<T>, nat)>)
    ensures Prepend(acc, Prepend([x], r)) == Prepend(acc + [x], r)
  {
    match r {
      case Fail(e) =>
      case Ok((xs, q)) =>
        assert acc + ([x] + xs) == (acc + [x]) + xs;
    }
  }

  /** `count` successive reads by `step`, each starting where the previous one
      ended; the first failure ends the whole read. */
  function Repeat<T>(step: nat -> Result<(T, nat)>, p: nat, count: nat): (r: Result<(seq<T>, nat)>)
    ensures r.Ok? ==> |r.value.0| == count
    decreases count, 1
  {
    if count == 0 then Ok(([], p)) else RepeatAfter(step, step(p), count)
  }

  /** The rest of `Repeat` once its first read gave `head`. */
  function RepeatAfter<T>(step: nat -> Result<(T, nat)>, head: Result<(T, nat)>, count: nat): (r: Result<(seq<T>, nat)>)
    requires count > 0
    ensures r.Ok? ==> |r.value.0| == count
    decreases count, 0
  {
    if head.Fail? then Fail(head.error)
    else Prepend([head.value.0], Repeat(step, head.value.1, count - 1))
  }

  /** A successful read by `step` moves the value read to the ones read so far
      (`acc`); the rest is read from where it ended. */
  lemma RepeatOk<T>(step: nat -> Result<(T, nat)>, p: nat, count: nat, acc: seq<T>, x: T, q: nat)
    requires count > 0 && step(p) == Ok((x, q))
    ensures Prepend(acc, Repeat(step, p, count)) == Prepend(acc + [x], Repeat(step, q, count - 1))
  {
    PrependAppend(acc, x, Repeat(step, q, count - 1));
  }

  /** A failing read by `step` fails the whole repetition. */
  lemma RepeatFail<T>(step: nat -> Result<(T, nat)>, p: nat, count: nat, acc: seq<T>, e: Error)
    requires count > 0 && step(p) == Fail(e)
    ensures Prepend(acc, Repeat(step, p, count)) == Fail(e)
  {
  }
}
