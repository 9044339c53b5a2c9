/** `Cetera.Image.Common`: the texture decoder that turns raw pixel data of
    one of the 3DS formats into colours, the Morton-tiled sequence of points
    those colours go to under four orientations, and `Load`, which places
    the colours into a `width` x `height` pixel buffer. */
module ImageCommon {
  import opened Primitives
  import opened Etc1
  import opened BinaryReaderX

  // ---------------------------------------------------------------------
  // Stride

  /** A swizzle value that has no name in the `Swizzle` enum. */
  type OtherSwizzle = v: byte | v != 0 && v != 1 && v != 4 && v != 8 witness 2

  /** `Swizzle`: the named orientations and any other `byte` value. */
  datatype Swizzle = Default | TransposeTile | Rotate90 | Transpose | Unnamed(other: OtherSwizzle)
  {
    /** `(int)swizzle`. */
    function Value(): (v: byte)
    {
      match this
      case Default => 0
      case TransposeTile => 1
      case Rotate90 => 4
      case Transpose => 8
      case Unnamed(v) => v
    }
  }

  /** A power of two. */
  predicate IsPow2(p: nat)
  {
    p == 1 || (p > 1 && p % 2 == 0 && IsPow2(p / 2))
  }

  /** Doubling `p` until it reaches `n`. */
  function Doubled(n: int, p: nat): (q: nat)
    requires p >= 1
    decreases n - p
  {
    if p >= n then p else Doubled(n, 2 * p)
  }

  /** `NextPowerOf2`, `2 << (int)Math.Log(n - 1, 2)`: the smallest power of
      two at least `n`, counted from 2.  For `n < 2` the logarithm is
      minus infinity or not a number, whose conversion to `int` is
      `int.MinValue`, and the shift count `int.MinValue & 31` is 0. */
  function NextPowerOf2(n: int): (p: nat)
  {
    Doubled(n, 2)
  }

  /** Doubling keeps a power of two, reaches `n`, and stops at the first
      power that does. */
  lemma {:induction false} DoubledLeast(n: int, p: nat)
    requires p >= 1 && IsPow2(p) && (p <= 2 || p / 2 < n)
    ensures var q := Doubled(n, p); IsPow2(q) && q >= n && q >= p && (q == p || q / 2 < n)
    decreases n - p
  {
    if p < n {
      assert (2 * p) / 2 == p;
      DoubledLeast(n, 2 * p);
    }
  }

  /** `NextPowerOf2(n)` is a power of two, at least `n`, and the least such
      power from 2 upwards (half of it is below `n` unless it is 2). */
  lemma NextPowerOf2Least(n: int)
    ensures var p := NextPowerOf2(n); IsPow2(p) && p >= 2 && p >= n && (p == 2 || p / 2 < n)
  {
    assert IsPow2(1);
    DoubledLeast(n, 2);
  }

  /** The stride of `GetPointSequence`: the width when the swizzle value is
      below 4 and the height otherwise, rounded up to a power of two when
      padding, and at least 8. */
  function Stride(width: int, height: int, swizzle: Swizzle, pad: bool): (stride: int)
    ensures stride >= 8
  {
    var s := if swizzle.Value() < 4 then width else height;
    var s' := if pad then NextPowerOf2(s) else s;
    if s' < 8 then 8 else s'
  }

  /** The stride is the chosen side when that is at least 8 and there is
      no padding; with padding it is a power of two at least that side,
      and the least one when the side exceeds 8. */
  lemma StrideFacts(width: int, height: int, swizzle: Swizzle, pad: bool)
    ensures var side := if swizzle.Value() < 4 then width else height;
      var stride := Stride(width, height, swizzle, pad);
      && stride >= 8
      && (!pad ==> stride == if side < 8 then 8 else side)
      && (pad ==> IsPow2(stride) && stride >= side && (side > 8 ==> stride / 2 < side))
  {
    var side := if swizzle.Value() < 4 then width else height;
    NextPowerOf2Least(side);
    if pad && NextPowerOf2(side) < 8 {
      assert IsPow2(8) by { assert IsPow2(4) by { assert IsPow2(2) by { assert IsPow2(1); } } }
    }
  }

  // ---------------------------------------------------------------------
  // Points

  /** `x & 2^k`. */
  function Masked(x: nat, k: nat): nat
  {
    Bit(x, k) * Pow2(k)
  }

  /** `x_in = (i / 4 & 4) | (i / 2 & 2) | (i & 1)`. */
  function XIn(i: nat): nat
  {
    Or(Or(Masked(i / 4, 2), Masked(i / 2, 1)), Masked(i, 0))
  }

  /** `y_in = (i / 8 & 4) | (i / 4 & 2) | (i / 2 & 1)`. */
  function YIn(i: nat): nat
  {
    Or(Or(Masked(i / 8, 2), Masked(i / 4, 1)), Masked(i / 2, 0))
  }

  /** Three one-bit masks at bits 2, 1 and 0 OR together to their sum. */
  lemma OrThree(a: nat, b: nat, c: nat)
    requires a < 2 && b < 2 && c < 2
    ensures Or(Or(a * Pow2(2), b * Pow2(1)), c * Pow2(0)) == 4 * a + 2 * b + c
  {
    assert Pow2(2) == 4 && Pow2(1) == 2 && Pow2(0) == 1;
    OrDisjoint(a, b * 2, 2);
    assert 4 * a + 2 * b == (2 * a + b) * Pow2(1);
    OrDisjoint(2 * a + b, c, 1);
  }

  /** Halving twice divides by four. */
  lemma HalveTwice(i: nat)
    ensures i / 2 / 2 == i / 4
  {
    Quotient(i, 4, i / 2 / 2);
  }

  /** Dividing by four and by two is dividing by eight. */
  lemma QuarterHalf(i: nat)
    ensures i / 4 / 2 == i / 8
  {
    Quotient(i, 8, i / 4 / 2);
  }

  /** The in-tile offsets are binary digits of `i` (with `h1`..`h5` its
      successive halvings): digits 4, 2 and 0 make `x_in`, digits 5, 3
      and 1 make `y_in`. */
  lemma InTileDigits(i: nat)
    ensures var h1 := i / 2; var h2 := h1 / 2; var h3 := h2 / 2; var h4 := h3 / 2; var h5 := h4 / 2;
      && XIn(i) == 4 * (h4 % 2) + 2 * (h2 % 2) + i % 2
      && YIn(i) == 4 * (h5 % 2) + 2 * (h3 % 2) + h1 % 2
  {
    var h1 := i / 2; var h2 := h1 / 2; var h3 := h2 / 2; var h4 := h3 / 2;
    assert Pow2(2) == 4 && Pow2(1) == 2 && Pow2(0) == 1;
    HalveTwice(i);
    HalveTwice(h2);
    HalveTwice(h3);
    QuarterHalf(i);
    assert Bit(i / 4, 2) == h4 % 2 && Bit(i / 2, 1) == h2 % 2 && Bit(i, 0) == i % 2;
    assert Bit(i / 8, 2) == h3 / 2 / 2 % 2 && Bit(i / 4, 1) == h3 % 2 && Bit(i / 2, 0) == h1 % 2;
    OrThree(Bit(i / 4, 2), Bit(i / 2, 1), Bit(i, 0));
    OrThree(Bit(i / 8, 2), Bit(i / 4, 1), Bit(i / 2, 0));
  }

  /** Adding an even number keeps the parity. */
  lemma EvenShift(a: int, b: int)
    requires a % 2 == 0
    ensures (a + b) % 2 == b % 2
  {
  }

  /** One halving step of `m * q + r` for even `m`. */
  lemma HalfStep(q: nat, m: nat, r: nat)
    requires m % 2 == 0
    ensures (m * q + r) / 2 == (m / 2) * q + r / 2 && (m * q + r) % 2 == r % 2
  {
    assert m * q == 2 * ((m / 2) * q);
    Quotient(m * q + r, 2, (m / 2) * q + r / 2);
    EvenShift(m * q, r);
  }

  /** The six lowest binary digits of `i` are those of `i % 64`. */
  lemma LowDigits(i: nat)
    ensures var k := i % 64;
      var h1 := i / 2; var h2 := h1 / 2; var h3 := h2 / 2; var h4 := h3 / 2; var h5 := h4 / 2;
      var g1 := k / 2; var g2 := g1 / 2; var g3 := g2 / 2; var g4 := g3 / 2; var g5 := g4 / 2;
      && i % 2 == k % 2 && h1 % 2 == g1 % 2 && h2 % 2 == g2 % 2
      && h3 % 2 == g3 % 2 && h4 % 2 == g4 % 2 && h5 % 2 == g5 % 2
  {
    var q := i / 64;
    var k := i % 64;
    assert i == 64 * q + k;
    var g1 := k / 2; var g2 := g1 / 2; var g3 := g2 / 2; var g4 := g3 / 2;
    HalfStep(q, 64, k);
    HalfStep(q, 32, g1);
    HalfStep(q, 16, g2);
    HalfStep(q, 8, g3);
    HalfStep(q, 4, g4);
    HalfStep(q, 2, g4 / 2);
  }

  /** The in-tile offsets lie in 0..7 and depend only on `i % 64`. */
  lemma InTile(i: nat)
    ensures XIn(i) < 8 && YIn(i) < 8
    ensures XIn(i) == XIn(i % 64) && YIn(i) == YIn(i % 64)
  {
    InTileDigits(i);
    InTileDigits(i % 64);
    LowDigits(i);
  }

  /** The index within a tile of the pixel at offset (`x`, `y`): the Morton
      interleaving of their binary digits. */
  function MortonIndex(x: nat, y: nat): (k: nat)
    requires x < 8 && y < 8
    ensures k < 64
  {
    ThreeDigits(x);
    ThreeDigits(y);
    32 * (y / 2 / 2) + 16 * (x / 2 / 2) + 8 * (y / 2 % 2) + 4 * (x / 2 % 2) + 2 * (y % 2) + x % 2
  }

  /** A value below 8 is the sum of its three binary digits. */
  lemma ThreeDigits(x: nat)
    requires x < 8
    ensures x == 4 * (x / 2 / 2) + 2 * (x / 2 % 2) + x % 2 && x / 2 / 2 < 2
  {
  }

  /** An index below 64 is the sum of its six binary digits. */
  lemma SixDigits(k: nat)
    requires k < 64
    ensures var g1 := k / 2; var g2 := g1 / 2; var g3 := g2 / 2; var g4 := g3 / 2; var g5 := g4 / 2;
      k == 32 * (g5 % 2) + 16 * (g4 % 2) + 8 * (g3 % 2) + 4 * (g2 % 2) + 2 * (g1 % 2) + k % 2
  {
  }

  /** The digits of a Morton index are the interleaved digits of `x` and
      `y`. */
  lemma MortonDigits(x: nat, y: nat)
    requires x < 8 && y < 8
    ensures var k := MortonIndex(x, y);
      var g1 := k / 2; var g2 := g1 / 2; var g3 := g2 / 2; var g4 := g3 / 2; var g5 := g4 / 2;
      && 4 * (g4 % 2) + 2 * (g2 % 2) + k % 2 == x
      && 4 * (g5 % 2) + 2 * (g3 % 2) + g1 % 2 == y
  {
    ThreeDigits(x);
    ThreeDigits(y);
    var x2, x1, x0 := x / 2 / 2, x / 2 % 2, x % 2;
    var y2, y1, y0 := y / 2 / 2, y / 2 % 2, y % 2;
    var k := MortonIndex(x, y);
    var g1 := k / 2; var g2 := g1 / 2; var g3 := g2 / 2; var g4 := g3 / 2; var g5 := g4 / 2;
    Interleave(x2, y2, x1, y1, x0, y0);
  }

  /** Halving `2 q + r` for a digit `r`. */
  lemma Peel(q: nat, r: nat)
    requires r < 2
    ensures (2 * q + r) / 2 == q && (2 * q + r) % 2 == r
  {
    Quotient(2 * q + r, 2, q);
  }

  /** Halving the interleaved number `32 y2 + 16 x2 + ... + x0` five times
      reads its digits back. */
  lemma Interleave(x2: nat, y2: nat, x1: nat, y1: nat, x0: nat, y0: nat)
    requires x2 < 2 && y2 < 2 && x1 < 2 && y1 < 2 && x0 < 2 && y0 < 2
    ensures var k := 32 * y2 + 16 * x2 + 8 * y1 + 4 * x1 + 2 * y0 + x0;
      var g1 := k / 2; var g2 := g1 / 2; var g3 := g2 / 2; var g4 := g3 / 2; var g5 := g4 / 2;
      && k % 2 == x0 && g1 % 2 == y0 && g2 % 2 == x1 && g3 % 2 == y1 && g4 % 2 == x2 && g5 % 2 == y2
  {
    var g4 := y2;
    var g3 := 2 * g4 + x2;
    var g2 := 2 * g3 + y1;
    var g1 := 2 * g2 + x1;
    var g0 := 2 * g1 + y0;
    assert 2 * g0 + x0 == 32 * y2 + 16 * x2 + 8 * y1 + 4 * x1 + 2 * y0 + x0;
    Peel(g0, x0);
    Peel(g1, y0);
    Peel(g2, x1);
    Peel(g3, y1);
    Peel(g4, x2);
    Peel(0, y2);
  }

  /** The three digits of `4 a + 2 b + c`. */
  lemma Digits3(a: nat, b: nat, c: nat)
    requires a < 2 && b < 2 && c < 2
    ensures var v := 4 * a + 2 * b + c; v < 8 && v % 2 == c && v / 2 % 2 == b && v / 2 / 2 == a
  {
    Peel(2 * a + b, c);
    Peel(a, b);
  }

  /** Every offset in the 8 x 8 tile is the in-tile offset of the index
      `MortonIndex` gives it. */
  lemma MortonOnto(x: nat, y: nat)
    requires x < 8 && y < 8
    ensures XIn(MortonIndex(x, y)) == x && YIn(MortonIndex(x, y)) == y
  {
    InTileDigits(MortonIndex(x, y));
    MortonDigits(x, y);
  }

  /** The in-tile offsets of the first 64 indices are one-to-one:
      `MortonIndex` gives each index back from its offsets. */
  lemma MortonOneToOne(k: nat)
    requires k < 64
    ensures XIn(k) < 8 && YIn(k) < 8 && MortonIndex(XIn(k), YIn(k)) == k
  {
    InTileDigits(k);
    MortonOfDigits(k);
  }

  /** `MortonIndex` of the digit triples of `k` gives back `k`. */
  lemma MortonOfDigits(k: nat)
    requires k < 64
    ensures var g1 := k / 2; var g2 := g1 / 2; var g3 := g2 / 2; var g4 := g3 / 2; var g5 := g4 / 2;
      var x := 4 * (g4 % 2) + 2 * (g2 % 2) + k % 2;
      var y := 4 * (g5 % 2) + 2 * (g3 % 2) + g1 % 2;
      x < 8 && y < 8 && MortonIndex(x, y) == k
  {
    var g1 := k / 2; var g2 := g1 / 2; var g3 := g2 / 2; var g4 := g3 / 2; var g5 := g4 / 2;
    SixDigits(k);
    Digits3(g4 % 2, g2 % 2, k % 2);
    Digits3(g5 % 2, g3 % 2, g1 % 2);
  }

  /** `Point(x, y)`. */
  datatype Point = Point(x: int, y: int)

  /** The `i`-th point of `GetPointSequence` for a stride: tile `i / 64`
      counted along rows of `stride / 8` tiles, and the Morton offset within
      it, placed as the swizzle says; an unknown swizzle throws. */
  function PointAt(stride: int, swizzle: Swizzle, i: nat): (r: Result<Point>)
    requires stride >= 8
  {
    var tiles := stride / 8;
    var xOut := (i / 64 % tiles) * 8;
    var yOut := (i / 64 / tiles) * 8;
    var xIn := XIn(i);
    var yIn := YIn(i);
    match swizzle
    case Default => Ok(Point(xOut + xIn, yOut + yIn))
    case TransposeTile => Ok(Point(xOut + yIn, yOut + xIn))
    case Rotate90 => Ok(Point(yOut + yIn, stride - 1 - (xOut + xIn)))
    case Transpose => Ok(Point(yOut + yIn, xOut + xIn))
    case Unnamed(_) => Fail(NotSupported)
  }

  /** `GetPointSequence(width, height, swizzle, padToPowerOf2)`, element
      `i`. */
  function PointSequence(width: int, height: int, swizzle: Swizzle, pad: bool, i: nat): (r: Result<Point>)
  {
    PointAt(Stride(width, height, swizzle, pad), swizzle, i)
  }

  /** `Transpose` is the `Default` point with its coordinates swapped. */
  lemma TransposeSwaps(stride: int, i: nat)
    requires stride >= 8
    ensures PointAt(stride, Default, i).Ok?
    ensures var d := PointAt(stride, Default, i).value;
      PointAt(stride, Transpose, i) == Ok(Point(d.y, d.x))
  {
  }

  /** `Rotate90` takes the `Default` point (x, y) to (y, stride - 1 - x). */
  lemma Rotate90Turns(stride: int, i: nat)
    requires stride >= 8
    ensures PointAt(stride, Default, i).Ok?
    ensures var d := PointAt(stride, Default, i).value;
      PointAt(stride, Rotate90, i) == Ok(Point(d.y, stride - 1 - d.x))
  {
  }

  /** `Default` puts index `i` at its in-tile offsets (`x_in`, `y_in`) from
      the corner of tile `i / 64`, tiles counted along rows of `stride / 8`. */
  lemma DefaultPoint(stride: int, i: nat)
    requires stride >= 8
    ensures PointAt(stride, Default, i) == Ok(Point((i / 64 % (stride / 8)) * 8 + XIn(i), (i / 64 / (stride / 8)) * 8 + YIn(i)))
  {
  }

  /** `TransposeTile` puts index `i` into the same tile as `Default`, at the
      in-tile offsets swapped. */
  lemma TransposeTilePoint(stride: int, i: nat)
    requires stride >= 8
    ensures PointAt(stride, TransposeTile, i) == Ok(Point((i / 64 % (stride / 8)) * 8 + YIn(i), (i / 64 / (stride / 8)) * 8 + XIn(i)))
  {
  }

  /** Any swizzle without a name throws `NotSupportedException` as soon as
      a point is asked for. */
  lemma UnknownSwizzleThrows(stride: int, i: nat, other: OtherSwizzle)
    requires stride >= 8
    ensures PointAt(stride, Unnamed(other), i) == Fail(NotSupported)
  {
  }

  /** A `Default` point splits into its tile (multiples of 8) and in-tile
      offset. */
  lemma DefaultSplit(stride: int, i: nat)
    requires stride >= 8
    ensures var d := PointAt(stride, Default, i).value; var t := i / 64; var tiles := stride / 8;
      && d.x / 8 == t % tiles && d.x % 8 == XIn(i)
      && d.y / 8 == t / tiles && d.y % 8 == YIn(i)
  {
    InTile(i);
    var tiles := stride / 8;
    var t := i / 64;
    Quotient((t % tiles) * 8 + XIn(i), 8, t % tiles);
    Quotient((t / tiles) * 8 + YIn(i), 8, t / tiles);
  }

  /** Quotient and remainder determine the dividend. */
  lemma DivModUnique(t: nat, u: nat, d: nat)
    requires d > 0 && t % d == u % d && t / d == u / d
    ensures t == u
  {
    assert t == d * (t / d) + t % d;
    assert u == d * (u / d) + u % d;
  }

  /** The in-tile offsets determine the index within the tile. */
  lemma InTileUnique(i: nat, j: nat)
    requires XIn(i) == XIn(j) && YIn(i) == YIn(j)
    ensures i % 64 == j % 64
  {
    InTile(i);
    InTile(j);
    MortonOneToOne(i % 64);
    MortonOneToOne(j % 64);
  }

  /** Distinct indices give distinct `Default` points, whatever the stride. */
  lemma DefaultInjective(stride: int, i: nat, j: nat)
    requires stride >= 8 && PointAt(stride, Default, i) == PointAt(stride, Default, j)
    ensures i == j
  {
    DefaultSplit(stride, i);
    DefaultSplit(stride, j);
    var tiles := stride / 8;
    InTileUnique(i, j);
    DivModUnique(i / 64, j / 64, tiles);
    DivModUnique(i, j, 64);
  }

  /** A `TransposeTile` point splits into the tile of `Default` and the
      in-tile offsets swapped. */
  lemma TransposeTileSplit(stride: int, i: nat)
    requires stride >= 8
    ensures var d := PointAt(stride, TransposeTile, i).value; var t := i / 64; var tiles := stride / 8;
      && d.x / 8 == t % tiles && d.x % 8 == YIn(i)
      && d.y / 8 == t / tiles && d.y % 8 == XIn(i)
  {
    InTile(i);
    var tiles := stride / 8;
    var t := i / 64;
    Quotient((t % tiles) * 8 + YIn(i), 8, t % tiles);
    Quotient((t / tiles) * 8 + XIn(i), 8, t / tiles);
  }

  /** Distinct indices give distinct points under every named swizzle,
      whatever the stride. */
  lemma PointInjective(stride: int, swizzle: Swizzle, i: nat, j: nat)
    requires stride >= 8 && !swizzle.Unnamed? && PointAt(stride, swizzle, i) == PointAt(stride, swizzle, j)
    ensures i == j
  {
    match swizzle
    case Default =>
      DefaultInjective(stride, i, j);
    case Transpose =>
      TransposeSwaps(stride, i);
      TransposeSwaps(stride, j);
      DefaultInjective(stride, i, j);
    case Rotate90 =>
      Rotate90Turns(stride, i);
      Rotate90Turns(stride, j);
      DefaultInjective(stride, i, j);
    case TransposeTile =>
      TransposeTileSplit(stride, i);
      TransposeTileSplit(stride, j);
      InTileUnique(i, j);
      DivModUnique(i / 64, j / 64, stride / 8);
      DivModUnique(i, j, 64);
  }

  /** A quotient below `n` when the dividend is below `n * d`. */
  lemma QuotientBelow(t: nat, d: int, n: nat)
    requires d > 0 && t < n * d
    ensures 0 <= t / d < n && 0 <= t % d < d
  {
  }

  /** With a stride that is a multiple of 8, the first `stride * stride`
      `Default` points lie in the `stride` x `stride` square. */
  lemma DefaultBounds(stride: int, i: nat)
    requires stride >= 8 && stride % 8 == 0 && i < stride * stride
    ensures var d := PointAt(stride, Default, i).value;
      0 <= d.x < stride && 0 <= d.y < stride
  {
    var tiles := stride / 8;
    var t := i / 64;
    DefaultPoint(stride, i);
    InTile(i);
    SquareTiles(stride);
    QuotientBelow(i, 64, tiles * tiles);
    QuotientBelow(t, tiles, tiles);
    CornerBound(t % tiles, tiles, XIn(i));
    CornerBound(t / tiles, tiles, YIn(i));
  }

  /** A square stride of `8 * tiles` holds `tiles * tiles` tiles of 64. */
  lemma SquareTiles(stride: int)
    requires stride >= 8 && stride % 8 == 0
    ensures stride == 8 * (stride / 8) && stride * stride == (stride / 8) * (stride / 8) * 64
  {
    var n := stride / 8;
    assert stride == 8 * n;
    assert stride * stride == (8 * n) * (8 * n);
  }

  /** A tile corner plus an in-tile offset stays below `8 * n` when the tile
      coordinate is below `n`. */
  lemma CornerBound(a: int, n: nat, offset: nat)
    requires 0 <= a < n && offset < 8
    ensures a * 8 + offset < 8 * n
  {
  }

  /** Row-major numbering of an `n` x `n` grid stays below `n * n`. */
  lemma RowMajorBelow(row: nat, col: nat, n: nat)
    requires row < n && col < n
    ensures RowMajor(row, col, n) < n * n
  {
    assert row * n <= (n - 1) * n;
  }

  /** Quotient and remainder of `q * d + r` for `0 <= r < d`. */
  lemma DivMod(x: int, d: int, q: int, r: int)
    requires 0 <= r < d && x == q * d + r
    ensures x / d == q && x % d == r
  {
    Quotient(x, d, q);
  }

  /** The `Default` point of an index in tile column `tx` and row `ty`. */
  lemma DefaultOfTile(stride: int, i: nat, tx: int, ty: int)
    requires stride >= 8 && i / 64 % (stride / 8) == tx && i / 64 / (stride / 8) == ty
    ensures PointAt(stride, Default, i) == Ok(Point(tx * 8 + XIn(i), ty * 8 + YIn(i)))
  {
    DefaultPoint(stride, i);
  }

  /** An index in one of the first `n * n` tiles is below `n * n * 64`. */
  lemma TileIndexBelow(t: int, k: int, n: int)
    requires 0 <= t < n * n && 0 <= k < 64
    ensures 64 * t + k < n * n * 64
  {
  }

  /** Tile `col` of row `row` in rows of `n` tiles. */
  function RowMajor(row: nat, col: nat, n: nat): nat
  {
    row * n + col
  }

  /** The index whose `Default` point is (`x`, `y`). */
  function DefaultIndex(stride: int, x: nat, y: nat): nat
    requires stride >= 8
  {
    64 * RowMajor(y / 8, x / 8, stride / 8) + MortonIndex(x % 8, y % 8)
  }

  /** With a stride that is a multiple of 8, every point of the
      `stride` x `stride` square is the `Default` point of an index below
      `stride * stride`, the one `DefaultIndex` gives; with
      `DefaultInjective` and `DefaultBounds` this makes `Default` a
      one-to-one map of 0..stride*stride-1 onto the square. */
  lemma DefaultOnto(stride: int, x: nat, y: nat)
    requires stride >= 8 && stride % 8 == 0 && x < stride && y < stride
    ensures var i := DefaultIndex(stride, x, y);
      i < stride * stride && PointAt(stride, Default, i) == Ok(Point(x, y))
  {
    DefaultIndexBelow(stride, x, y);
    DefaultIndexPoint(stride, x, y);
  }

  /** `DefaultIndex` of a point of the square is below `stride * stride`. */
  lemma DefaultIndexBelow(stride: int, x: nat, y: nat)
    requires stride >= 8 && stride % 8 == 0 && x < stride && y < stride
    ensures DefaultIndex(stride, x, y) < stride * stride
  {
    var tiles := stride / 8;
    SquareTiles(stride);
    QuotientBelow(x, 8, tiles);
    QuotientBelow(y, 8, tiles);
    RowMajorBelow(y / 8, x / 8, tiles);
    TileIndexBelow(RowMajor(y / 8, x / 8, tiles), MortonIndex(x % 8, y % 8), tiles);
  }

  /** The `Default` point of `DefaultIndex(stride, x, y)` is (`x`, `y`). */
  lemma DefaultIndexPoint(stride: int, x: nat, y: nat)
    requires stride >= 8 && stride % 8 == 0 && x < stride && y < stride
    ensures PointAt(stride, Default, DefaultIndex(stride, x, y)) == Ok(Point(x, y))
  {
    var tiles := stride / 8;
    assert stride == 8 * tiles;
    QuotientBelow(x, 8, tiles);
    var t := RowMajor(y / 8, x / 8, tiles);
    DivMod(t, tiles, y / 8, x / 8);
    InTileOfIndex(t, x % 8, y % 8, DefaultIndex(stride, x, y));
    DefaultAt(stride, DefaultIndex(stride, x, y), t, x, y);
  }

  /** Index `64 t + MortonIndex(x, y)` lies in tile `t` at offsets (`x`, `y`). */
  lemma InTileOfIndex(t: nat, x: nat, y: nat, i: nat)
    requires x < 8 && y < 8 && i == 64 * t + MortonIndex(x, y)
    ensures i / 64 == t && XIn(i) == x && YIn(i) == y
  {
    var k := MortonIndex(x, y);
    DivMod(i, 64, t, k);
    SameOffsets(i, k);
    MortonOnto(x, y);
  }

  /** Indices with the same remainder mod 64 have the same in-tile offsets. */
  lemma SameOffsets(i: nat, k: nat)
    requires i % 64 == k
    ensures XIn(i) == XIn(k) && YIn(i) == YIn(k)
  {
    InTile(i);
  }

  /** The `Default` point of an index in tile `t`, whose column and row are
      those of (`x`, `y`), at the offsets of (`x`, `y`) is (`x`, `y`). */
  lemma DefaultAt(stride: int, i: nat, t: nat, x: nat, y: nat)
    requires stride >= 8 && i / 64 == t && t % (stride / 8) == x / 8 && t / (stride / 8) == y / 8
    requires XIn(i) == x % 8 && YIn(i) == y % 8
    ensures PointAt(stride, Default, i) == Ok(Point(x, y))
  {
    DefaultPoint(stride, i);
  }

  // ---------------------------------------------------------------------
  // Colours

  /** A format value that has no name in the `Format` enum. */
  type OtherFormat = v: byte | v >= 14 witness 14

  /** `Format`, in enum order, and any other `byte` value. */
  datatype Format =
    | RGBA8888 | RGB888 | RGBA5551 | RGB565 | RGBA4444 | LA88 | HL88 | L8 | A8 | LA44
    | L4 | A4 | ETC1 | ETC1A4 | Undefined(other: OtherFormat)

  /** `RgEtc1.Unpack(bytes, alpha)`: the colours of one ETC1 block. */
  type Unpacker = (seq<byte>, nat) -> seq<Color>

  /** `ulong.MaxValue`, the alpha word of a block without alpha. */
  const Opaque: nat := 0xFFFF_FFFF_FFFF_FFFF

  /** A 5-bit channel widened to 8 bits, `v * 33 / 4`. */
  function Expand5(v: nat): (c: byte)
    requires v < 32
  {
    v * 33 / 4
  }

  /** A 6-bit channel widened to 8 bits, `g * 65 / 16`. */
  function Expand6(g: nat): (c: byte)
    requires g < 64
  {
    g * 65 / 16
  }

  /** A 4-bit channel widened to 8 bits, `n * 17`. */
  function Expand4(n: nat): (c: byte)
    requires n < 16
  {
    n * 17
  }

  /** `RGB565` from the 16-bit word `s`: blue in bits 0-4, green in bits
      5-10, red in bits 11-15. */
  function Rgb565(s: nat): Color
    requires s < 0x1_0000
  {
    Color(255, Expand5(s / 2048), Expand6(s / 32 % 64), Expand5(s % 32))
  }

  /** `RGBA5551` from the 16-bit word `s`: alpha in bit 0, then 5 bits each
      of blue, green and red. */
  function Rgba5551(s: nat): Color
    requires s < 0x1_0000
  {
    Color(s % 2 * 255, Expand5(s / 2048 % 32), Expand5(s / 64 % 32), Expand5(s / 2 % 32))
  }

  /** The bytes one colour of a byte-aligned format takes when no nibble is
      pending; 0 for the 4-bit, ETC1 and unknown formats. */
  function Width(fmt: Format): nat
  {
    match fmt
    case L8 | A8 | LA44 => 1
    case LA88 | HL88 | RGB565 | RGBA5551 | RGBA4444 => 2
    case RGB888 => 3
    case RGBA8888 => 4
    case _ => 0
  }

  /** The `ReadNibble` calls one colour of a nibble format takes. */
  function NibbleCount(fmt: Format): nat
  {
    match fmt
    case L4 | A4 => 1
    case LA44 => 2
    case RGBA4444 => 4
    case _ => 0
  }

  /** The colour of a nibble format from its nibbles in reading order;
      channels the format lacks are 255. */
  function FromNibbles(fmt: Format, vs: seq<int>): Color
    requires NibbleCount(fmt) > 0 && |vs| == NibbleCount(fmt)
    requires forall k :: 0 <= k < |vs| ==> 0 <= vs[k] < 16
  {
    match fmt
    case L4 => Color(255, Expand4(vs[0]), Expand4(vs[0]), Expand4(vs[0]))
    case A4 => Color(Expand4(vs[0]), 255, 255, 255)
    case LA44 => Color(Expand4(vs[0]), Expand4(vs[1]), Expand4(vs[1]), Expand4(vs[1]))
    case RGBA4444 => Color(Expand4(vs[0]), Expand4(vs[3]), Expand4(vs[2]), Expand4(vs[1]))
  }

  /** The nibbles of some bytes, low nibble first. */
  function LowFirst(bs: seq<byte>): (vs: seq<int>)
    ensures |vs| == 2 * |bs|
    ensures forall k :: 0 <= k < |vs| ==> vs[k] == NibbleAt(bs, 0, k) && 0 <= vs[k] < 16
  {
    seq(2 * |bs|, k requires 0 <= k < 2 * |bs| => NibbleAt(bs, 0, k))
  }

  /** The colour a byte-aligned format stores in `bs`, one colour's bytes;
      channels the format lacks are 255. */
  function Decoded(fmt: Format, bs: seq<byte>): Color
    requires Width(fmt) > 0 && |bs| == Width(fmt)
  {
    match fmt
    case L8 => Color(255, bs[0], bs[0], bs[0])
    case A8 => Color(bs[0], 255, 255, 255)
    case LA88 => Color(bs[0], bs[1], bs[1], bs[1])
    case HL88 => Color(255, bs[1], bs[0], 255)
    case RGB565 => Rgb565(U16At(bs, 0))
    case RGBA5551 => Rgba5551(U16At(bs, 0))
    case RGB888 => Color(255, bs[2], bs[1], bs[0])
    case RGBA8888 => Color(bs[0], bs[3], bs[2], bs[1])
    case LA44 | RGBA4444 => FromNibbles(fmt, LowFirst(bs))
  }

  /** The decoder's state between colours: the reader's position and
      pending nibble slot, and the ETC1 colours not yet handed out. */
  datatype Cursor = Cursor(pos: nat, nibbles: int, queue: seq<Color>)

  /** One step of the decoder leaves a valid state within the data and
      makes progress: it moves forward, empties the nibble slot, or takes a
      colour off the queue. */
  predicate Advances(data: seq<byte>, c: Cursor, c': Cursor)
  {
    && c'.pos <= |data| && -1 <= c'.nibbles < 256
    && (|| c'.pos > c.pos
        || (c'.pos == c.pos && c.nibbles != -1 && c'.nibbles == -1)
        || (c'.pos == c.pos && c'.nibbles == c.nibbles && |c'.queue| < |c.queue|))
  }

  /** A colour of a byte-aligned format other than the nibble ones. */
  function ByteColor(fmt: Format, data: seq<byte>, c: Cursor): (r: Result<(Color, Cursor)>)
    requires Width(fmt) > 0 && NibbleCount(fmt) == 0
    requires c.pos < |data| && -1 <= c.nibbles < 256
    ensures r.Ok? ==> Advances(data, c, r.value.1)
    ensures r.Fail? ==> r.error == EndOfStream
  {
    var bs :- ReadFixed(data, c.pos, Width(fmt));
    Ok((Decoded(fmt, bs), c.(pos := c.pos + Width(fmt))))
  }

  /** A colour of a nibble format, read with `ReadNibble`. */
  function NibbleColor(fmt: Format, data: seq<byte>, c: Cursor): (r: Result<(Color, Cursor)>)
    requires NibbleCount(fmt) > 0
    requires c.pos < |data| && -1 <= c.nibbles < 256
    ensures r.Ok? ==> Advances(data, c, r.value.1)
    ensures r.Fail? ==> r.error == EndOfStream
  {
    NibbleRunAdvances(data, c.pos, c.nibbles, NibbleCount(fmt));
    var run :- NibbleRun(data, c.pos, c.nibbles, NibbleCount(fmt));
    Ok((FromNibbles(fmt, run.0), Cursor(run.1, run.2, c.queue)))
  }

  /** A colour of `ETC1` (`a4` false) or `ETC1A4` (`a4` true): the next
      queued colour, or, with an empty queue, the first colour of a block
      unpacked from the alpha word (`ReadUInt64` for `ETC1A4`) and the next
      8 bytes (fewer at the end); the rest of the block is queued.
      `Dequeue` on an empty queue throws. */
  function EtcColor(a4: bool, data: seq<byte>, unpack: Unpacker, c: Cursor): (r: Result<(Color, Cursor)>)
    requires c.pos < |data| && -1 <= c.nibbles < 256
    ensures r.Ok? ==> Advances(data, c, r.value.1)
    ensures r.Fail? ==> r.error == EndOfStream || r.error == InvalidOperation
  {
    if c.queue != [] then Ok((c.queue[0], c.(queue := c.queue[1..])))
    else if a4 && c.pos + 8 > |data| then Fail(EndOfStream)
    else BlockColor(data, unpack, c, if a4 then c.pos + 8 else c.pos, if a4 then LE(data, c.pos, 8) else Opaque)
  }

  /** The first colour of the block unpacked from `alpha` and the (up to 8)
      bytes at `start`; the rest of the block is queued. */
  function BlockColor(data: seq<byte>, unpack: Unpacker, c: Cursor, start: nat, alpha: nat): (r: Result<(Color, Cursor)>)
    requires c.pos <= start <= |data| && -1 <= c.nibbles < 256 && (start == c.pos ==> c.pos < |data|)
    ensures r.Ok? ==> Advances(data, c, r.value.1) && r.value.1.pos > c.pos
    ensures r.Fail? ==> r.error == InvalidOperation
  {
    var bytes := Take(data, start, 8);
    var block := unpack(bytes, alpha);
    if block == [] then Fail(InvalidOperation)
    else Ok((block[0], Cursor(start + |bytes|, c.nibbles, block[1..])))
  }

  /** One turn of the `GetColorsFromTexture` loop, taken while the position
      is not at the end: the colour it yields and the state after it, or
      the exception it throws. */
  function NextColor(fmt: Format, data: seq<byte>, unpack: Unpacker, c: Cursor): (r: Result<(Color, Cursor)>)
    requires c.pos < |data| && -1 <= c.nibbles < 256
    ensures r.Ok? ==> Advances(data, c, r.value.1)
    ensures r.Fail? ==> r.error == EndOfStream || r.error == InvalidOperation || r.error == NotSupported
  {
    match fmt
    case L4 | A4 | LA44 | RGBA4444 => NibbleColor(fmt, data, c)
    case ETC1 => EtcColor(false, data, unpack, c)
    case ETC1A4 => EtcColor(true, data, unpack, c)
    case Undefined(_) => Fail(NotSupported)
    case _ => ByteColor(fmt, data, c)
  }

  /** `GetColorsFromTexture` from a state: the colours it yields until the
      position reaches the end, and the exception that ends it early, if
      any. */
  function Decode(fmt: Format, data: seq<byte>, unpack: Unpacker, c: Cursor): (r: (seq<Color>, Option<Error>))
    requires c.pos <= |data| && -1 <= c.nibbles < 256
    ensures r == ([], None) <==> c.pos == |data|
    ensures r.1.Some? ==> r.1.value == EndOfStream || r.1.value == InvalidOperation || r.1.value == NotSupported
    decreases |data| - c.pos, if c.nibbles == -1 then 0 else 1, |c.queue|
  {
    if c.pos == |data| then ([], None)
    else
      match NextColor(fmt, data, unpack, c)
      case Fail(e) => ([], Some(e))
      case Ok((color, next)) =>
        var rest := Decode(fmt, data, unpack, next);
        ([color] + rest.0, rest.1)
  }

  /** The initial state: position 0, no pending nibble, empty queue. */
  const Start: Cursor := Cursor(0, -1, [])

  // ---------------------------------------------------------------------
  // Channel expansion

  /** `v * 33 / 4` is the bit replication `(v << 3) | (v >> 2)`, which takes
      0 to 0 and 31 to 255. */
  lemma Expand5Replicates(v: nat)
    requires v < 32
    ensures Expand5(v) == Or(v * Pow2(3), v / 4) == 8 * v + v / 4
    ensures v == 0 ==> Expand5(v) == 0
    ensures v == 31 ==> Expand5(v) == 255
  {
    Quotient(v * 33, 4, 8 * v + v / 4);
    OrDisjoint(v, v / 4, 3);
  }

  /** `g * 65 / 16` is the bit replication `(g << 2) | (g >> 4)`, which
      takes 0 to 0 and 63 to 255. */
  lemma Expand6Replicates(g: nat)
    requires g < 64
    ensures Expand6(g) == Or(g * Pow2(2), g / 16) == 4 * g + g / 16
    ensures g == 0 ==> Expand6(g) == 0
    ensures g == 63 ==> Expand6(g) == 255
  {
    Quotient(g * 65, 16, 4 * g + g / 16);
    OrDisjoint(g, g / 16, 2);
  }

  /** `n * 17` is the bit replication `(n << 4) | n`, which takes 0 to 0
      and 15 to 255. */
  lemma Expand4Replicates(n: nat)
    requires n < 16
    ensures Expand4(n) == Or(n * Pow2(4), n) == 16 * n + n
    ensures n == 0 ==> Expand4(n) == 0
    ensures n == 15 ==> Expand4(n) == 255
  {
    assert Pow2(4) == 16;
    OrDisjoint(n, n, 4);
  }

  /** The 16-bit `RGB565` word with red `r`, green `g` and blue `b` decodes
      to those channels widened, fully opaque. */
  lemma Rgb565Fields(r: nat, g: nat, b: nat, s: nat)
    requires r < 32 && g < 64 && b < 32 && s == r * 2048 + g * 32 + b
    ensures s < 0x1_0000 && Rgb565(s) == Color(255, Expand5(r), Expand6(g), Expand5(b))
  {
    DivMod(s, 32, r * 64 + g, b);
    DivMod(s / 32, 64, r, g);
    DivMod(s, 2048, r, g * 32 + b);
  }

  /** The 16-bit `RGBA5551` word with red `r`, green `g`, blue `b` and
      alpha bit `a` decodes to those channels widened, alpha 0 or 255. */
  lemma Rgba5551Fields(r: nat, g: nat, b: nat, a: nat, s: nat)
    requires r < 32 && g < 32 && b < 32 && a < 2 && s == r * 2048 + g * 64 + b * 2 + a
    ensures s < 0x1_0000 && Rgba5551(s) == Color(a * 255, Expand5(r), Expand5(g), Expand5(b))
  {
    DivMod(s, 2, r * 1024 + g * 32 + b, a);
    DivMod(s / 2, 32, r * 32 + g, b);
    DivMod(s, 64, r * 32 + g, b * 2 + a);
    DivMod(s / 64, 32, r, g);
    DivMod(s, 2048, r, g * 64 + b * 2 + a);
    DivMod(r, 32, 0, r);
  }

  // ---------------------------------------------------------------------
  // Decoding byte-aligned formats

  /** From an empty nibble slot, a byte-aligned format decodes the next
      `Width` bytes as one colour, or throws when fewer remain. */
  lemma AlignedStep(fmt: Format, data: seq<byte>, unpack: Unpacker, p: nat, q: seq<Color>)
    requires Width(fmt) > 0 && p < |data|
    ensures NextColor(fmt, data, unpack, Cursor(p, -1, q))
      == if p + Width(fmt) <= |data|
         then Ok((Decoded(fmt, data[p..p + Width(fmt)]), Cursor(p + Width(fmt), -1, q)))
         else Fail(EndOfStream)
  {
    if fmt == LA44 || fmt == RGBA4444 {
      PackedStep(fmt, data, p, q);
    }
  }

  /** `LA44` and `RGBA4444` read their nibbles low first from whole bytes:
      from an empty slot they end with an empty slot after `Width` bytes. */
  lemma PackedStep(fmt: Format, data: seq<byte>, p: nat, q: seq<Color>)
    requires (fmt == LA44 || fmt == RGBA4444) && p < |data|
    ensures NibbleColor(fmt, data, Cursor(p, -1, q))
      == if p + Width(fmt) <= |data|
         then Ok((Decoded(fmt, data[p..p + Width(fmt)]), Cursor(p + Width(fmt), -1, q)))
         else Fail(EndOfStream)
  {
    var w, n := Width(fmt), NibbleCount(fmt);
    if p + w <= |data| {
      NibbleRunFromEmpty(data, p, n);
      var vs := NibbleRun(data, p, -1, n).value.0;
      var bs := data[p..p + w];
      forall k | 0 <= k < n
        ensures vs[k] == LowFirst(bs)[k]
      {
        assert bs[k / 2] == data[p + k / 2];
      }
      assert vs == LowFirst(bs);
    } else {
      assert fmt == RGBA4444 && p + 1 == |data|;
      assert NibbleStep(data, p + 1, -1) == Fail(EndOfStream);
      assert NibbleRun(data, p + 1, -1, 2) == Fail(EndOfStream);
      assert NibbleRun(data, p + 1, data[p], 3) == Fail(EndOfStream);
    }
  }

  /** `colors` are the colours of successive `w`-byte groups from `p`, `w`
      being the width of the format. */
  predicate GroupsFrom(fmt: Format, w: nat, data: seq<byte>, p: nat, colors: seq<Color>)
    requires w > 0 && w == Width(fmt)
    decreases |colors|
  {
    || colors == []
    || (&& p + w <= |data|
        && colors[0] == Decoded(fmt, data[p..p + w])
        && GroupsFrom(fmt, w, data, p + w, colors[1..]))
  }

  /** A byte-aligned format decodes every whole group of `Width` bytes,
      in order, and throws `EndOfStream` on a partial group at the end. */
  lemma {:induction false} AlignedDecode(fmt: Format, data: seq<byte>, unpack: Unpacker, p: nat, q: seq<Color>)
    requires Width(fmt) > 0 && p <= |data|
    ensures |Decode(fmt, data, unpack, Cursor(p, -1, q)).0| == (|data| - p) / Width(fmt)
    ensures GroupsFrom(fmt, Width(fmt), data, p, Decode(fmt, data, unpack, Cursor(p, -1, q)).0)
    ensures Decode(fmt, data, unpack, Cursor(p, -1, q)).1
      == if (|data| - p) % Width(fmt) == 0 then None else Some(EndOfStream)
    decreases |data| - p
  {
    var w, n := Width(fmt), |data| - p;
    if p == |data| {
      DivMod(0, w, 0, 0);
    } else if p + w > |data| {
      AlignedStep(fmt, data, unpack, p, q);
      DivMod(n, w, 0, n);
    } else {
      AlignedStep(fmt, data, unpack, p, q);
      DecodeStep(fmt, data, unpack, Cursor(p, -1, q), Decoded(fmt, data[p..p + w]), Cursor(p + w, -1, q));
      AlignedDecode(fmt, data, unpack, p + w, q);
      CountCons(n, w);
    }
  }

  /** One colour taken off the front of the decoding. */
  lemma DecodeStep(fmt: Format, data: seq<byte>, unpack: Unpacker, c: Cursor, color: Color, next: Cursor)
    requires c.pos < |data| && -1 <= c.nibbles < 256
    requires NextColor(fmt, data, unpack, c) == Ok((color, next))
    ensures next.pos <= |data| && -1 <= next.nibbles < 256
    ensures Decode(fmt, data, unpack, c)
      == ([color] + Decode(fmt, data, unpack, next).0, Decode(fmt, data, unpack, next).1)
  {
  }

  /** Colour `k` of colours that `GroupsFrom` describes is the colour of
      the bytes `p + w k` to `p + w k + w`. */
  lemma {:induction false} GroupOf(fmt: Format, w: nat, data: seq<byte>, p: nat, colors: seq<Color>, k: nat)
    requires w > 0 && w == Width(fmt) && GroupsFrom(fmt, w, data, p, colors) && k < |colors|
    ensures p + w * k + w <= |data| && colors[k] == Decoded(fmt, data[p + w * k..p + w * k + w])
    decreases k
  {
    if k > 0 {
      GroupOf(fmt, w, data, p + w, colors[1..], k - 1);
      NextGroup(p, w, k);
    }
  }

  /** Removing one group of `w` from `n` lowers the quotient by one and
      keeps the remainder. */
  lemma CountCons(n: nat, w: nat)
    requires 0 < w <= n
    ensures n / w == (n - w) / w + 1 && n % w == (n - w) % w
  {
    DivMod(n, w, (n - w) / w + 1, (n - w) % w);
  }

  /** Group `k - 1` from `p + w` is group `k` from `p`. */
  lemma NextGroup(p: nat, w: nat, k: nat)
    requires k > 0
    ensures p + w + w * (k - 1) == p + w * k
  {
  }

  // ---------------------------------------------------------------------
  // Decoding 4-bit formats

  /** `colors` are the colours of successive nibbles of `L4` or `A4`
      starting at byte `p`, at its high nibble when `high`. */
  predicate NibblesFrom(fmt: Format, data: seq<byte>, p: nat, high: bool, colors: seq<Color>)
    requires fmt == L4 || fmt == A4
    decreases |colors|
  {
    || colors == []
    || (&& p < |data|
        && colors[0] == FromNibbles(fmt, [if high then data[p] / 16 else data[p] % 16])
        && NibblesFrom(fmt, data, if high then p + 1 else p, !high, colors[1..]))
  }

  /** Colour `k` of colours that `NibblesFrom` describes is the colour of
      nibble `k` (one more when starting high) of the bytes from `p`, low
      nibble first. */
  lemma {:induction false} NibbleOf(fmt: Format, data: seq<byte>, p: nat, high: bool, colors: seq<Color>, k: nat)
    requires (fmt == L4 || fmt == A4) && NibblesFrom(fmt, data, p, high, colors) && k < |colors|
    ensures var j := if high then k + 1 else k;
      p + j / 2 < |data| && colors[k] == FromNibbles(fmt, [NibbleAt(data, p, j)])
    decreases k
  {
    if k > 0 {
      NibbleOf(fmt, data, if high then p + 1 else p, !high, colors[1..], k - 1);
      if high {
        assert (k + 1) / 2 == 1 + (k - 1) / 2 && (k + 1) % 2 == (k - 1) % 2;
      }
    }
  }

  /** `L4` and `A4` turn `n` bytes into `2 n - 1` colours, one per nibble,
      low nibble first: the end of the stream is checked before the high
      nibble of the last byte, so that nibble is never decoded. */
  lemma {:induction false} NibbleDecode(fmt: Format, data: seq<byte>, unpack: Unpacker, p: nat, q: seq<Color>)
    requires (fmt == L4 || fmt == A4) && p < |data|
    ensures Decode(fmt, data, unpack, Cursor(p, -1, q)).1 == None
    ensures |Decode(fmt, data, unpack, Cursor(p, -1, q)).0| == 2 * (|data| - p) - 1
    ensures NibblesFrom(fmt, data, p, false, Decode(fmt, data, unpack, Cursor(p, -1, q)).0)
    decreases |data| - p
  {
    var low := FromNibbles(fmt, [data[p] % 16]);
    var high := FromNibbles(fmt, [data[p] / 16]);
    assert NibbleRun(data, p + 1, data[p], 0) == Ok(([], p + 1, data[p] as int));
    assert NibbleColor(fmt, data, Cursor(p, -1, q)) == Ok((low, Cursor(p + 1, data[p], q)));
    DecodeStep(fmt, data, unpack, Cursor(p, -1, q), low, Cursor(p + 1, data[p], q));
    if p + 1 < |data| {
      assert NibbleRun(data, p + 1, -1, 0) == Ok(([], p + 1, -1));
      assert NibbleColor(fmt, data, Cursor(p + 1, data[p], q)) == Ok((high, Cursor(p + 1, -1, q)));
      DecodeStep(fmt, data, unpack, Cursor(p + 1, data[p], q), high, Cursor(p + 1, -1, q));
      NibbleDecode(fmt, data, unpack, p + 1, q);
      var rest := Decode(fmt, data, unpack, Cursor(p + 1, -1, q)).0;
      assert ([low] + ([high] + rest))[1..] == [high] + rest;
      assert ([high] + rest)[1..] == rest;
    }
  }

  /** What `L4` and `A4` evidently intend: one colour per nibble of every
      byte from `p`, low nibble first, the high nibble of the last byte
      included. */
  function AllNibbles(fmt: Format, data: seq<byte>, p: nat): (r: seq<Color>)
    requires (fmt == L4 || fmt == A4) && p <= |data|
    decreases |data| - p
  {
    if p == |data| then []
    else [FromNibbles(fmt, [data[p] % 16]), FromNibbles(fmt, [data[p] / 16])] + AllNibbles(fmt, data, p + 1)
  }

  /** `AllNibbles` has two colours per byte, colour `k` that of nibble `k`. */
  lemma {:induction false} AllNibblesAt(fmt: Format, data: seq<byte>, p: nat)
    requires (fmt == L4 || fmt == A4) && p <= |data|
    ensures |AllNibbles(fmt, data, p)| == 2 * (|data| - p)
    ensures forall k :: 0 <= k < |AllNibbles(fmt, data, p)| ==>
      p + k / 2 < |data| && AllNibbles(fmt, data, p)[k] == FromNibbles(fmt, [NibbleAt(data, p, k)])
    decreases |data| - p
  {
    if p < |data| {
      AllNibblesAt(fmt, data, p + 1);
      var all := AllNibbles(fmt, data, p);
      var rest := AllNibbles(fmt, data, p + 1);
      forall k | 0 <= k < |all|
        ensures p + k / 2 < |data| && all[k] == FromNibbles(fmt, [NibbleAt(data, p, k)])
      {
        if k >= 2 {
          assert all[k] == rest[k - 2];
          assert p + 1 + (k - 2) / 2 == p + k / 2 && (k - 2) % 2 == k % 2;
        }
      }
    }
  }

  /** The decoder as written hands out every colour `AllNibbles` intends but
      the last, the high nibble of the last byte. */
  lemma NibbleDecodeDropsLast(fmt: Format, data: seq<byte>, unpack: Unpacker, p: nat, q: seq<Color>)
    requires (fmt == L4 || fmt == A4) && p < |data|
    ensures Decode(fmt, data, unpack, Cursor(p, -1, q)).0 + [FromNibbles(fmt, [data[|data| - 1] / 16])]
      == AllNibbles(fmt, data, p)
  {
    var d := Decode(fmt, data, unpack, Cursor(p, -1, q)).0;
    var all := AllNibbles(fmt, data, p);
    var last := FromNibbles(fmt, [data[|data| - 1] / 16]);
    NibbleDecode(fmt, data, unpack, p, q);
    AllNibblesAt(fmt, data, p);
    forall k | 0 <= k < |all|
      ensures (d + [last])[k] == all[k]
    {
      if k < |d| {
        NibbleOf(fmt, data, p, false, d, k);
      } else {
        assert k == 2 * (|data| - p) - 1;
        assert p + k / 2 == |data| - 1 && k % 2 == 1;
      }
    }
  }

  // ---------------------------------------------------------------------
  // ETC1 framing

  /** The `ETC1` or `ETC1A4` format. */
  function EtcFormat(a4: bool): Format
  {
    if a4 then ETC1A4 else ETC1
  }

  /** The colours handed out block by block from position `p`: each block
      is the alpha word (`ETC1A4` only) and up to 8 colour bytes, unpacked
      whole, except that once the position has reached the end only the
      block's first colour is handed out.  An alpha word cut short throws
      `EndOfStream`, an empty block `InvalidOperation`. */
  function Blocks(a4: bool, data: seq<byte>, unpack: Unpacker, p: nat): (r: (seq<Color>, Option<Error>))
    decreases |data| - p
  {
    if p >= |data| then ([], None)
    else if a4 && p + 8 > |data| then ([], Some(EndOfStream))
    else
      var start := if a4 then p + 8 else p;
      var bytes := Take(data, start, 8);
      var block := unpack(bytes, if a4 then LE(data, p, 8) else Opaque);
      if block == [] then ([], Some(InvalidOperation))
      else if start + |bytes| >= |data| then ([block[0]], None)
      else
        var rest := Blocks(a4, data, unpack, start + |bytes|);
        (block + rest.0, rest.1)
  }

  /** What the ETC1 formats evidently intend: the colours of every block,
      the last block's included; the errors are those of `Blocks`. */
  function BlocksAll(a4: bool, data: seq<byte>, unpack: Unpacker, p: nat): (r: (seq<Color>, Option<Error>))
    decreases |data| - p
  {
    if p >= |data| then ([], None)
    else if a4 && p + 8 > |data| then ([], Some(EndOfStream))
    else
      var start := if a4 then p + 8 else p;
      var bytes := Take(data, start, 8);
      var block := unpack(bytes, if a4 then LE(data, p, 8) else Opaque);
      if block == [] then ([], Some(InvalidOperation))
      else if start + |bytes| >= |data| then (block, None)
      else
        var rest := BlocksAll(a4, data, unpack, start + |bytes|);
        (block + rest.0, rest.1)
  }

  /** `RgEtc1.Unpack` hands out the 16 colours of a 4 x 4 block. */
  ghost predicate Sixteen(unpack: Unpacker)
  {
    forall bytes: seq<byte>, alpha: nat :: |unpack(bytes, alpha)| == 16
  }

  /** With 16 colours per block, `ETC1` data from `p` holds
      `ceil((|data| - p) / 8)` blocks: the intended decoder hands out 16
      colours for each, the decoder as written 15 fewer, since it stops
      after the first colour of the last block. */
  lemma {:induction false} EtcLastBlock(data: seq<byte>, unpack: Unpacker, p: nat)
    requires Sixteen(unpack) && p < |data|
    ensures Blocks(false, data, unpack, p).1 == None && BlocksAll(false, data, unpack, p).1 == None
    ensures |BlocksAll(false, data, unpack, p).0| == 16 * ((|data| - p + 7) / 8)
    ensures |Blocks(false, data, unpack, p).0| == 16 * ((|data| - p + 7) / 8) - 15
    decreases |data| - p
  {
    var bytes := Take(data, p, 8);
    assert |unpack(bytes, Opaque)| == 16;
    if p + 8 < |data| {
      assert |bytes| == 8;
      EtcLastBlock(data, unpack, p + 8);
      assert (|data| - p + 7) / 8 == 1 + (|data| - (p + 8) + 7) / 8;
    } else {
      assert (|data| - p + 7) / 8 == 1;
    }
  }

  /** The decoder as written hands out a prefix of what the intended one
      does, and fails alike. */
  lemma {:induction false} BlocksPrefix(a4: bool, data: seq<byte>, unpack: Unpacker, p: nat)
    ensures Blocks(a4, data, unpack, p).1 == BlocksAll(a4, data, unpack, p).1
    ensures Blocks(a4, data, unpack, p).0 <= BlocksAll(a4, data, unpack, p).0
    decreases |data| - p
  {
    if p < |data| && !(a4 && p + 8 > |data|) {
      var start := if a4 then p + 8 else p;
      var bytes := Take(data, start, 8);
      if start + |bytes| < |data| {
        BlocksPrefix(a4, data, unpack, start + |bytes|);
      }
    }
  }

  /** With colours queued, the ETC1 formats hand them all out before
      reading on, as long as the position is not at the end. */
  lemma {:induction false} Drain(a4: bool, data: seq<byte>, unpack: Unpacker, p: nat, nb: int, q: seq<Color>)
    requires p < |data| && -1 <= nb < 256
    ensures Decode(EtcFormat(a4), data, unpack, Cursor(p, nb, q))
      == (q + Decode(EtcFormat(a4), data, unpack, Cursor(p, nb, [])).0,
          Decode(EtcFormat(a4), data, unpack, Cursor(p, nb, [])).1)
    decreases |q|
  {
    if q == [] {
      assert q + Decode(EtcFormat(a4), data, unpack, Cursor(p, nb, [])).0
        == Decode(EtcFormat(a4), data, unpack, Cursor(p, nb, [])).0;
    } else {
      var fmt := EtcFormat(a4);
      EtcQueued(a4, data, unpack, Cursor(p, nb, q));
      DecodeStep(fmt, data, unpack, Cursor(p, nb, q), q[0], Cursor(p, nb, q[1..]));
      Drain(a4, data, unpack, p, nb, q[1..]);
      var d := Decode(fmt, data, unpack, Cursor(p, nb, [])).0;
      assert [q[0]] + (q[1..] + d) == q + d;
    }
  }

  /** The ETC1 formats decode block by block, as `Blocks` says. */
  lemma {:induction false} EtcDecode(a4: bool, data: seq<byte>, unpack: Unpacker, p: nat, nb: int)
    requires p <= |data| && -1 <= nb < 256
    ensures Decode(EtcFormat(a4), data, unpack, Cursor(p, nb, [])) == Blocks(a4, data, unpack, p)
    decreases |data| - p
  {
    if p < |data| && !(a4 && p + 8 > |data|) {
      var start := if a4 then p + 8 else p;
      var alpha := if a4 then LE(data, p, 8) else Opaque;
      var bytes := Take(data, start, 8);
      var block := unpack(bytes, alpha);
      if block != [] {
        var end := start + |bytes|;
        if end < |data| {
          EtcTurn(a4, data, unpack, p, nb, start, alpha, bytes, block);
          BlocksTurn(a4, data, unpack, p, start, alpha, bytes, block);
          EtcDecode(a4, data, unpack, end, nb);
        } else {
          EtcLast(a4, data, unpack, p, nb, start, alpha, bytes, block);
        }
      } else {
        EtcEmpty(a4, data, unpack, p, nb, start, alpha, bytes);
      }
    } else if p < |data| {
      EtcCut(data, unpack, Cursor(p, nb, []));
    }
  }

  /** A block that is not the last: its colours, then the decoding from the
      block after it. */
  lemma EtcTurn(a4: bool, data: seq<byte>, unpack: Unpacker, p: nat, nb: int, start: nat, alpha: nat, bytes: seq<byte>, block: seq<Color>)
    requires p < |data| && -1 <= nb < 256 && (!a4 || p + 8 <= |data|)
    requires start == (if a4 then p + 8 else p) && alpha == (if a4 then LE(data, p, 8) else Opaque)
    requires bytes == Take(data, start, 8) && block == unpack(bytes, alpha) && block != []
    requires start + |bytes| < |data|
    ensures Decode(EtcFormat(a4), data, unpack, Cursor(p, nb, []))
      == (block + Decode(EtcFormat(a4), data, unpack, Cursor(start + |bytes|, nb, [])).0,
          Decode(EtcFormat(a4), data, unpack, Cursor(start + |bytes|, nb, [])).1)
  {
    var fmt := EtcFormat(a4);
    var end := start + |bytes|;
    var next := Cursor(end, nb, block[1..]);
    EtcBlock(a4, data, unpack, Cursor(p, nb, []), start, alpha);
    DecodeStep(fmt, data, unpack, Cursor(p, nb, []), block[0], next);
    Drain(a4, data, unpack, end, nb, block[1..]);
    var rest := Decode(fmt, data, unpack, Cursor(end, nb, []));
    ConsTail(block, rest.0);
  }

  /** `Blocks` of a block that is not the last. */
  lemma BlocksTurn(a4: bool, data: seq<byte>, unpack: Unpacker, p: nat, start: nat, alpha: nat, bytes: seq<byte>, block: seq<Color>)
    requires p < |data| && (!a4 || p + 8 <= |data|)
    requires start == (if a4 then p + 8 else p) && alpha == (if a4 then LE(data, p, 8) else Opaque)
    requires bytes == Take(data, start, 8) && block == unpack(bytes, alpha) && block != []
    requires start + |bytes| < |data|
    ensures Blocks(a4, data, unpack, p)
      == (block + Blocks(a4, data, unpack, start + |bytes|).0, Blocks(a4, data, unpack, start + |bytes|).1)
  {
  }

  /** The last block: only its first colour is handed out. */
  lemma EtcLast(a4: bool, data: seq<byte>, unpack: Unpacker, p: nat, nb: int, start: nat, alpha: nat, bytes: seq<byte>, block: seq<Color>)
    requires p < |data| && -1 <= nb < 256 && (!a4 || p + 8 <= |data|)
    requires start == (if a4 then p + 8 else p) && alpha == (if a4 then LE(data, p, 8) else Opaque)
    requires bytes == Take(data, start, 8) && block == unpack(bytes, alpha) && block != []
    requires start + |bytes| >= |data|
    ensures Decode(EtcFormat(a4), data, unpack, Cursor(p, nb, [])) == ([block[0]], None)
    ensures Blocks(a4, data, unpack, p) == ([block[0]], None)
  {
    var fmt := EtcFormat(a4);
    var next := Cursor(start + |bytes|, nb, block[1..]);
    EtcBlock(a4, data, unpack, Cursor(p, nb, []), start, alpha);
    DecodeStep(fmt, data, unpack, Cursor(p, nb, []), block[0], next);
    assert Decode(fmt, data, unpack, next) == ([], None);
    assert [block[0]] + [] == [block[0]];
  }

  /** An empty block: `Dequeue` throws. */
  lemma EtcEmpty(a4: bool, data: seq<byte>, unpack: Unpacker, p: nat, nb: int, start: nat, alpha: nat, bytes: seq<byte>)
    requires p < |data| && -1 <= nb < 256 && (!a4 || p + 8 <= |data|)
    requires start == (if a4 then p + 8 else p) && alpha == (if a4 then LE(data, p, 8) else Opaque)
    requires bytes == Take(data, start, 8) && unpack(bytes, alpha) == []
    ensures Decode(EtcFormat(a4), data, unpack, Cursor(p, nb, [])) == ([], Some(InvalidOperation))
    ensures Blocks(a4, data, unpack, p) == ([], Some(InvalidOperation))
  {
    EtcBlock(a4, data, unpack, Cursor(p, nb, []), start, alpha);
  }

  /** Splitting a non-empty sequence into its head and tail. */
  lemma ConsTail<T>(s: seq<T>, d: seq<T>)
    requires s != []
    ensures [s[0]] + (s[1..] + d) == s + d
  {
  }

  /** With colours queued, the next colour is the first of them. */
  lemma EtcQueued(a4: bool, data: seq<byte>, unpack: Unpacker, c: Cursor)
    requires c.pos < |data| && -1 <= c.nibbles < 256 && c.queue != []
    ensures NextColor(EtcFormat(a4), data, unpack, c) == Ok((c.queue[0], c.(queue := c.queue[1..])))
  {
  }

  /** With an empty queue, the next colour is the first of the block read
      from `start` with the alpha word `alpha`. */
  lemma EtcBlock(a4: bool, data: seq<byte>, unpack: Unpacker, c: Cursor, start: nat, alpha: nat)
    requires c.pos < |data| && -1 <= c.nibbles < 256 && c.queue == [] && (!a4 || c.pos + 8 <= |data|)
    requires start == (if a4 then c.pos + 8 else c.pos)
    requires alpha == if a4 then LE(data, c.pos, 8) else Opaque
    ensures NextColor(EtcFormat(a4), data, unpack, c) == BlockColor(data, unpack, c, start, alpha)
  {
    EtcDispatch(a4, data, unpack, c);
  }

  /** `NextColor` of an ETC1 format is `EtcColor`. */
  lemma EtcDispatch(a4: bool, data: seq<byte>, unpack: Unpacker, c: Cursor)
    requires c.pos < |data| && -1 <= c.nibbles < 256
    ensures NextColor(EtcFormat(a4), data, unpack, c) == EtcColor(a4, data, unpack, c)
  {
  }

  /** `ETC1A4` throws when its alpha word is cut short. */
  lemma EtcCut(data: seq<byte>, unpack: Unpacker, c: Cursor)
    requires c.pos < |data| && -1 <= c.nibbles < 256 && c.queue == [] && c.pos + 8 > |data|
    ensures NextColor(ETC1A4, data, unpack, c) == Fail(EndOfStream)
  {
  }

  /** `NextColor` of a nibble format is `NibbleColor`. */
  lemma NibbleDispatch(fmt: Format, data: seq<byte>, unpack: Unpacker, c: Cursor)
    requires c.pos < |data| && -1 <= c.nibbles < 256 && NibbleCount(fmt) > 0
    ensures NextColor(fmt, data, unpack, c) == NibbleColor(fmt, data, c)
  {
  }

  /** `NextColor` of any other format that has a width is `ByteColor`. */
  lemma ByteDispatch(fmt: Format, data: seq<byte>, unpack: Unpacker, c: Cursor)
    requires c.pos < |data| && -1 <= c.nibbles < 256 && Width(fmt) > 0 && NibbleCount(fmt) == 0
    ensures NextColor(fmt, data, unpack, c) == ByteColor(fmt, data, c)
  {
  }
}
