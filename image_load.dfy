/** `Common.Load`: the decoded colours placed, one per point of
    `GetPointSequence`, into a `width` x `height` pixel buffer, row by row.
    The bitmap is an array of colours; the 32-bit `ToArgb` packing is not
    modelled. */
module ImageLoad {
  import opened Primitives
  import opened Etc1
  import opened ImageCommon

  /** A new `Bitmap`'s pixels: transparent black. */
  const Blank: Color := Color(0, 0, 0, 0)

  /** The buffer index of point `p`, row `p.y` and column `p.x`, or -1 when
      the point lies outside the `width` x `height` bitmap. */
  function Target(p: Point, width: int, height: int): int
  {
    if 0 <= p.x < width && 0 <= p.y < height then p.y * width + p.x else -1
  }

  /** The pixel at column `x`, row `y` of a `width` x `height` bitmap lies
      within its buffer. */
  lemma InsideIndex(x: int, y: int, width: int, height: int)
    requires 0 <= x < width && 0 <= y < height
    ensures 0 <= y * width + x < width * height
  {
    assert y * width + x < (y + 1) * width <= height * width;
  }

  /** Two inside points with the same buffer index are the same point. */
  lemma TargetUnique(p: Point, q: Point, width: int, height: int)
    requires Target(p, width, height) >= 0 && Target(p, width, height) == Target(q, width, height)
    ensures p == q
  {
    DivMod(Target(p, width, height), width, p.y, p.x);
    DivMod(Target(p, width, height), width, q.y, q.x);
  }

  /** The buffer indices (`Target`) of the first `n` points of the
      sequence. */
  function Targets(width: int, height: int, swizzle: Swizzle, pad: bool, n: nat): (ts: seq<int>)
    requires n == 0 || !swizzle.Unnamed?
    ensures |ts| == n
  {
    seq(n, i requires 0 <= i < n => Target(PointSequence(width, height, swizzle, pad, i).value, width, height))
  }

  /** Pixel `j` once the first `n` colours are placed at the buffer
      indices `ts`: the colour of the last of them placed at `j`, or
      blank. */
  function Shown(colors: seq<Color>, ts: seq<int>, j: int, n: nat): Color
    requires n <= |colors| && n <= |ts|
  {
    if n == 0 then Blank
    else if ts[n - 1] == j then colors[n - 1]
    else Shown(colors, ts, j, n - 1)
  }

  /** `Load(colors, width, height, swizzle, padToPowerOf2)`: a bitmap of
      positive size whose pixel at row y, column x is at `y * width + x`;
      colour k goes to point k of the sequence when that point is inside
      the bitmap and is dropped otherwise, until the colours run out.
      `new Bitmap` throws `ArgumentException` for a non-positive size, and
      an unknown swizzle throws as soon as a colour needs a point. */
  method Load(colors: seq<Color>, width: int, height: int, swizzle: Swizzle, pad: bool) returns (r: Result<array<Color>>)
    ensures width <= 0 || height <= 0 ==> r == Fail(Argument)
    ensures width > 0 && height > 0 && swizzle.Unnamed? && colors != [] ==> r == Fail(NotSupported)
    ensures r.Ok? <==> width > 0 && height > 0 && (!swizzle.Unnamed? || colors == [])
    ensures r.Ok? ==> fresh(r.value) && r.value.Length == width * height
    ensures r.Ok? ==> forall j :: 0 <= j < r.value.Length ==>
      r.value[j] == Shown(colors, Targets(width, height, swizzle, pad, |colors|), j, |colors|)
  {
    if width <= 0 || height <= 0 {
      return Fail(Argument);
    }
    if swizzle.Unnamed? && colors != [] {
      UnknownSwizzleThrows(Stride(width, height, swizzle, pad), 0, swizzle.other);
    }
    ghost var ts := Targets(width, height, swizzle, pad, if swizzle.Unnamed? then 0 else |colors|);
    var pixels := new Color[width * height](_ => Blank);
    var k := 0;
    while k < |colors|
      invariant 0 <= k <= |colors| && (k == 0 || !swizzle.Unnamed?)
      invariant forall j :: 0 <= j < pixels.Length ==> pixels[j] == Shown(colors, ts, j, k)
    {
      var point := PointSequence(width, height, swizzle, pad, k);
      if point.Fail? {
        return Fail(point.error);
      }
      TargetsAt(width, height, swizzle, pad, |ts|, k, point.value);
      Place(pixels, colors, ts, k, point.value, width, height);
      k := k + 1;
    }
    return Ok(pixels);
  }

  /** The body of the `Load` loop: colour k is written at its point when
      that point lies inside the bitmap. */
  method Place(pixels: array<Color>, colors: seq<Color>, ghost ts: seq<int>, k: nat, p: Point, width: int, height: int)
    requires k < |colors| && k < |ts| && ts[k] == Target(p, width, height) && pixels.Length == width * height
    requires forall j :: 0 <= j < pixels.Length ==> pixels[j] == Shown(colors, ts, j, k)
    modifies pixels
    ensures forall j :: 0 <= j < pixels.Length ==> pixels[j] == Shown(colors, ts, j, k + 1)
  {
    ShownNext(colors, ts, k + 1);
    var x, y := p.x, p.y;
    if 0 <= x < width && 0 <= y < height {
      InsideIndex(x, y, width, height);
      pixels[y * width + x] := colors[k];
    }
  }

  /** Entry k of `Targets` is the index of point k. */
  lemma TargetsAt(width: int, height: int, swizzle: Swizzle, pad: bool, n: nat, k: nat, p: Point)
    requires k < n && PointSequence(width, height, swizzle, pad, k) == Ok(p)
    ensures !swizzle.Unnamed?
    ensures Targets(width, height, swizzle, pad, n)[k] == Target(p, width, height)
  {
  }

  /** Placing colour n - 1 changes only the pixel at `ts[n - 1]`. */
  lemma ShownNext(colors: seq<Color>, ts: seq<int>, n: nat)
    requires 0 < n <= |colors| && n <= |ts|
    ensures forall j :: Shown(colors, ts, j, n) == (if ts[n - 1] == j then colors[n - 1] else Shown(colors, ts, j, n - 1))
  {
  }

  /** Colour k, placed at index `ts[k]`, shows there unless a later colour
      is placed at the same index. */
  lemma {:induction false} ShownLast(colors: seq<Color>, ts: seq<int>, k: nat, n: nat)
    requires k < n <= |colors| && n <= |ts|
    requires forall i :: k < i < n ==> ts[i] != ts[k]
    ensures Shown(colors, ts, ts[k], n) == colors[k]
    decreases n
  {
    if n - 1 != k {
      ShownLast(colors, ts, k, n - 1);
    }
  }

  /** An index at which none of the first `n` colours is placed stays
      blank. */
  lemma {:induction false} ShownBlank(colors: seq<Color>, ts: seq<int>, j: int, n: nat)
    requires n <= |colors| && n <= |ts|
    requires forall i :: 0 <= i < n ==> ts[i] != j
    ensures Shown(colors, ts, j, n) == Blank
    decreases n
  {
    if n > 0 {
      ShownBlank(colors, ts, j, n - 1);
    }
  }

  /** Under a named swizzle no two points share a buffer index: distinct
      indices have distinct points. */
  lemma TargetsDistinct(width: int, height: int, swizzle: Swizzle, pad: bool, n: nat, k: nat, i: nat)
    requires !swizzle.Unnamed? && k < n && i < n && k != i
    requires Targets(width, height, swizzle, pad, n)[k] >= 0
    ensures Targets(width, height, swizzle, pad, n)[i] != Targets(width, height, swizzle, pad, n)[k]
  {
    var pk := PointSequence(width, height, swizzle, pad, k).value;
    var pi := PointSequence(width, height, swizzle, pad, i).value;
    if Target(pi, width, height) == Target(pk, width, height) {
      TargetUnique(pk, pi, width, height);
      PointInjective(Stride(width, height, swizzle, pad), swizzle, k, i);
    }
  }

  /** Under a named swizzle, `Load` shows colour k at the pixel of its
      point `p` whenever that point is inside the bitmap. */
  lemma LoadShows(colors: seq<Color>, width: int, height: int, swizzle: Swizzle, pad: bool, k: nat, p: Point)
    requires k < |colors| && PointSequence(width, height, swizzle, pad, k) == Ok(p)
    requires Target(p, width, height) >= 0
    ensures !swizzle.Unnamed?
    ensures Shown(colors, Targets(width, height, swizzle, pad, |colors|), Target(p, width, height), |colors|) == colors[k]
  {
    var ts := Targets(width, height, swizzle, pad, |colors|);
    TargetsAt(width, height, swizzle, pad, |colors|, k, p);
    forall i | k < i < |colors|
      ensures ts[i] != ts[k]
    {
      TargetsDistinct(width, height, swizzle, pad, |colors|, k, i);
    }
    ShownLast(colors, ts, k, |colors|);
  }

  /** In a square bitmap whose side is a multiple of 8, loaded without
      padding under `Default`, every pixel (x, y) is the point of an index
      below side * side, `DefaultIndex(side, x, y)`: with `LoadShows`, every
      pixel is written once side * side colours are given. */
  lemma SquarePoint(side: int, x: nat, y: nat)
    requires side >= 8 && side % 8 == 0 && x < side && y < side
    ensures DefaultIndex(side, x, y) < side * side
    ensures PointSequence(side, side, Default, false, DefaultIndex(side, x, y)) == Ok(Point(x, y))
  {
    DefaultOnto(side, x, y);
    assert Stride(side, side, Default, false) == side;
  }
}
