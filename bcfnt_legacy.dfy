/** The BCFNT reader at the root of the repository (BCFNT.cs).  Its headers,
    CWDH chain and CMAP chain are read exactly as in Cetera/Font/BCFNT.cs
    (module Bcfnt); its glyph sheet is not decoded as a texture but painted by
    its own loop, pixel by pixel, straight into the bitmap's 32-bit buffer.
    Only the A8, LA4 and A4 sheet formats are understood. */
module BcfntLegacy {
  import opened Primitives
  import opened Etc1
  import opened BinaryReaderX
  import IC = ImageCommon
  import IL = ImageLoad
  import ICL = ImageCommonLegacy
  import B = Bcfnt

  /** The `sheet_image_format` values the loop paints. */
  const A8Format: int := 8
  const LA4Format: int := 9
  const A4Format: int := 11

  predicate Supported(format: int)
  {
    format == A8Format || format == LA4Format || format == A4Format
  }

  // ---------------------------------------------------------------------
  // One pixel

  /** The colour of pixel `i`: `A8` takes byte `i` as alpha, `A4` the
      nibble `i` (low nibble first, `>> (i % 2 * 4)`) times 17 as alpha,
      `LA4` the low nibble of byte `i` times 17 as alpha and the high one
      times 17 as grey.  Alpha-only pixels are black (`a << 24`).  A byte
      past the sheet throws, and any other format throws
      `NotSupportedException`. */
  function PixelColor(bytes: seq<byte>, format: int, i: nat): (r: Result<Color>)
    ensures r.Ok? <==> Supported(format) && i / (if format == A4Format then 2 else 1) < |bytes|
    ensures Supported(format) && r.Fail? ==> r.error == IndexOutOfRange
    ensures !Supported(format) ==> r == Fail(NotSupported)
  {
    if format == A8Format then
      if i < |bytes| then Ok(Color(bytes[i], 0, 0, 0)) else Fail(IndexOutOfRange)
    else if format == A4Format then
      if i / 2 < |bytes| then Ok(Color(bytes[i / 2] / Pow2(i % 2 * 4) % 16 * 17, 0, 0, 0))
      else Fail(IndexOutOfRange)
    else if format == LA4Format then
      if i < |bytes| then
        var l := bytes[i] / 16 * 17;
        Ok(Color(bytes[i] % 16 * 17, l, l, l))
      else Fail(IndexOutOfRange)
    else Fail(NotSupported)
  }

  /** `LA4` pixels are the colours the texture decoder gives `LA44`. */
  lemma LA4IsLA44(bytes: seq<byte>, i: nat)
    requires i < |bytes|
    ensures PixelColor(bytes, LA4Format, i) == Ok(IC.Decoded(IC.LA44, [bytes[i]]))
  {
    var vs := IC.LowFirst([bytes[i]]);
    assert vs[0] == bytes[i] % 16 && vs[1] == bytes[i] / 16;
  }

  /** `A4` pixels carry, as alpha, the nibble the texture decoder's
      `ReadNibble` hands out for colour `i`, widened as the decoder widens
      it; the colour is black where the decoder's is white. */
  lemma A4Nibble(bytes: seq<byte>, i: nat)
    requires i / 2 < |bytes|
    ensures PixelColor(bytes, A4Format, i) == Ok(Color(IC.Expand4(NibbleAt(bytes, 0, i)), 0, 0, 0))
    ensures PixelColor(bytes, A4Format, i).value.a == IC.FromNibbles(IC.A4, [NibbleAt(bytes, 0, i)]).a
  {
    assert Pow2(0) == 1;
    assert Pow2(4) == 16 by {
      assert Pow2(2) == 4;
    }
  }

  /** `A8` pixels carry byte `i` as alpha, as the texture decoder's `A8`
      does; the colour is black where the decoder's is white. */
  lemma A8Alpha(bytes: seq<byte>, i: nat)
    requires i < |bytes|
    ensures PixelColor(bytes, A8Format, i) == Ok(Color(bytes[i], 0, 0, 0))
    ensures PixelColor(bytes, A8Format, i).value.a == IC.Decoded(IC.A8, [bytes[i]]).a
  {
  }

  /** The point of pixel `i`: `x` and `y` as the loop computes them, tile
      `i / 64` along rows of `width / 8` tiles; `width / 8` is zero for a
      width below 8 and the division throws. */
  function PixelPoint(width: int, i: nat): (r: Result<IC.Point>)
    requires width > 0
    ensures r.Fail? <==> width < 8
  {
    if width / 8 == 0 then Fail(DivideByZero) else ICL.LegacyPoint(width, ICL.Default, i)
  }

  /** The loop places pixel `i` where `GetPointSequence` of
      `Cetera.Image.Common` puts point `i` without a swizzle. */
  lemma PixelPointDefault(width: int, i: nat)
    requires width >= 8
    ensures PixelPoint(width, i) == IC.PointAt(width, IC.Default, i)
  {
    ICL.LegacyPointAgrees(width, ICL.Default, i);
  }

  /** One turn of the loop on the buffer `pixels`: the point, the colour,
      then the unchecked write `ptr[width * y + x]`, which is undefined
      outside the buffer. */
  function Paint(pixels: seq<Color>, bytes: seq<byte>, format: int, width: int, i: nat): (r: Result<seq<Color>>)
    requires width > 0
    ensures r.Ok? ==> |r.value| == |pixels|
  {
    var p :- PixelPoint(width, i);
    var c :- PixelColor(bytes, format, i);
    var k := Offset(width, p);
    if 0 <= k < |pixels| then Ok(pixels[k := c]) else Fail(Undefined)
  }

  /** The buffer of a new `width` x `height` bitmap: transparent black. */
  function Fresh(width: nat, height: nat): seq<Color>
  {
    seq(width * height, _ => IL.Blank)
  }

  /** The first `n` turns of a loop whose turn `i` takes the state `s` to
      `step(s, i)`; the first failing turn ends the loop. */
  function Turns<S>(step: (S, nat) -> Result<S>, s: S, n: nat): Result<S>
  {
    if n == 0 then Ok(s)
    else
      var before :- Turns(step, s, n - 1);
      step(before, n - 1)
  }

  /** Once a turn fails, the loop has thrown: later counts fail alike. */
  lemma {:induction false} TurnsStuck<S>(step: (S, nat) -> Result<S>, s: S, m: nat, n: nat)
    requires m <= n && Turns(step, s, m).Fail?
    ensures Turns(step, s, n) == Turns(step, s, m)
    decreases n
  {
    if m < n {
      TurnsStuck(step, s, m, n - 1);
    }
  }

  /** A loop whose turn `i < n` writes `col(i)` at `idx(i)` of a buffer
      the size of `s`, every index inside and no two alike, succeeds and
      leaves `col(j)` at `idx(j)` for each `j < n`. */
  lemma {:induction false} TurnsWrite(step: (seq<Color>, nat) -> Result<seq<Color>>, s: seq<Color>, idx: nat -> int, col: nat -> Color, n: nat)
    requires forall i: nat, t: seq<Color> :: i < n && |t| == |s| ==> step(t, i) == Ok(Write(t, idx(i), col(i)))
    requires forall i: nat :: i < n ==> 0 <= idx(i) < |s|
    requires forall i: nat, i': nat :: i < i' < n ==> idx(i) != idx(i')
    ensures Turns(step, s, n).Ok? && |Turns(step, s, n).value| == |s|
    ensures forall j: nat :: j < n ==> Turns(step, s, n).value[idx(j)] == col(j)
  {
    if n > 0 {
      TurnsWrite(step, s, idx, col, n - 1);
      var before := Turns(step, s, n - 1).value;
      assert Turns(step, s, n) == Ok(Write(before, idx(n - 1), col(n - 1)));
      forall j: nat | j < n - 1
        ensures Write(before, idx(n - 1), col(n - 1))[idx(j)] == col(j)
      {
        assert idx(j) != idx(n - 1);
      }
    }
  }

  /** A turn of the pixel loop; a bitmap of non-positive width is never
      created, so it never gets here. */
  function PaintStep(bytes: seq<byte>, format: int, width: int): (seq<Color>, nat) -> Result<seq<Color>>
  {
    (pixels: seq<Color>, i: nat) => if width > 0 then Paint(pixels, bytes, format, width, i) else Fail(Argument)
  }

  /** The buffer after the first `n` turns, from a new bitmap's. */
  function Painted(bytes: seq<byte>, format: int, width: int, height: int, n: nat): (r: Result<seq<Color>>)
    requires width > 0 && height > 0
  {
    Turns(PaintStep(bytes, format, width), Fresh(width, height), n)
  }

  /** The number of turns, `i < width * height` in 32-bit arithmetic. */
  function Loops(width: int, height: int): (n: nat)
    ensures 0 <= width * height < 0x8000_0000 ==> n == width * height
  {
    var v := Int32(width * height);
    if v < 0 then 0 else v
  }

  // ---------------------------------------------------------------------
  // The whole sheet

  /** The buffer keeps its size, one colour per pixel. */
  lemma {:induction false} PaintedSize(bytes: seq<byte>, format: int, width: int, height: int, n: nat)
    requires width > 0 && height > 0
    ensures Painted(bytes, format, width, height, n).Ok? ==> |Painted(bytes, format, width, height, n).value| == width * height
  {
    if n > 0 {
      PaintedSize(bytes, format, width, height, n - 1);
    }
  }

  /** A width below 8 throws `DivideByZeroException` on the first pixel. */
  lemma {:induction false} PaintedNarrow(bytes: seq<byte>, format: int, width: int, height: int, n: nat)
    requires 0 < width < 8 && height > 0 && n > 0
    ensures Painted(bytes, format, width, height, n) == Fail(DivideByZero)
  {
    if n > 1 {
      PaintedNarrow(bytes, format, width, height, n - 1);
    } else {
      assert PaintStep(bytes, format, width)(Fresh(width, height), 0) == Fail(DivideByZero);
      assert Turns(PaintStep(bytes, format, width), Fresh(width, height), 0) == Ok(Fresh(width, height));
    }
  }

  /** Any format but `A8`, `LA4` and `A4` throws `NotSupportedException` on
      the first pixel. */
  lemma {:induction false} PaintedUnsupported(bytes: seq<byte>, format: int, width: int, height: int, n: nat)
    requires width >= 8 && height > 0 && n > 0 && !Supported(format)
    ensures Painted(bytes, format, width, height, n) == Fail(NotSupported)
  {
    if n > 1 {
      PaintedUnsupported(bytes, format, width, height, n - 1);
    } else {
      assert PaintStep(bytes, format, width)(Fresh(width, height), 0) == Fail(NotSupported);
      assert Turns(PaintStep(bytes, format, width), Fresh(width, height), 0) == Ok(Fresh(width, height));
    }
  }

  /** The sheet bytes `n` pixels of a format read: half a byte each for
      `A4`, a byte each otherwise. */
  function BytesFor(format: int, n: nat): nat
  {
    if format == A4Format then (n + 1) / 2 else n
  }

  /** With enough bytes, pixel `i` of the first `n` has its colour. */
  lemma EnoughBytes(bytes: seq<byte>, format: int, n: nat, i: nat)
    requires Supported(format) && BytesFor(format, n) <= |bytes| && i < n
    ensures PixelColor(bytes, format, i).Ok?
  {
  }

  /** The buffer index `width * y + x` of the point `p`, row `p.y` and
      column `p.x`. */
  function Offset(width: int, p: IC.Point): int
  {
    p.y * width + p.x
  }

  /** The buffer index pixel `i` is written to, for a width of at least 8. */
  function Index(width: int, i: nat): int
    requires width >= 8
  {
    Offset(width, IC.PointAt(width, IC.Default, i).value)
  }

  /** `s` with `c` written at `k`, when `k` is inside. */
  function Write(s: seq<Color>, k: int, c: Color): seq<Color>
  {
    if 0 <= k < |s| then s[k := c] else s
  }

  /** Tile `i / 64` of a pixel `i < 64 * cols * rows` lies in the grid of
      `cols` x `rows` tiles. */
  lemma TileBelow(i: nat, cols: int, rows: int)
    requires cols > 0 && rows > 0 && i < (cols * rows) * 64
    ensures 0 <= i / 64 % cols < cols && 0 <= i / 64 / cols < rows
  {
    IC.QuotientBelow(i, 64, cols * rows);
    IC.QuotientBelow(i / 64, cols, rows);
  }

  /** A sheet whose sides are multiples of 8 holds `width / 8` x `height / 8`
      tiles of 64 pixels. */
  lemma Tiles(width: int, height: int)
    requires width > 0 && width % 8 == 0 && height > 0 && height % 8 == 0
    ensures width == 8 * (width / 8) && height == 8 * (height / 8)
    ensures width * height == (width / 8 * (height / 8)) * 64
  {
    var cols, rows := width / 8, height / 8;
    assert width * height == (8 * cols) * (8 * rows);
  }

  /** For a sheet whose sides are multiples of 8, point `i < width *
      height` lies within the `width` x `height` rectangle. */
  lemma InRectangle(width: int, height: int, i: nat)
    requires width >= 8 && width % 8 == 0 && height > 0 && height % 8 == 0 && i < width * height
    ensures var p := IC.PointAt(width, IC.Default, i).value;
      0 <= p.x < width && 0 <= p.y < height
  {
    var cols, rows := width / 8, height / 8;
    Tiles(width, height);
    TileBelow(i, cols, rows);
    IC.DefaultPoint(width, i);
    IC.InTile(i);
    IC.CornerBound(i / 64 % cols, cols, IC.XIn(i));
    IC.CornerBound(i / 64 / cols, rows, IC.YIn(i));
  }

  /** For a sheet whose sides are multiples of 8, pixel `i < width * height`
      lands inside the buffer. */
  lemma IndexInside(width: int, height: int, i: nat)
    requires width >= 8 && width % 8 == 0 && height > 0 && height % 8 == 0 && i < width * height
    ensures 0 <= Index(width, i) < width * height
  {
    var p := IC.PointAt(width, IC.Default, i).value;
    InRectangle(width, height, i);
    IL.InsideIndex(p.x, p.y, width, height);
  }

  /** Distinct pixels go to distinct buffer indices. */
  lemma IndexUnique(width: int, height: int, i: nat, j: nat)
    requires width >= 8 && width % 8 == 0 && height > 0 && height % 8 == 0
    requires i < width * height && j < width * height && i != j
    ensures Index(width, i) != Index(width, j)
  {
    var p := IC.PointAt(width, IC.Default, i).value;
    var q := IC.PointAt(width, IC.Default, j).value;
    InRectangle(width, height, i);
    InRectangle(width, height, j);
    if Index(width, i) == Index(width, j) {
      var k := Index(width, i);
      IC.DivMod(k, width, p.y, p.x);
      IC.DivMod(k, width, q.y, q.x);
      IC.DefaultInjective(width, i, j);
    }
  }

  /** One turn on a sheet whose sides are multiples of 8 writes pixel `i`'s
      colour at its index and nothing else. */
  lemma PaintOk(pixels: seq<Color>, bytes: seq<byte>, format: int, width: int, height: int, i: nat)
    requires width >= 8 && width % 8 == 0 && height > 0 && height % 8 == 0
    requires |pixels| == width * height && i < width * height
    requires PixelColor(bytes, format, i).Ok?
    ensures 0 <= Index(width, i) < |pixels|
    ensures Paint(pixels, bytes, format, width, i) == Ok(Write(pixels, Index(width, i), PixelColor(bytes, format, i).value))
  {
    PixelPointDefault(width, i);
    IndexInside(width, height, i);
  }

  /** Every turn `i < n` on a sheet whose sides are multiples of 8, with
      bytes enough for them, writes pixel `i`'s colour at its own index
      inside the buffer, no two at the same index: so all `n` turns
      succeed and each pixel `j < n` holds its colour at its index. */
  lemma PaintedWrites(bytes: seq<byte>, format: int, width: int, height: int, n: nat)
    requires width >= 8 && width % 8 == 0 && height > 0 && height % 8 == 0 && n <= width * height
    requires Supported(format) && BytesFor(format, n) <= |bytes|
    ensures Painted(bytes, format, width, height, n).Ok?
    ensures |Painted(bytes, format, width, height, n).value| == width * height
    ensures forall j: nat :: j < n ==>
      0 <= Index(width, j) < width * height && Painted(bytes, format, width, height, n).value[Index(width, j)] == PixelColor(bytes, format, j).value
  {
    var step := PaintStep(bytes, format, width);
    var idx := (i: nat) => Index(width, i);
    var col := (i: nat) => if PixelColor(bytes, format, i).Ok? then PixelColor(bytes, format, i).value else IL.Blank;
    forall i: nat, t: seq<Color> | i < n && |t| == width * height
      ensures step(t, i) == Ok(Write(t, idx(i), col(i)))
    {
      EnoughBytes(bytes, format, n, i);
      PaintOk(t, bytes, format, width, height, i);
    }
    forall i: nat | i < n
      ensures 0 <= idx(i) < width * height
    {
      IndexInside(width, height, i);
    }
    forall i: nat, i': nat | i < i' < n
      ensures idx(i) != idx(i')
    {
      IndexUnique(width, height, i, i');
    }
    TurnsWrite(step, Fresh(width, height), idx, col, n);
    var painted := Painted(bytes, format, width, height, n).value;
    assert painted == Turns(step, Fresh(width, height), n).value;
    forall j: nat | j < n
      ensures 0 <= Index(width, j) < width * height && painted[Index(width, j)] == PixelColor(bytes, format, j).value
    {
      EnoughBytes(bytes, format, n, j);
      assert idx(j) == Index(width, j);
      assert painted[idx(j)] == col(j);
    }
  }

  /** An `A8` or `LA4` sheet whose sides are multiples of 8 and whose bytes
      run out before its pixels throws `IndexOutOfRangeException`. */
  lemma ShortSheet(bytes: seq<byte>, format: int, width: int, height: int, n: nat)
    requires width >= 8 && width % 8 == 0 && height > 0 && height % 8 == 0 && n <= width * height
    requires (format == A8Format || format == LA4Format) && |bytes| < n
    ensures Painted(bytes, format, width, height, n) == Fail(IndexOutOfRange)
  {
    var m := |bytes|;
    PaintedWrites(bytes, format, width, height, m);
    PixelPointDefault(width, m);
    TurnsStuck(PaintStep(bytes, format, width), Fresh(width, height), m + 1, n);
  }

  // ---------------------------------------------------------------------
  // The file

  /** The sheet: `sheet_size * num_sheets` bytes (at most what is left) at
      `sheet_data_offset`, then a `sheet_width` x `sheet_height *
      num_sheets` bitmap (a non-positive side throws), painted by the
      loop. */
  function SheetOf(data: seq<byte>, t: B.Tglp): (r: Result<seq<Color>>)
  {
    if t.sheetDataOffset < 0 then Fail(ArgumentOutOfRange)
    else
      var count := Int32(t.sheetSize * t.numSheets);
      if count < 0 then Fail(ArgumentOutOfRange)
      else
        var bytes := Take(data, t.sheetDataOffset, count);
        var width := t.sheetWidth;
        var height := t.sheetHeight * t.numSheets;
        if width <= 0 || height <= 0 then Fail(Argument)
        else Painted(bytes, t.sheetFormat, width, height, Loops(width, height))
  }

  /** `new BCFNT(input)`: the headers, the painted sheet, then the CWDH and
      CMAP chains as `Cetera.Font.BCFNT` reads them, each followed for at
      most `fuel` blocks. */
  function Parse(data: seq<byte>, fuel: nat): (r: Result<B.Font>)
    ensures B.Headers(data).Fail? ==> r == Fail(B.Headers(data).error)
  {
    var headers :- B.Headers(data);
    var bitmap :- SheetOf(data, headers.1);
    var widths :- B.Widths(data, headers.0.cwdhOffset, fuel);
    var cmap :- B.Cmaps(data, headers.0.cmapOffset, map[], fuel);
    Ok(B.Font(headers.0, headers.1, bitmap, widths, cmap))
  }

  /** `new BCFNT(input)`. */
  method Open(data: seq<byte>, fuel: nat) returns (r: Result<B.Font>)
    ensures r == Parse(data, fuel)
  {
    var br := new BinaryReaderX.Reader(data);
    var headers :- B.ReadHeaders(br);
    var bitmap :- ReadSheet(br, headers.1);
    var widths :- B.ReadWidths(br, headers.0.cwdhOffset, fuel);
    var cmap :- B.ReadCmaps(br, headers.0.cmapOffset, fuel);
    return Ok(B.Font(headers.0, headers.1, bitmap, widths, cmap));
  }

  /** The sheet, read and painted into a new bitmap. */
  method ReadSheet(br: BinaryReaderX.Reader, t: B.Tglp) returns (r: Result<seq<Color>>)
    requires br.Valid()
    modifies br`pos
    ensures br.Valid()
    ensures r == SheetOf(br.data, t)
  {
    var seek :- br.Seek(t.sheetDataOffset);
    var width := t.sheetWidth;
    var height := t.sheetHeight * t.numSheets;
    var bytes :- br.ReadBytes(Int32(t.sheetSize * t.numSheets));
    if width <= 0 || height <= 0 {
      return Fail(Argument);
    }
    var pixels := new Color[width * height](_ => IL.Blank);
    r := PaintSheet(pixels, bytes, t.sheetFormat, width, height, Loops(width, height));
  }

  /** The pixel loop over a new bitmap's buffer. */
  method PaintSheet(pixels: array<Color>, bytes: seq<byte>, format: int, width: int, height: int, n: nat)
    returns (r: Result<seq<Color>>)
    requires width > 0 && height > 0 && pixels.Length == width * height
    requires forall k :: 0 <= k < pixels.Length ==> pixels[k] == IL.Blank
    modifies pixels
    ensures r == Painted(bytes, format, width, height, n)
  {
    assert pixels[..] == Fresh(width, height);
    var i := 0;
    while i < n
      invariant 0 <= i <= n
      invariant Painted(bytes, format, width, height, i) == Ok(pixels[..])
    {
      var turn := PaintPixel(pixels, bytes, format, width, i);
      if turn.Fail? {
        TurnsStuck(PaintStep(bytes, format, width), Fresh(width, height), i + 1, n);
        return Fail(turn.error);
      }
      i := i + 1;
    }
    return Ok(pixels[..]);
  }

  /** One turn: `x`, `y`, the colour by format, and the write
      `ptr[width * y + x]`. */
  method PaintPixel(pixels: array<Color>, bytes: seq<byte>, format: int, width: int, i: nat) returns (r: Result<()>)
    requires width > 0
    modifies pixels
    ensures r.Ok? ==> Paint(old(pixels[..]), bytes, format, width, i) == Ok(pixels[..])
    ensures r.Fail? ==> Paint(old(pixels[..]), bytes, format, width, i) == Fail(r.error)
  {
    if width / 8 == 0 {
      return Fail(DivideByZero);
    }
    var p := ICL.LegacyPoint(width, ICL.Default, i).value;
    var c :- PixelColor(bytes, format, i);
    var k := width * p.y + p.x;
    assert k == Offset(width, p) by {
      assert width * p.y == p.y * width;
    }
    if k < 0 || k >= pixels.Length {
      return Fail(Undefined);
    }
    pixels[k] := c;
    return Ok(());
  }
}
