/** BCFNT fonts (Cetera/Font/BCFNT.cs): a CFNT header and a FINF block, the
    TGLP block describing the glyph sheets, the sheets themselves decoded as a
    texture, a chain of CWDH blocks (glyph widths) and a chain of CMAP blocks
    (character to glyph index). */
module Bcfnt {
  import opened Primitives
  import opened Etc1
  import opened BinaryReaderX
  import IC = ImageCommon
  import IL = ImageLoad
  import TR = TextureReader

  /** `Marshal.SizeOf` of the structs the reader overlays (`Pack = 1`). */
  const CfntSize: nat := 20
  const FinfSize: nat := 32
  const TglpSize: nat := 32
  const CwdhSize: nat := 16
  const CmapSize: nat := 20
  const WidthSize: nat := 3

  /** The character looked up when a character has no glyph. */
  const Question: int := 0x3F

  const UnsupportedMapping: Error := Exception("Unsupported mapping method")

  /** `CharWidthInfo`: `sbyte left`, `byte glyph_width`, `byte char_width`. */
  datatype WidthInfo = WidthInfo(left: int, glyphWidth: int, charWidth: int)

  /** The FINF fields the reader uses. */
  datatype Finf = Finf(lineFeed: int, tglpOffset: int, cwdhOffset: int, cmapOffset: int)

  /** The TGLP fields the reader and `Draw` use. */
  datatype Tglp = Tglp(
    cellWidth: int, cellHeight: int, sheetSize: int, numSheets: int,
    sheetFormat: int, numColumns: int, numRows: int,
    sheetWidth: int, sheetHeight: int, sheetDataOffset: int)

  /** The fields of one CMAP block header. */
  datatype Cmap = Cmap(begin: int, end: int, mapping: int, next: int)

  /** What `new BCFNT(input)` leaves in its fields: the two headers, the
      sheet bitmap's pixels in row order, `lstCWDH` and `dicCMAP`. */
  datatype Font = Font(finf: Finf, tglp: Tglp, bitmap: seq<Color>, widths: seq<WidthInfo>, cmap: map<int, int>)

  /** The source rectangle `Draw` copies from the sheet bitmap. */
  datatype Rect = Rect(x: int, y: int, width: int, height: int)

  // ---------------------------------------------------------------------
  // Struct fields

  function SByte(b: byte): (v: int)
    ensures -128 <= v < 128 && (v - b) % 256 == 0
  {
    if b < 128 then b else b - 256
  }

  function FinfOf(h: seq<byte>): Finf
    requires |h| == FinfSize
  {
    Finf(h[9], I32At(h, 16), I32At(h, 20), I32At(h, 24))
  }

  function TglpOf(h: seq<byte>): Tglp
    requires |h| == TglpSize
  {
    Tglp(h[8], h[9], I32At(h, 12), I16At(h, 16), I16At(h, 18),
         I16At(h, 20), I16At(h, 22), I16At(h, 24), I16At(h, 26), I32At(h, 28))
  }

  /** The CMAP header; `code_begin` and `code_end` are UTF-16 `char`s. */
  function CmapOf(h: seq<byte>): Cmap
    requires |h| == CmapSize
  {
    Cmap(U16At(h, 8), U16At(h, 10), I16At(h, 12), I32At(h, 16))
  }

  /** `ReadStruct<CharWidthInfo>()` at `p`. */
  function WidthAt(data: seq<byte>, p: nat): (r: Result<(WidthInfo, nat)>)
    ensures r.Ok? <==> p + WidthSize <= |data|
    ensures r.Ok? ==> r.value.1 == p + WidthSize && 0 <= r.value.0.glyphWidth < 256
    ensures p >= |data| ==> r == Fail(NullReference)
    ensures p < |data| < p + WidthSize ==> r == Fail(Undefined)
  {
    var b :- StructAt(data, p, WidthSize);
    Ok((WidthInfo(SByte(b[0]), b[1], b[2]), p + WidthSize))
  }

  function WidthReader(data: seq<byte>): nat -> Result<(WidthInfo, nat)>
  {
    (p: nat) => WidthAt(data, p)
  }

  // ---------------------------------------------------------------------
  // Lookup and drawing

  /** `GetIndex(c)`: the glyph of `c`, else the glyph of '?', else 0 (the
      value `TryGetValue` leaves in its `out` parameter on a miss). */
  function GetIndex(cmap: map<int, int>, c: int): (r: int)
    ensures c in cmap ==> r == cmap[c]
    ensures c !in cmap && Question in cmap ==> r == cmap[Question]
    ensures c !in cmap && Question !in cmap ==> r == 0
  {
    if c in cmap then cmap[c] else if Question in cmap then cmap[Question] else 0
  }

  /** `GetIndex` only ever answers a glyph index the map holds, or 0. */
  lemma GetIndexMapped(cmap: map<int, int>, c: int)
    ensures GetIndex(cmap, c) == 0 || GetIndex(cmap, c) in cmap.Values
  {
    if c in cmap {
      assert cmap[c] in cmap.Values;
    } else if Question in cmap {
      assert cmap[Question] in cmap.Values;
    }
  }

  /** `GetWidthInfo(c)`: `lstCWDH[GetIndex(c)]`; the list indexer throws
      for an index outside the list. */
  function GetWidthInfo(font: Font, c: int): (r: Result<WidthInfo>)
    ensures r.Ok? <==> 0 <= GetIndex(font.cmap, c) < |font.widths|
    ensures r.Ok? ==> r.value == font.widths[GetIndex(font.cmap, c)]
    ensures r.Fail? ==> r.error == ArgumentOutOfRange
  {
    var index := GetIndex(font.cmap, c);
    if 0 <= index < |font.widths| then Ok(font.widths[index]) else Fail(ArgumentOutOfRange)
  }

  /** Sheet, row and column of glyph `index`: `index / cellsPerSheet`,
      `(index % cellsPerSheet) / num_columns` and `index % num_columns`. */
  function CellOf(index: int, rows: int, cols: int): (int, int, int)
    requires rows * cols != 0
  {
    assert cols != 0;
    (CsDiv(index, rows * cols), CsDiv(CsRem(index, rows * cols), cols), CsRem(index, cols))
  }

  /** The rectangle `Draw(c, …)` copies: the glyph's cell, found from its
      index by sheet, row and column, inside a one-pixel border.  The
      `int` arithmetic wraps; a zero-sized sheet grid divides by zero. */
  function Draw(font: Font, c: int): (r: Result<Rect>)
    ensures r.Ok? <==> GetWidthInfo(font, c).Ok? && font.tglp.numRows * font.tglp.numColumns != 0
    ensures GetWidthInfo(font, c).Fail? ==> r == Fail(GetWidthInfo(font, c).error)
  {
    var index := GetIndex(font.cmap, c);
    var info :- GetWidthInfo(font, c);
    var t := font.tglp;
    if t.numRows * t.numColumns == 0 then Fail(DivideByZero)
    else Ok(CellRect(t, CellOf(index, t.numRows, t.numColumns), info.glyphWidth))
  }

  /** `xOffset`, `yOffset` and the rectangle of `Draw` for a cell given by
      sheet, row and column. */
  function CellRect(t: Tglp, cell: (int, int, int), glyphWidth: int): Rect
  {
    var xOffset := Int32(cell.2 * (t.cellWidth + 1));
    var yOffset := Int32(cell.0 * t.sheetHeight + cell.1 * (t.cellHeight + 1));
    Rect(Int32(xOffset + 1), Int32(yOffset + 1), glyphWidth, t.cellHeight)
  }

  /** Glyph number `(sheet * rows + row) * columns + col` is drawn from
      column `col`, row `row` of sheet `sheet`: cells are `cell_width + 1`
      by `cell_height + 1` pixels, sheets are stacked vertically, and the
      glyph starts one pixel inside its cell. */
  lemma DrawCell(font: Font, c: int, sheet: nat, row: nat, col: nat)
    requires 0 < font.tglp.numRows && 0 < font.tglp.numColumns < 0x8000
    requires row < font.tglp.numRows && col < font.tglp.numColumns
    requires GetIndex(font.cmap, c) == (sheet * font.tglp.numRows + row) * font.tglp.numColumns + col
    requires GetIndex(font.cmap, c) < |font.widths|
    requires 0 <= font.tglp.sheetHeight && 0 <= font.tglp.cellHeight
    requires sheet * font.tglp.sheetHeight + row * (font.tglp.cellHeight + 1) + 1 < 0x8000_0000
    requires 0 <= font.tglp.cellWidth < 256
    ensures Draw(font, c) == Ok(Rect(
      col * (font.tglp.cellWidth + 1) + 1,
      sheet * font.tglp.sheetHeight + row * (font.tglp.cellHeight + 1) + 1,
      font.widths[GetIndex(font.cmap, c)].glyphWidth,
      font.tglp.cellHeight))
  {
    var t := font.tglp;
    var index := GetIndex(font.cmap, c);
    CellDigits(t.numRows, t.numColumns, sheet, row, col);
    assert CellOf(index, t.numRows, t.numColumns) == (sheet, row, col);
    assert GetWidthInfo(font, c) == Ok(font.widths[index]);
    assert Draw(font, c) == Ok(CellRect(t, (sheet, row, col), font.widths[index].glyphWidth));
    CellOffsets(t.cellWidth, col, t.cellHeight, row, t.sheetHeight, sheet);
  }

  /** Sheet, row and column are the digits of the glyph index in the mixed
      radix (sheets, rows, columns), computed with C#'s `/` and `%`. */
  lemma CellDigits(rows: int, cols: int, sheet: nat, row: nat, col: nat)
    requires 0 < rows && 0 < cols && row < rows && col < cols
    ensures rows * cols != 0 && 0 <= (sheet * rows + row) * cols + col
    ensures CellOf((sheet * rows + row) * cols + col, rows, cols) == (sheet, row, col)
  {
    var index := (sheet * rows + row) * cols + col;
    var cps := rows * cols;
    var inSheet := row * cols + col;
    assert 0 <= inSheet < cps by {
      MulLe(row + 1, rows, cols);
    }
    assert index == sheet * cps + inSheet by {
      assert (sheet * rows + row) * cols == sheet * (rows * cols) + row * cols;
    }
    DivRem(index, cps, sheet, inSheet);
    DivRem(inSheet, cols, row, col);
    assert index == (sheet * rows + row) * cols + col;
    DivRem(index, cols, sheet * rows + row, col);
  }

  /** C#'s `/` and `%` on non-negative operands give quotient and remainder. */
  lemma DivRem(a: int, b: int, q: int, r: int)
    requires 0 < b && 0 <= r < b && 0 <= q && a == q * b + r
    ensures CsDiv(a, b) == q && CsRem(a, b) == r
  {
    assert 0 <= q * b;
    Quotient(a, b, q);
  }

  lemma MulLe(a: int, b: int, c: int)
    requires a <= b && 0 <= c
    ensures a * c <= b * c
  {
    assert b * c - a * c == (b - a) * c;
  }

  /** The offsets of a cell stay below 2^31 here, so no `int` arithmetic of
      `Draw` wraps. */
  lemma CellOffsets(cellWidth: int, col: nat, cellHeight: int, row: nat, sheetHeight: int, sheet: nat)
    requires 0 <= cellWidth < 256 && col < 0x8000
    requires 0 <= cellHeight && 0 <= sheetHeight
    requires sheet * sheetHeight + row * (cellHeight + 1) + 1 < 0x8000_0000
    ensures Int32(col * (cellWidth + 1)) == col * (cellWidth + 1)
    ensures Int32(col * (cellWidth + 1) + 1) == col * (cellWidth + 1) + 1
    ensures Int32(sheet * sheetHeight + row * (cellHeight + 1)) == sheet * sheetHeight + row * (cellHeight + 1)
    ensures Int32(sheet * sheetHeight + row * (cellHeight + 1) + 1) == sheet * sheetHeight + row * (cellHeight + 1) + 1
  {
    var x := col * (cellWidth + 1);
    assert 0 <= x <= 0x8000 * 256 by {
      MulLe(cellWidth + 1, 256, col);
      MulLe(col, 0x8000, 256);
    }
    Int32Small(x);
    Int32Small(x + 1);
    var y := sheet * sheetHeight + row * (cellHeight + 1);
    assert 0 <= sheet * sheetHeight && 0 <= row * (cellHeight + 1);
    Int32Small(y);
    Int32Small(y + 1);
  }

  lemma Int32Small(v: int)
    requires 0 <= v < 0x8000_0000
    ensures Int32(v) == v
  {
    assert v % UInt32Mod == v;
  }

  // ---------------------------------------------------------------------
  // The sheet bitmap

  /** `Enum.Parse(typeof(Format), format.ToString())` on the TGLP's `short`:
      the numeric string parses to the enum value of that number, and one
      outside the `byte` range overflows. */
  function FormatOf(v: int): (r: Result<IC.Format>)
    ensures r.Fail? <==> v < 0 || v > 255
    ensures r.Ok? ==> (r.value.Undefined? <==> v >= 14)
  {
    if v < 0 || v > 255 then Fail(Overflow)
    else if v == 0 then Ok(IC.RGBA8888) else if v == 1 then Ok(IC.RGB888)
    else if v == 2 then Ok(IC.RGBA5551) else if v == 3 then Ok(IC.RGB565)
    else if v == 4 then Ok(IC.RGBA4444) else if v == 5 then Ok(IC.LA88)
    else if v == 6 then Ok(IC.HL88) else if v == 7 then Ok(IC.L8)
    else if v == 8 then Ok(IC.A8) else if v == 9 then Ok(IC.LA44)
    else if v == 10 then Ok(IC.L4) else if v == 11 then Ok(IC.A4)
    else if v == 12 then Ok(IC.ETC1) else if v == 13 then Ok(IC.ETC1A4)
    else Ok(IC.Undefined(v))
  }

  /** The pixels of `Load(colors, width, height, Swizzle.Default, true)`. */
  function Bitmap(colors: seq<Color>, width: nat, height: nat): (pixels: seq<Color>)
    ensures |pixels| == width * height
  {
    var ts := IL.Targets(width, height, IC.Default, true, |colors|);
    seq(width * height, j => IL.Shown(colors, ts, j, |colors|))
  }

  /** The sheet bitmap: `new Bitmap` rejects a non-positive size before the
      lazy decoder runs; then every colour of the texture is placed, and an
      exception of the decoder ends the constructor. */
  function Sheet(bytes: seq<byte>, format: int, width: int, height: int, unpack: IC.Unpacker): (r: Result<seq<Color>>)
    ensures width <= 0 || height <= 0 ==> r == Fail(Argument)
    ensures r.Ok? ==> |r.value| == width * height
  {
    if width <= 0 || height <= 0 then Fail(Argument)
    else
      var fmt :- FormatOf(format);
      var decoded := IC.Decode(fmt, bytes, unpack, IC.Start);
      if decoded.1.Some? then Fail(decoded.1.value) else Ok(Bitmap(decoded.0, width, height))
  }

  /** Colour k of the texture lands on point k of the default orientation
      whenever that point lies on the sheet. */
  lemma SheetShows(bytes: seq<byte>, format: int, width: int, height: int, unpack: IC.Unpacker, k: nat, p: IC.Point)
    requires Sheet(bytes, format, width, height, unpack).Ok?
    requires FormatOf(format).Ok?
    requires k < |IC.Decode(FormatOf(format).value, bytes, unpack, IC.Start).0|
    requires IC.PointSequence(width, height, IC.Default, true, k) == Ok(p)
    requires 0 <= p.x < width && 0 <= p.y < height
    ensures 0 <= p.y * width + p.x < width * height
    ensures Sheet(bytes, format, width, height, unpack).value[p.y * width + p.x]
      == IC.Decode(FormatOf(format).value, bytes, unpack, IC.Start).0[k]
  {
    var colors := IC.Decode(FormatOf(format).value, bytes, unpack, IC.Start).0;
    var j := p.y * width + p.x;
    IL.InsideIndex(p.x, p.y, width, height);
    assert IL.Target(p, width, height) == j;
    IL.LoadShows(colors, width, height, IC.Default, true, k, p);
    var bitmap := Bitmap(colors, width, height);
    assert Sheet(bytes, format, width, height, unpack) == Ok(bitmap);
    assert bitmap[j] == IL.Shown(colors, IL.Targets(width, height, IC.Default, true, |colors|), j, |colors|);
  }

  // ---------------------------------------------------------------------
  // Headers

  /** `ReadStruct<CFNT>()`, `ReadStruct<FINF>()`, then `ReadStruct<TGLP>()`
      at `tglp_offset - 8`. */
  function Headers(data: seq<byte>): (r: Result<(Finf, Tglp)>)
    ensures |data| == 0 || |data| == CfntSize ==> r == Fail(NullReference)
    ensures 0 < |data| < CfntSize || CfntSize < |data| < CfntSize + FinfSize ==> r == Fail(Undefined)
  {
    var _ :- StructAt(data, 0, CfntSize);
    var fh :- StructAt(data, CfntSize, FinfSize);
    var finf := FinfOf(fh);
    var at := Int32(finf.tglpOffset - 8);
    if at < 0 then Fail(ArgumentOutOfRange)
    else
      var th :- StructAt(data, at, TglpSize);
      Ok((finf, TglpOf(th)))
  }

  /** The sheet: `sheet_size * num_sheets` bytes (at most what is left) at
      `sheet_data_offset`, `sheet_width` wide and `sheet_height *
      num_sheets` high. */
  function SheetOf(data: seq<byte>, t: Tglp, unpack: IC.Unpacker): (r: Result<seq<Color>>)
  {
    if t.sheetDataOffset < 0 then Fail(ArgumentOutOfRange)
    else
      var count := Int32(t.sheetSize * t.numSheets);
      if count < 0 then Fail(ArgumentOutOfRange)
      else
        Sheet(BinaryReaderX.Take(data, t.sheetDataOffset, count), t.sheetFormat,
              t.sheetWidth, t.sheetHeight * t.numSheets, unpack)
  }

  // ---------------------------------------------------------------------
  // CWDH chain

  /** The number of turns of `for (int i = start; i <= end; i++)`. */
  function Span(start: int, end: int): (n: nat)
    ensures start <= end ==> n == end - start + 1
    ensures end < start ==> n == 0
  {
    if start <= end then end - start + 1 else 0
  }

  /** One CWDH block at `p`: its header, the width entries of indices
      `start_index .. end_index`, and the offset of the next block. */
  function CwdhAt(data: seq<byte>, p: nat): (r: Result<(seq<WidthInfo>, int)>)
  {
    var h :- StructAt(data, p, CwdhSize);
    var infos :- Repeat(WidthReader(data), p + CwdhSize, Span(I16At(h, 8), I16At(h, 10)));
    Ok((infos.0, I32At(h, 12)))
  }

  /** One turn of the CWDH loop: the block read at `offset - 8`, where a
      negative position throws. */
  function CwdhBlock(data: seq<byte>, offset: int): (r: Result<(seq<WidthInfo>, int)>)
  {
    var at := Int32(offset - 8);
    if at < 0 then Fail(ArgumentOutOfRange) else CwdhAt(data, at)
  }

  /** A chain of blocks linked by offsets, as the CWDH and CMAP loops walk
      it: `step` reads the block that a non-zero offset leads to into the
      state and answers the next offset, and a zero offset ends the chain.
      A chain still going after `fuel` blocks is reported as `Diverges`. */
  function Chain<S>(step: (int, S) -> Result<(S, int)>, offset: int, s: S, fuel: nat): (r: Result<S>)
    ensures offset == 0 ==> r == Ok(s)
    ensures offset != 0 && fuel == 0 ==> r == Fail(Diverges)
    decreases fuel
  {
    if offset == 0 then Ok(s)
    else if fuel == 0 then Fail(Diverges)
    else
      var next :- step(offset, s);
      Chain(step, next.1, next.0, fuel - 1)
  }

  /** More fuel does not change an answer reached without running out. */
  lemma {:induction false} ChainFuel<S>(step: (int, S) -> Result<(S, int)>, offset: int, s: S, fuel: nat, more: nat)
    requires fuel <= more && Chain(step, offset, s, fuel) != Fail(Diverges)
    ensures Chain(step, offset, s, more) == Chain(step, offset, s, fuel)
    decreases fuel
  {
    if offset != 0 && step(offset, s).Ok? {
      var next := step(offset, s).value;
      ChainFuel(step, next.1, next.0, fuel - 1, more - 1);
    }
  }

  /** One turn of a chain. */
  lemma ChainStep<S>(step: (int, S) -> Result<(S, int)>, offset: int, s: S, fuel: nat)
    requires offset != 0 && fuel > 0
    ensures step(offset, s).Fail? ==> Chain(step, offset, s, fuel) == Fail(step(offset, s).error)
    ensures step(offset, s).Ok? ==>
      Chain(step, offset, s, fuel) == Chain(step, step(offset, s).value.1, step(offset, s).value.0, fuel - 1)
  {
  }

  /** A turn of the CWDH loop appends the block's entries to `lstCWDH`. */
  function WidthTurn(data: seq<byte>, offset: int, widths: seq<WidthInfo>): (r: Result<(seq<WidthInfo>, int)>)
  {
    var block :- CwdhBlock(data, offset);
    Ok((widths + block.0, block.1))
  }

  function WidthStep(data: seq<byte>): (int, seq<WidthInfo>) -> Result<(seq<WidthInfo>, int)>
  {
    (offset, widths) => WidthTurn(data, offset, widths)
  }

  lemma WidthTurnOk(data: seq<byte>, offset: int, widths: seq<WidthInfo>, infos: seq<WidthInfo>, next: int)
    requires CwdhBlock(data, offset) == Ok((infos, next))
    ensures WidthStep(data)(offset, widths) == Ok((widths + infos, next))
  {
  }

  /** The CWDH loop from `offset`: `lstCWDH` holds the entries of the
      blocks in chain order. */
  function Widths(data: seq<byte>, offset: int, fuel: nat): (r: Result<seq<WidthInfo>>)
  {
    Chain(WidthStep(data), offset, [], fuel)
  }

  /** The entries of the chain are those of its first block followed by
      those of the rest. */
  lemma WidthsConcat(data: seq<byte>, offset: int, fuel: nat, acc: seq<WidthInfo>)
    ensures Chain(WidthStep(data), offset, acc, fuel) == After(acc, Widths(data, offset, fuel))
    decreases fuel
  {
    var step := WidthStep(data);
    if offset == 0 {
      assert acc + [] == acc;
    } else if fuel > 0 && CwdhBlock(data, offset).Ok? {
      var block := CwdhBlock(data, offset).value;
      WidthTurnOk(data, offset, acc, block.0, block.1);
      WidthTurnOk(data, offset, [], block.0, block.1);
      ChainStep(step, offset, acc, fuel);
      ChainStep(step, offset, [], fuel);
      assert [] + block.0 == block.0;
      WidthsConcat(data, block.1, fuel - 1, acc + block.0);
      WidthsConcat(data, block.1, fuel - 1, block.0);
      var rest := Widths(data, block.1, fuel - 1);
      if rest.Ok? {
        assert (acc + block.0) + rest.value == acc + (block.0 + rest.value);
      }
    } else if fuel > 0 {
      assert step(offset, acc).Fail? && step(offset, []).Fail?;
    }
  }

  /** `acc` read in front of the rest of a chain. */
  function After<T>(acc: seq<T>, r: Result<seq<T>>): Result<seq<T>>
  {
    if r.Ok? then Ok(acc + r.value) else r
  }

  // ---------------------------------------------------------------------
  // CMAP chain

  /** `begin <= c <= end`, the codes of a CMAP range. */
  predicate InRange(c: int, begin: int, end: int)
  {
    begin <= c <= end
  }

  /** Method 0 maps the range onto consecutive glyphs from `offset`. */
  function DirectMap(begin: int, end: int, offset: int): map<int, int>
  {
    map c: int | begin <= c <= end && InRange(c, begin, end) :: c - begin + offset
  }

  /** The range grows by one code at a time. */
  lemma DirectGrow(begin: int, end: int, offset: int)
    ensures end < begin ==> DirectMap(begin, end, offset) == map[]
    ensures begin <= end ==> DirectMap(begin, end, offset) == DirectMap(begin, end - 1, offset)[end := end - begin + offset]
  {
    if begin <= end {
      var a := DirectMap(begin, end, offset);
      var b := DirectMap(begin, end - 1, offset)[end := end - begin + offset];
      assert forall c :: c in a <==> c in b by {
        forall c ensures c in a <==> c in b {
          assert c in a <==> InRange(c, begin, end);
        }
      }
    } else {
      assert forall c :: c !in DirectMap(begin, end, offset);
    }
  }

  /** Method 1 reads one `ushort` per code of the range. */
  function TableMap(data: seq<byte>, q: nat, begin: int, end: int): (t: map<int, int>)
    requires q + 2 * Span(begin, end) <= |data|
  {
    map c: int | begin <= c <= end && InRange(c, begin, end) :: U16At(data, q + 2 * (c - begin))
  }

  /** The range grows by one code at a time. */
  lemma TableGrow(data: seq<byte>, q: nat, begin: int, end: int)
    requires q + 2 * Span(begin, end) <= |data|
    ensures end < begin ==> TableMap(data, q, begin, end) == map[]
    ensures begin <= end ==> q + 2 * Span(begin, end - 1) <= |data|
    ensures begin <= end ==>
      TableMap(data, q, begin, end) == TableMap(data, q, begin, end - 1)[end := U16At(data, q + 2 * (end - begin))]
  {
    if begin <= end {
      var a := TableMap(data, q, begin, end);
      var b := TableMap(data, q, begin, end - 1)[end := U16At(data, q + 2 * (end - begin))];
      assert forall c :: c in a <==> c in b by {
        forall c ensures c in a <==> c in b {
          assert c in a <==> InRange(c, begin, end);
        }
      }
    } else {
      assert forall c :: c !in TableMap(data, q, begin, end);
    }
  }

  /** Method 2's `ReadChar()` (a UTF-16 unit) followed by `ReadUInt16()`. */
  function PairAt(data: seq<byte>, p: nat): (r: Result<((int, int), nat)>)
    ensures r.Ok? <==> p + 4 <= |data|
    ensures r.Fail? ==> r.error == EndOfStream
  {
    if p + 4 <= |data| then Ok(((U16At(data, p), U16At(data, p + 2)), p + 4)) else Fail(EndOfStream)
  }

  function PairReader(data: seq<byte>): nat -> Result<((int, int), nat)>
  {
    (p: nat) => PairAt(data, p)
  }

  /** `dicCMAP[key] = value` for each pair in order. */
  function Apply(m: map<int, int>, pairs: seq<(int, int)>): (r: map<int, int>)
    decreases |pairs|
  {
    if pairs == [] then m else Apply(m[pairs[0].0 := pairs[0].1], pairs[1..])
  }

  /** The last pair naming a key decides its entry. */
  lemma {:induction false} ApplyLastWins(m: map<int, int>, pairs: seq<(int, int)>, j: nat)
    requires j < |pairs|
    requires forall l :: j < l < |pairs| ==> pairs[l].0 != pairs[j].0
    ensures pairs[j].0 in Apply(m, pairs) && Apply(m, pairs)[pairs[j].0] == pairs[j].1
    decreases |pairs|
  {
    var m' := m[pairs[0].0 := pairs[0].1];
    if j == 0 {
      ApplyUntouched(m', pairs[1..], pairs[0].0);
    } else {
      ApplyLastWins(m', pairs[1..], j - 1);
    }
  }

  /** A key no pair names keeps its entry, or its absence. */
  lemma {:induction false} ApplyUntouched(m: map<int, int>, pairs: seq<(int, int)>, k: int)
    requires forall l :: 0 <= l < |pairs| ==> pairs[l].0 != k
    ensures (k in Apply(m, pairs)) == (k in m)
    ensures k in m ==> Apply(m, pairs)[k] == m[k]
    decreases |pairs|
  {
    if pairs != [] {
      ApplyUntouched(m[pairs[0].0 := pairs[0].1], pairs[1..], k);
    }
  }

  /** The body of one CMAP block, read at `q` right after its header, on
      top of the entries `m` made so far.  The code ranges are walked with
      an `int` counter (see `CharCodesSpin` for the `char` counter of the
      source). */
  function Mapping(data: seq<byte>, q: nat, h: Cmap, m: map<int, int>): (r: Result<map<int, int>>)
    requires q <= |data|
    ensures h.mapping !in {0, 1, 2} ==> r == Fail(UnsupportedMapping)
  {
    if h.mapping == 0 then
      if q + 2 > |data| then Fail(EndOfStream)
      else
        var offset := U16At(data, q);
        Ok(m + DirectMap(h.begin, h.end, offset))
    else if h.mapping == 1 then
      if q + 2 * Span(h.begin, h.end) > |data| then Fail(EndOfStream)
      else Ok(m + TableMap(data, q, h.begin, h.end))
    else if h.mapping == 2 then
      if q + 2 > |data| then Fail(EndOfStream)
      else
        var pairs :- Repeat(PairReader(data), q + 2, U16At(data, q));
        Ok(Apply(m, pairs.0))
    else Fail(UnsupportedMapping)
  }

  /** One turn of the CMAP loop: the block read at `offset - 8` applied to
      `m`, and the offset of the next block. */
  function CmapBlock(data: seq<byte>, offset: int, m: map<int, int>): (r: Result<(map<int, int>, int)>)
  {
    var at := Int32(offset - 8);
    if at < 0 then Fail(ArgumentOutOfRange)
    else
      var hb :- StructAt(data, at, CmapSize);
      var h := CmapOf(hb);
      var m' :- Mapping(data, at + CmapSize, h, m);
      Ok((m', h.next))
  }

  function CmapStep(data: seq<byte>): (int, map<int, int>) -> Result<(map<int, int>, int)>
  {
    (offset, m) => CmapBlock(data, offset, m)
  }

  /** The CMAP loop from `offset`, filling `m`; as for CWDH, each block is
      read at `offset - 8` and a zero offset ends the chain. */
  function Cmaps(data: seq<byte>, offset: int, m: map<int, int>, fuel: nat): (r: Result<map<int, int>>)
  {
    Chain(CmapStep(data), offset, m, fuel)
  }

  // ---------------------------------------------------------------------
  // The `char` counter of the CMAP range loops

  /** The codes `for (char i = begin; i <= end; i++)` visits: the counter
      is a `char`, so `i++` wraps from 0xFFFF to 0.  A loop still going
      after `fuel` turns is reported as `Diverges`. */
  function CharCodes(i: u16, end: u16, fuel: nat): Result<seq<int>>
    decreases fuel
  {
    if i > end then Ok([])
    else if fuel == 0 then Fail(Diverges)
    else
      var rest :- CharCodes(ToU16(i + 1), end, fuel - 1);
      Ok([i] + rest)
  }

  /** With `code_end == 0xFFFF` the `char` loop never ends: every `char` is
      at most 0xFFFF, so `i <= code_end` holds forever. */
  lemma {:induction false} CharCodesSpin(i: u16, fuel: nat)
    ensures CharCodes(i, 0xFFFF, fuel) == Fail(Diverges)
    decreases fuel
  {
    if fuel > 0 {
      CharCodesSpin(ToU16(i + 1), fuel - 1);
    }
  }

  /** Below 0xFFFF the `char` loop visits exactly `begin .. end`, the range
      the `int` counter of the model walks. */
  lemma {:induction false} CharCodesRange(i: u16, end: u16, fuel: nat)
    requires end < 0xFFFF && fuel >= Span(i, end)
    ensures CharCodes(i, end, fuel) == Ok(seq(Span(i, end), k => i + k))
    decreases Span(i, end)
  {
    if i <= end {
      var j: u16 := i + 1;
      assert ToU16(i + 1) == j;
      CharCodesRange(j, end, fuel - 1);
      var rest := seq(Span(j, end), k => j + k);
      assert CharCodes(i, end, fuel) == Ok([i] + rest);
      var codes := seq(Span(i, end), k => i + k);
      assert |codes| == |[i] + rest|;
      assert forall k :: 0 <= k < |codes| ==> codes[k] == ([i] + rest)[k];
      assert codes == [i] + rest;
      assert CharCodes(i, end, fuel) == Ok(codes);
    } else {
      assert seq(Span(i, end), k => i + k) == [];
    }
  }

  /** Method 1's loop as written, `for (char i = begin; i <= end; i++)
      dicCMAP[i] = br.ReadUInt16();`: the position after it, read from `q`.
      Every turn reads a `ushort`, so a stream that runs out throws end of
      stream; a loop still going after `fuel` turns is `Diverges`. */
  function TableChar(data: seq<byte>, q: nat, i: u16, end: u16, fuel: nat): Result<nat>
    decreases fuel
  {
    if i > end then Ok(q)
    else if q + 2 > |data| then Fail(EndOfStream)
    else if fuel == 0 then Fail(Diverges)
    else TableChar(data, q + 2, ToU16(i + 1), end, fuel - 1)
  }

  /** With `code_end == 0xFFFF` the method-1 loop does not spin: its counter
      wraps and keeps reading until the stream runs out, and then throws
      end of stream, whatever the stream holds. */
  lemma {:induction false} TableCharRunsOut(data: seq<byte>, q: nat, i: u16, fuel: nat)
    requires q + 2 * fuel > |data|
    ensures TableChar(data, q, i, 0xFFFF, fuel) == Fail(EndOfStream)
    decreases fuel
  {
    if q + 2 <= |data| {
      TableCharRunsOut(data, q + 2, ToU16(i + 1), fuel - 1);
    }
  }

  /** Below 0xFFFF the method-1 loop reads one `ushort` per code of the
      range, ending where `Mapping`'s table ends, or throws end of stream
      exactly when `Mapping` does. */
  lemma {:induction false} TableCharRange(data: seq<byte>, q: nat, i: u16, end: u16, fuel: nat)
    requires q <= |data| && end < 0xFFFF && fuel >= Span(i, end)
    ensures q + 2 * Span(i, end) <= |data| ==> TableChar(data, q, i, end, fuel) == Ok(q + 2 * Span(i, end))
    ensures q + 2 * Span(i, end) > |data| ==> TableChar(data, q, i, end, fuel) == Fail(EndOfStream)
    decreases Span(i, end)
  {
    if i <= end && q + 2 <= |data| {
      var j: u16 := i + 1;
      assert ToU16(i + 1) == j;
      assert Span(j, end) == Span(i, end) - 1;
      TableCharRange(data, q + 2, j, end, fuel - 1);
      assert TableChar(data, q, i, end, fuel) == TableChar(data, q + 2, j, end, fuel - 1);
    }
  }

  // ---------------------------------------------------------------------
  // The whole file

  /** `new BCFNT(input)`: the headers, the sheet, then the CWDH and CMAP
      chains, each followed for at most `fuel` blocks. */
  function Parse(data: seq<byte>, unpack: IC.Unpacker, fuel: nat): (r: Result<Font>)
    ensures Headers(data).Fail? ==> r == Fail(Headers(data).error)
  {
    var headers :- Headers(data);
    var bitmap :- SheetOf(data, headers.1, unpack);
    var widths :- Widths(data, headers.0.cwdhOffset, fuel);
    var cmap :- Cmaps(data, headers.0.cmapOffset, map[], fuel);
    Ok(Font(headers.0, headers.1, bitmap, widths, cmap))
  }

  // ---------------------------------------------------------------------
  // The constructor, over a reader

  /** `new BCFNT(input)`. */
  method Open(data: seq<byte>, unpack: IC.Unpacker, fuel: nat) returns (r: Result<Font>)
    ensures r == Parse(data, unpack, fuel)
  {
    var br := new BinaryReaderX.Reader(data);
    var headers :- ReadHeaders(br);
    var bitmap :- ReadSheet(br, headers.1, unpack);
    var widths :- ReadWidths(br, headers.0.cwdhOffset, fuel);
    var cmap :- ReadCmaps(br, headers.0.cmapOffset, fuel);
    return Ok(Font(headers.0, headers.1, bitmap, widths, cmap));
  }

  method ReadHeaders(br: BinaryReaderX.Reader) returns (r: Result<(Finf, Tglp)>)
    requires br.Valid() && br.pos == 0
    modifies br`pos
    ensures br.Valid()
    ensures r == Headers(br.data)
  {
    var cfnt :- br.ReadStruct(CfntSize);
    var fh :- br.ReadStruct(FinfSize);
    var finf := FinfOf(fh);
    var seek :- br.Seek(Int32(finf.tglpOffset - 8));
    var th :- br.ReadStruct(TglpSize);
    return Ok((finf, TglpOf(th)));
  }

  method ReadSheet(br: BinaryReaderX.Reader, t: Tglp, unpack: IC.Unpacker) returns (r: Result<seq<Color>>)
    requires br.Valid()
    modifies br`pos
    ensures br.Valid()
    ensures r == SheetOf(br.data, t, unpack)
  {
    var seek :- br.Seek(t.sheetDataOffset);
    var width := t.sheetWidth;
    var height := t.sheetHeight * t.numSheets;
    var bytes :- br.ReadBytes(Int32(t.sheetSize * t.numSheets));
    // `new Bitmap` inside `Load` throws before the lazy decoder starts.
    if width <= 0 || height <= 0 {
      return Fail(Argument);
    }
    var fmt :- FormatOf(t.sheetFormat);
    var colors, failure := TR.GetColorsFromTexture(bytes, fmt, unpack);
    if failure.Some? {
      return Fail(failure.value);
    }
    var bmp :- IL.Load(colors, width, height, IC.Default, true);
    assert bmp[..] == Bitmap(colors, width, height);
    return Ok(bmp[..]);
  }

  /** The CWDH loop: `lstCWDH` grows by each block's entries. */
  method ReadWidths(br: BinaryReaderX.Reader, offset0: int, fuel0: nat) returns (r: Result<seq<WidthInfo>>)
    requires br.Valid()
    modifies br`pos
    ensures br.Valid()
    ensures r == Widths(br.data, offset0, fuel0)
  {
    var widths: seq<WidthInfo> := [];
    var offset, fuel := offset0, fuel0;
    ghost var data := br.data;
    ghost var step := WidthStep(data);
    ghost var whole := Chain(step, offset0, [], fuel0);
    while offset != 0
      invariant br.Valid() && br.data == data
      invariant whole == Chain(step, offset, widths, fuel)
      decreases fuel
    {
      if fuel == 0 {
        return Fail(Diverges);
      }
      var block := ReadCwdh(br, offset);
      ChainStep(step, offset, widths, fuel);
      if block.Fail? {
        return Fail(block.error);
      }
      WidthTurnOk(data, offset, widths, block.value.0, block.value.1);
      widths := widths + block.value.0;
      offset := block.value.1;
      fuel := fuel - 1;
    }
    return Ok(widths);
  }

  /** `Position = offset - 8`, `ReadStruct<CWDH>()`, then one
      `ReadStruct<CharWidthInfo>()` per index. */
  method ReadCwdh(br: BinaryReaderX.Reader, offset: int) returns (r: Result<(seq<WidthInfo>, int)>)
    requires br.Valid()
    modifies br`pos
    ensures br.Valid()
    ensures r == CwdhBlock(br.data, offset)
  {
    var seek :- br.Seek(Int32(offset - 8));
    ghost var p: nat := br.pos;
    var h :- br.ReadStruct(CwdhSize);
    var infos :- ReadWidthEntries(br, Span(I16At(h, 8), I16At(h, 10)));
    return Ok((infos, I32At(h, 12)));
  }

  method ReadWidthEntries(br: BinaryReaderX.Reader, count: nat) returns (r: Result<seq<WidthInfo>>)
    requires br.Valid()
    modifies br`pos
    ensures br.Valid()
    ensures Repeat(WidthReader(br.data), old(br.pos), count) == if r.Ok? then Ok((r.value, br.pos as nat)) else Fail(r.error)
  {
    ghost var step := WidthReader(br.data);
    ghost var whole := Repeat(step, br.pos, count);
    var infos: seq<WidthInfo> := [];
    PrependEmpty(whole);
    for i := 0 to count
      invariant br.Valid()
      invariant whole == Prepend(infos, Repeat(step, br.pos, count - i))
    {
      ghost var p := br.pos;
      var b := br.ReadStruct(WidthSize);
      if b.Fail? {
        RepeatFail(step, p, count - i, infos, b.error);
        return Fail(b.error);
      }
      var info := WidthInfo(SByte(b.value[0]), b.value[1], b.value[2]);
      RepeatOk(step, p, count - i, infos, info, br.pos);
      infos := infos + [info];
    }
    assert infos + [] == infos;
    return Ok(infos);
  }

  /** The CMAP loop: `dicCMAP` is filled block by block. */
  method ReadCmaps(br: BinaryReaderX.Reader, offset0: int, fuel0: nat) returns (r: Result<map<int, int>>)
    requires br.Valid()
    modifies br`pos
    ensures br.Valid()
    ensures r == Cmaps(br.data, offset0, map[], fuel0)
  {
    var dic: map<int, int> := map[];
    var offset, fuel := offset0, fuel0;
    ghost var data := br.data;
    ghost var step := CmapStep(data);
    ghost var whole := Chain(step, offset0, map[], fuel0);
    while offset != 0
      invariant br.Valid() && br.data == data
      invariant whole == Chain(step, offset, dic, fuel)
      decreases fuel
    {
      if fuel == 0 {
        return Fail(Diverges);
      }
      var block := ReadCmap(br, offset, dic);
      ChainStep(step, offset, dic, fuel);
      if block.Fail? {
        return Fail(block.error);
      }
      dic := block.value.0;
      offset := block.value.1;
      fuel := fuel - 1;
    }
    return Ok(dic);
  }

  /** `Position = offset - 8`, `ReadStruct<CMAP>()`, then the block's
      mapping. */
  method ReadCmap(br: BinaryReaderX.Reader, offset: int, dic: map<int, int>) returns (r: Result<(map<int, int>, int)>)
    requires br.Valid()
    modifies br`pos
    ensures br.Valid()
    ensures r == CmapBlock(br.data, offset, dic)
  {
    var seek :- br.Seek(Int32(offset - 8));
    var hb :- br.ReadStruct(CmapSize);
    var h := CmapOf(hb);
    var m :- ReadMapping(br, h, dic);
    return Ok((m, h.next));
  }

  /** The `switch (cmap.mapping_method)` of one block. */
  method ReadMapping(br: BinaryReaderX.Reader, h: Cmap, dic: map<int, int>) returns (r: Result<map<int, int>>)
    requires br.Valid() && br.pos <= |br.data|
    modifies br`pos
    ensures br.Valid()
    ensures r == Mapping(br.data, old(br.pos), h, dic)
  {
    if h.mapping == 0 {
      var offset :- br.ReadUInt16();
      r := ReadDirect(dic, h.begin, h.end, offset);
    } else if h.mapping == 1 {
      r := ReadTable(br, dic, h.begin, h.end);
    } else if h.mapping == 2 {
      var n :- br.ReadUInt16();
      var pairs :- ReadPairs(br, n);
      return Ok(Apply(dic, pairs));
    } else {
      return Fail(UnsupportedMapping);
    }
  }

  /** Method 0: `dicCMAP[i] = i - code_begin + charOffset` over the range,
      with an `int` counter. */
  method ReadDirect(dic: map<int, int>, begin: int, end: int, offset: int) returns (r: Result<map<int, int>>)
    ensures r == Ok(dic + DirectMap(begin, end, offset))
    ensures forall c :: begin <= c <= end ==> c in r.value && r.value[c] == c - begin + offset
    ensures forall c :: c in dic && !(begin <= c <= end) ==> c in r.value && r.value[c] == dic[c]
  {
    var m := dic;
    var i := begin;
    DirectGrow(begin, i - 1, offset);
    assert dic + map[] == dic;
    while i <= end
      invariant begin <= i <= end + 1 || (i == begin && end < begin)
      invariant m == dic + DirectMap(begin, i - 1, offset)
      decreases end - i
    {
      DirectGrow(begin, i, offset);
      m := m[i := i - begin + offset];
      i := i + 1;
    }
    assert DirectMap(begin, i - 1, offset) == DirectMap(begin, end, offset);
    return Ok(m);
  }

  /** Method 1: one `ReadUInt16()` per code of the range, with an `int`
      counter. */
  method ReadTable(br: BinaryReaderX.Reader, dic: map<int, int>, begin: int, end: int) returns (r: Result<map<int, int>>)
    requires br.Valid() && br.pos <= |br.data|
    modifies br`pos
    ensures br.Valid()
    ensures old(br.pos) + 2 * Span(begin, end) > |br.data| ==> r == Fail(EndOfStream)
    ensures old(br.pos) + 2 * Span(begin, end) <= |br.data| ==>
      r == Ok(dic + TableMap(br.data, old(br.pos), begin, end))
  {
    ghost var q: nat := br.pos;
    var m := dic;
    var i := begin;
    TableGrow(br.data, q, begin, i - 1);
    assert dic + map[] == dic;
    while i <= end
      invariant br.Valid()
      invariant begin <= i <= end + 1 || (i == begin && end < begin)
      invariant br.pos == q + 2 * (i - begin)
      invariant q + 2 * (i - begin) <= |br.data|
      invariant m == dic + TableMap(br.data, q, begin, i - 1)
      decreases end - i
    {
      ghost var p := br.pos;
      var v := br.ReadUInt16();
      if v.Fail? {
        assert q + 2 * Span(begin, end) >= p + 2;
        return Fail(EndOfStream);
      }
      TableGrow(br.data, q, begin, i);
      m := m[i := v.value];
      i := i + 1;
    }
    assert TableMap(br.data, q, begin, i - 1) == TableMap(br.data, q, begin, end);
    return Ok(m);
  }

  /** Method 2: `n` pairs of `ReadChar()` and `ReadUInt16()`. */
  method ReadPairs(br: BinaryReaderX.Reader, count: nat) returns (r: Result<seq<(int, int)>>)
    requires br.Valid()
    modifies br`pos
    ensures br.Valid()
    ensures Repeat(PairReader(br.data), old(br.pos), count) == if r.Ok? then Ok((r.value, br.pos as nat)) else Fail(r.error)
  {
    ghost var step := PairReader(br.data);
    ghost var whole := Repeat(step, br.pos, count);
    var pairs: seq<(int, int)> := [];
    PrependEmpty(whole);
    for i := 0 to count
      invariant br.Valid()
      invariant whole == Prepend(pairs, Repeat(step, br.pos, count - i))
    {
      ghost var p := br.pos;
      var key := br.ReadUInt16();
      if key.Fail? {
        RepeatFail(step, p, count - i, pairs, EndOfStream);
        return Fail(EndOfStream);
      }
      var value := br.ReadUInt16();
      if value.Fail? {
        RepeatFail(step, p, count - i, pairs, EndOfStream);
        return Fail(EndOfStream);
      }
      RepeatOk(step, p, count - i, pairs, (key.value, value.value), br.pos);
      pairs := pairs + [(key.value, value.value)];
    }
    assert pairs + [] == pairs;
    return Ok(pairs);
  }
}
