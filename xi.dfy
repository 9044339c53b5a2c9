/** `Cetera.Image.XI`: an XI texture stores its pixels as a table of 16-bit
    tile numbers and a buffer of distinct tiles, both CriWare-compressed; the
    constructor lays the tiles out again in table order and loads them as a
    bitmap.  The header is taken as already decoded and the CriWare reader
    as a parameter that returns the bytes it decompressed and the stream
    position it leaves; `CriWareRead` is that reader built on the CriWare
    model. */
module Xi {
  import opened Primitives
  import opened Etc1
  import IC = ImageCommon
  import IL = ImageLoad
  import TextureReader
  import CriWare

  /** The header fields the constructor uses. */
  datatype Header = Header(imageFormat: byte, swizzle: byte, combineFormat: byte,
                           bytesPerTile: int, width: int, height: int)

  /** `Settings` as the constructor fills it. */
  datatype Settings = Settings(width: int, height: int, swizzle: byte, padToPowerOf2: bool, format: byte)

  /** The texture: its settings, the reassembled texel bytes and the
      bitmap `Common.Load` makes of them, as its pixels row by row. */
  datatype Texture = Texture(settings: Settings, combineFormat: byte, texels: seq<byte>, image: seq<Color>)

  /** `BitConverter.ToInt16(buf1, 2 * i)`: entry `i` of the tile table. */
  function TileIndex(table: seq<byte>, i: nat): int
    requires 2 * i + 2 <= |table|
  {
    I16At(table, 2 * i)
  }

  /** Entry `i` names a tile that lies inside the tile buffer. */
  predicate InRange(table: seq<byte>, tiles: seq<byte>, bytesPerTile: int, i: nat)
    requires 2 * i + 2 <= |table|
  {
    0 <= bytesPerTile && 0 <= TileIndex(table, i) * bytesPerTile
    && TileIndex(table, i) * bytesPerTile + bytesPerTile <= |tiles|
  }

  /** `ms.Write(buf2, index * bytesPerTile, bytesPerTile)` for entry `i`:
      a negative offset or count throws `ArgumentOutOfRangeException`, a
      range past the end of the buffer `ArgumentException`. */
  function Tile(table: seq<byte>, tiles: seq<byte>, bytesPerTile: int, i: nat): (r: Result<seq<byte>>)
    requires 2 * i + 2 <= |table|
    ensures r.Ok? <==> InRange(table, tiles, bytesPerTile, i)
  {
    var offset := TileIndex(table, i) * bytesPerTile;
    if offset < 0 || bytesPerTile < 0 then Fail(ArgumentOutOfRange)
    else if offset + bytesPerTile > |tiles| then Fail(Argument)
    else Ok(tiles[offset..offset + bytesPerTile])
  }

  /** The memory stream once the first `n` entries are written, or the
      first exception. */
  function Reassembled(table: seq<byte>, tiles: seq<byte>, bytesPerTile: int, n: nat): Result<seq<byte>>
    requires 2 * n <= |table|
  {
    if n == 0 then Ok([])
    else
      match Reassembled(table, tiles, bytesPerTile, n - 1)
      case Fail(e) => Fail(e)
      case Ok(out) =>
        match Tile(table, tiles, bytesPerTile, n - 1)
        case Fail(e) => Fail(e)
        case Ok(t) => Ok(out + t)
  }

  /** The tile-table loop: for each whole 16-bit entry of `table`, append the
      tile it names; a trailing odd byte of the table is not read. */
  method Reassemble(table: seq<byte>, tiles: seq<byte>, bytesPerTile: int) returns (r: Result<seq<byte>>)
    ensures r == Reassembled(table, tiles, bytesPerTile, |table| / 2)
  {
    var ms: seq<byte> := [];
    var i := 0;
    while i < |table| / 2
      invariant 0 <= i <= |table| / 2
      invariant Reassembled(table, tiles, bytesPerTile, i) == Ok(ms)
    {
      var index := I16At(table, 2 * i);
      var offset := index * bytesPerTile;
      if offset < 0 || bytesPerTile < 0 {
        FailureStays(table, tiles, bytesPerTile, i + 1, |table| / 2);
        return Fail(ArgumentOutOfRange);
      }
      if offset + bytesPerTile > |tiles| {
        FailureStays(table, tiles, bytesPerTile, i + 1, |table| / 2);
        return Fail(Argument);
      }
      ms := ms + tiles[offset..offset + bytesPerTile];
      i := i + 1;
    }
    return Ok(ms);
  }

  /** Once a write has thrown, the rest of the loop does not run. */
  lemma {:induction false} FailureStays(table: seq<byte>, tiles: seq<byte>, bytesPerTile: int, i: nat, n: nat)
    requires i <= n && 2 * n <= |table| && Reassembled(table, tiles, bytesPerTile, i).Fail?
    ensures Reassembled(table, tiles, bytesPerTile, n) == Reassembled(table, tiles, bytesPerTile, i)
    decreases n
  {
    if n > i {
      FailureStays(table, tiles, bytesPerTile, i, n - 1);
    }
  }

  /** The reassembly succeeds exactly when every entry names a tile inside
      the buffer. */
  lemma {:induction false} ReassembledOk(table: seq<byte>, tiles: seq<byte>, bytesPerTile: int, n: nat)
    requires 2 * n <= |table|
    ensures Reassembled(table, tiles, bytesPerTile, n).Ok?
      <==> forall i :: 0 <= i < n ==> InRange(table, tiles, bytesPerTile, i)
    decreases n
  {
    if n > 0 {
      ReassembledOk(table, tiles, bytesPerTile, n - 1);
    }
  }

  /** The output is one tile per entry, `n * bytesPerTile` bytes. */
  lemma {:induction false} ReassembledLength(table: seq<byte>, tiles: seq<byte>, bytesPerTile: int, n: nat)
    requires 2 * n <= |table| && Reassembled(table, tiles, bytesPerTile, n).Ok?
    ensures n > 0 ==> bytesPerTile >= 0
    ensures |Reassembled(table, tiles, bytesPerTile, n).value| == n * bytesPerTile
    decreases n
  {
    if n > 0 {
      ReassembledLength(table, tiles, bytesPerTile, n - 1);
      assert InRange(table, tiles, bytesPerTile, n - 1);
      assert n * bytesPerTile == (n - 1) * bytesPerTile + bytesPerTile;
    }
  }

  /** The bytes of tile slot `k` of the output are the tile that entry `k`
      of the table names. */
  lemma {:induction false} ReassembledTiles(table: seq<byte>, tiles: seq<byte>, bytesPerTile: int, n: nat, k: nat)
    requires 2 * n <= |table| && Reassembled(table, tiles, bytesPerTile, n).Ok? && k < n
    ensures 0 <= k * bytesPerTile <= (k + 1) * bytesPerTile <= |Reassembled(table, tiles, bytesPerTile, n).value|
    ensures InRange(table, tiles, bytesPerTile, k)
    ensures Reassembled(table, tiles, bytesPerTile, n).value[k * bytesPerTile..(k + 1) * bytesPerTile]
         == tiles[TileIndex(table, k) * bytesPerTile..TileIndex(table, k) * bytesPerTile + bytesPerTile]
    decreases n
  {
    var b := bytesPerTile;
    var out := Reassembled(table, tiles, b, n).value;
    var prev := Reassembled(table, tiles, b, n - 1).value;
    var t := Tile(table, tiles, b, n - 1).value;
    assert out == prev + t;
    ReassembledLength(table, tiles, b, n);
    ReassembledLength(table, tiles, b, n - 1);
    var lo, hi := k * b, (k + 1) * b;
    assert hi == lo + b;
    MulMonotone(k, n - 1, b);
    if k < n - 1 {
      ReassembledTiles(table, tiles, b, n - 1, k);
      assert out[lo..hi] == prev[lo..hi];
    } else {
      assert |prev| == lo;
      assert out[lo..hi] == t;
    }
  }

  /** `a * c <= b * c` for `a <= b` and `c >= 0`. */
  lemma MulMonotone(a: nat, b: nat, c: int)
    requires a <= b && c >= 0
    ensures a * c <= b * c
  {
    assert b * c == a * c + (b - a) * c;
  }

  /** Only the table's first `2 * n` bytes matter to the first `n` tiles. */
  lemma {:induction false} ReassembledPrefix(table: seq<byte>, other: seq<byte>, tiles: seq<byte>, bytesPerTile: int, n: nat)
    requires 2 * n <= |table| && 2 * n <= |other| && table[..2 * n] == other[..2 * n]
    ensures Reassembled(table, tiles, bytesPerTile, n) == Reassembled(other, tiles, bytesPerTile, n)
    decreases n
  {
    if n > 0 {
      assert table[..2 * (n - 1)] == table[..2 * n][..2 * (n - 1)];
      assert other[..2 * (n - 1)] == other[..2 * n][..2 * (n - 1)];
      ReassembledPrefix(table, other, tiles, bytesPerTile, n - 1);
      assert table[2 * (n - 1)] == table[..2 * n][2 * (n - 1)];
      assert table[2 * (n - 1) + 1] == table[..2 * n][2 * (n - 1) + 1];
    }
  }

  /** A trailing odd byte of the tile table is ignored. */
  lemma OddByteIgnored(table: seq<byte>, b: byte, tiles: seq<byte>, bytesPerTile: int)
    requires |table| % 2 == 0
    ensures Reassembled(table + [b], tiles, bytesPerTile, |table + [b]| / 2)
         == Reassembled(table, tiles, bytesPerTile, |table| / 2)
  {
    assert |table + [b]| / 2 == |table| / 2;
    assert (table + [b])[..|table|] == table[..|table|];
    ReassembledPrefix(table + [b], table, tiles, bytesPerTile, |table| / 2);
  }

  // ---------------------------------------------------------------------
  // The padding between the two buffers

  /** The bytes from `pos` to the next multiple of 4. */
  function Gap(pos: nat): nat
  {
    (4 - pos % 4) % 4
  }

  lemma GapFacts(pos: nat, p: nat)
    ensures Gap(pos) < 4 && (pos + Gap(pos)) % 4 == 0
    ensures pos <= p < pos + Gap(pos) ==> p % 4 != 0
  {
  }

  /** The position the padding loop `while (input.Position % 4 != 0)
      input.ReadByte();` ends at, as written: `ReadByte` at the end of a
      stream returns -1 without moving, so a stream that ends before the
      next multiple of 4 keeps the loop running for ever. */
  function PaddingEnd(pos: nat, length: nat): (r: Result<nat>)
    ensures r.Ok? ==> r.value % 4 == 0 && pos <= r.value < pos + 4
    ensures r.Fail? ==> r.error == Diverges && pos % 4 != 0
  {
    GapFacts(pos, pos);
    if Gap(pos) == 0 || pos + Gap(pos) <= length then Ok(pos + Gap(pos)) else Fail(Diverges)
  }

  /** A stream of 6 bytes positioned at 5 never gets past the padding. */
  lemma PaddingSpins()
    ensures PaddingEnd(5, 6) == Fail(Diverges)
    ensures PaddingEnd(5, 8) == Ok(8)
  {
  }

  /** Where the padding skip ends once the end of the stream also ends it:
      at the next multiple of 4 or at the end, whichever comes first. */
  function Padded(pos: nat, length: nat): (q: nat)
    ensures pos <= q <= pos + Gap(pos)
    ensures q % 4 == 0 || q >= length
    ensures q == pos || q <= length
    ensures pos < q ==> forall p :: pos <= p < q ==> p % 4 != 0 && p < length
    ensures PaddingEnd(pos, length).Ok? ==> q == PaddingEnd(pos, length).value
  {
    GapFacts(pos, pos);
    if Gap(pos) == 0 || pos >= length then pos
    else if pos + Gap(pos) <= length then pos + Gap(pos)
    else length
  }

  /** The padding loop with the end of the stream also ending it: it stops
      at the next multiple of 4 or at the end, whichever comes first, and
      then the second read fails on an exhausted stream. */
  method SkipPadding(pos: nat, length: nat) returns (q: nat)
    ensures q == Padded(pos, length)
    ensures pos <= q <= pos + Gap(pos)
    ensures q % 4 == 0 || q >= length
    ensures q == pos || q <= length
    ensures PaddingEnd(pos, length).Ok? ==> q == PaddingEnd(pos, length).value
  {
    GapFacts(pos, pos);
    q := pos;
    while q % 4 != 0 && q < length
      invariant pos <= q <= pos + Gap(pos)
      invariant q == pos || q <= length
      invariant forall p :: pos <= p < q ==> p % 4 != 0 && p < length
      decreases pos + Gap(pos) - q
    {
      GapFacts(pos, q);
      q := q + 1;
    }
  }

  // ---------------------------------------------------------------------
  // The bitmap

  /** `(Swizzle)header.swizzle`: the header's byte as a swizzle value. */
  function SwizzleOf(v: byte): (s: IC.Swizzle)
    ensures s.Value() == v
  {
    if v == 0 then IC.Default else if v == 1 then IC.TransposeTile
    else if v == 4 then IC.Rotate90 else if v == 8 then IC.Transpose
    else IC.Unnamed(v)
  }

  /** The texture format the header's `XI.Format` names: the XI enum is
      converted by name, as `Enum.Parse(typeof(Format), format.ToString())`
      converts it; a value without a name prints as its number, which
      parses to the texture format of that number. */
  function FormatOf(v: byte): (f: IC.Format)
    ensures f.Undefined? <==> (16 <= v < 26 || v >= 30)
  {
    if v == 0 then IC.RGBA8888 else if v == 1 then IC.RGBA4444
    else if v == 2 then IC.RGBA5551 else if v == 3 then IC.RGB888
    else if v == 4 then IC.RGB565 else if v == 11 then IC.LA88
    else if v == 12 then IC.LA44 else if v == 13 then IC.L8
    else if v == 14 then IC.HL88 else if v == 15 then IC.A8
    else if v == 26 then IC.L4 else if v == 27 then IC.A4
    else if v == 28 then IC.ETC1 else if v == 29 then IC.ETC1A4
    // the numbers without an XI name
    else if v == 5 then IC.LA88 else if v == 6 then IC.HL88
    else if v == 7 then IC.L8 else if v == 8 then IC.A8
    else if v == 9 then IC.LA44 else if v == 10 then IC.L4
    else IC.Undefined(v)
  }

  /** The pixels of `Load(colors, width, height, swizzle, false)`. */
  function Pixels(colors: seq<Color>, width: nat, height: nat, swizzle: IC.Swizzle): (pixels: seq<Color>)
    requires !swizzle.Unnamed? || colors == []
    ensures |pixels| == width * height
  {
    var ts := IL.Targets(width, height, swizzle, false, |colors|);
    seq(width * height, j => IL.Shown(colors, ts, j, |colors|))
  }

  /** `Common.Load(texels, Settings)`: the texels decoded in the settings'
      format and placed along the point sequence of the settings' swizzle.
      `new Bitmap` rejects a non-positive size before anything is decoded;
      the colours are then decoded lazily, so an unnamed swizzle throws as
      soon as the first colour needs its point, and otherwise an exception
      of the decoder ends the load. */
  function Image(texels: seq<byte>, s: Settings, unpack: IC.Unpacker): (r: Result<seq<Color>>)
    ensures s.width <= 0 || s.height <= 0 ==> r == Fail(Argument)
    ensures r.Ok? <==> (s.width > 0 && s.height > 0
      && (!SwizzleOf(s.swizzle).Unnamed? || IC.Decode(FormatOf(s.format), texels, unpack, IC.Start).0 == [])
      && IC.Decode(FormatOf(s.format), texels, unpack, IC.Start).1.None?)
    ensures r.Ok? ==> |r.value| == s.width * s.height
  {
    if s.width <= 0 || s.height <= 0 then Fail(Argument)
    else
      var decoded := IC.Decode(FormatOf(s.format), texels, unpack, IC.Start);
      var swizzle := SwizzleOf(s.swizzle);
      if swizzle.Unnamed? && decoded.0 != [] then Fail(NotSupported)
      else if decoded.1.Some? then Fail(decoded.1.value)
      else Ok(Pixels(decoded.0, s.width, s.height, swizzle))
  }

  /** Colour k of the decoded texels shows at the pixel of point k of the
      settings' swizzle whenever that point lies on the bitmap. */
  lemma ImageShows(texels: seq<byte>, s: Settings, unpack: IC.Unpacker, k: nat, p: IC.Point)
    requires Image(texels, s, unpack).Ok?
    requires k < |IC.Decode(FormatOf(s.format), texels, unpack, IC.Start).0|
    requires IC.PointSequence(s.width, s.height, SwizzleOf(s.swizzle), false, k) == Ok(p)
    requires 0 <= p.x < s.width && 0 <= p.y < s.height
    ensures 0 <= p.y * s.width + p.x < |Image(texels, s, unpack).value|
    ensures Image(texels, s, unpack).value[p.y * s.width + p.x]
      == IC.Decode(FormatOf(s.format), texels, unpack, IC.Start).0[k]
  {
    var colors := IC.Decode(FormatOf(s.format), texels, unpack, IC.Start).0;
    var swizzle := SwizzleOf(s.swizzle);
    var j := p.y * s.width + p.x;
    IL.InsideIndex(p.x, p.y, s.width, s.height);
    assert IL.Target(p, s.width, s.height) == j;
    IL.LoadShows(colors, s.width, s.height, swizzle, false, k, p);
    var pixels := Pixels(colors, s.width, s.height, swizzle);
    assert Image(texels, s, unpack) == Ok(pixels);
    assert pixels[j] == IL.Shown(colors, IL.Targets(s.width, s.height, swizzle, false, |colors|), j, |colors|);
  }

  // ---------------------------------------------------------------------
  // The constructor

  /** The reader of one CriWare buffer: the bytes it decompresses from a
      stream and position, and the position it leaves. */
  type Read = (seq<byte>, nat) -> Result<(seq<byte>, nat)>

  /** The settings the constructor fills from the header. */
  function SettingsOf(h: Header): Settings
  {
    Settings(h.width, h.height, h.swizzle, false, h.imageFormat)
  }

  /** What `new XI(input)` makes of the decoded header and the stream at
      position `start`: the combine format is checked, the tile table is
      read, the padding skipped (as the corrected loop skips it), the tile
      buffer read, the tiles laid out in table order and the result loaded
      as a bitmap; the first exception ends it. */
  function Opened(h: Header, input: seq<byte>, start: nat, read: Read, unpack: IC.Unpacker): (r: Result<Texture>)
    ensures h.combineFormat != 1 ==> r == Fail(Exception("Unknown combine format"))
    ensures r.Ok? ==> r.value.settings == SettingsOf(h) && r.value.combineFormat == 1
    ensures r.Ok? ==> |r.value.image| == h.width * h.height
  {
    if h.combineFormat != 1 then Fail(Exception("Unknown combine format"))
    else
      var first :- read(input, start);
      var second :- read(input, Padded(first.1, |input|));
      var texels :- Reassembled(first.0, second.0, h.bytesPerTile, |first.0| / 2);
      var image :- Image(texels, SettingsOf(h), unpack);
      Ok(Texture(SettingsOf(h), h.combineFormat, texels, image))
  }

  /** `new XI(input)` succeeds exactly when the combine format is 1, both
      buffers read, the tiles reassemble (every table entry names a tile
      inside the tile buffer, `ReassembledOk`) and the bitmap loads; its texels are then the reassembled tiles and
      its image the bitmap of those texels. */
  lemma OpenedOk(h: Header, input: seq<byte>, start: nat, read: Read, unpack: IC.Unpacker)
    ensures Opened(h, input, start, read, unpack).Ok? <==>
      h.combineFormat == 1 && read(input, start).Ok?
      && var table := read(input, start).value.0;
         var p := Padded(read(input, start).value.1, |input|);
         read(input, p).Ok?
         && Reassembled(table, read(input, p).value.0, h.bytesPerTile, |table| / 2).Ok?
         && Image(Reassembled(table, read(input, p).value.0, h.bytesPerTile, |table| / 2).value, SettingsOf(h), unpack).Ok?
    ensures Opened(h, input, start, read, unpack).Ok? ==>
      var table := read(input, start).value.0;
      var tiles := read(input, Padded(read(input, start).value.1, |input|)).value.0;
      var texels := Opened(h, input, start, read, unpack).value.texels;
      Reassembled(table, tiles, h.bytesPerTile, |table| / 2) == Ok(texels)
      && Image(texels, SettingsOf(h), unpack) == Ok(Opened(h, input, start, read, unpack).value.image)
  {
  }

  /** `new XI(input)` from the decoded header, the stream and its position
      after the header: a combine format other than 1 throws; otherwise
      the tile table and the tile buffer are read with `read` (CriWare
      decompression, which gives the bytes and the next position) with
      the padding skipped between them by the corrected loop, the tiles
      laid out in table order, and the bitmap loaded from them with the
      header's size, swizzle and format and no padding to a power of two. */
  method Open(h: Header, input: seq<byte>, start: nat, read: Read, unpack: IC.Unpacker) returns (r: Result<Texture>)
    ensures r == Opened(h, input, start, read, unpack)
    ensures h.combineFormat != 1 ==> r == Fail(Exception("Unknown combine format"))
    ensures r.Ok? ==> r.value.settings == Settings(h.width, h.height, h.swizzle, false, h.imageFormat)
    ensures r.Ok? ==> h.combineFormat == 1 && read(input, start).Ok?
    ensures r.Ok? ==> exists p: nat ::
      PaddedAt(read, input, start, p) && read(input, p).Ok? &&
      Reassembled(read(input, start).value.0, read(input, p).value.0, h.bytesPerTile,
                     |read(input, start).value.0| / 2) == Ok(r.value.texels)
  {
    if h.combineFormat != 1 {
      return Fail(Exception("Unknown combine format"));
    }
    var first :- read(input, start);
    var (table, afterTable) := first;
    var p := SkipPadding(afterTable, |input|);
    var second :- read(input, p);
    var texels :- Reassemble(table, second.0, h.bytesPerTile);
    assert PaddedAt(read, input, start, p);
    var settings := Settings(h.width, h.height, h.swizzle, false, h.imageFormat);
    var colors, failure := TextureReader.GetColorsFromTexture(texels, FormatOf(h.imageFormat), unpack);
    var bitmap :- IL.Load(colors, h.width, h.height, SwizzleOf(h.swizzle), false);
    if failure.Some? {
      return Fail(failure.value);
    }
    assert bitmap[..] == Pixels(colors, h.width, h.height, SwizzleOf(h.swizzle));
    return Ok(Texture(settings, h.combineFormat, texels, bitmap[..]));
  }

  /** `p` is where the padding loop leaves the stream after the tile table. */
  ghost predicate PaddedAt(read: Read, input: seq<byte>, start: nat, p: nat)
  {
    read(input, start).Ok?
    && var q := read(input, start).value.1;
       q <= p && (p % 4 == 0 || p >= |input|)
       && (PaddingEnd(q, |input|).Ok? ==> p == PaddingEnd(q, |input|).value)
  }

  // ---------------------------------------------------------------------
  // The reader on the CriWare model

  /** `CriWare.GetDecompressedBytes(input)` with the stream at `pos`, and the
      position it leaves: a stored buffer stops after its header and the
      bytes it returns, while every other method reads the header and then
      `BaseStream.Length - 4` bytes, which from any position is the rest of
      the stream. */
  function CriWareRead(lzss: (seq<byte>, int) -> Result<seq<byte>>,
                       huffman: (seq<byte>, int, int) -> Result<seq<byte>>,
                       input: seq<byte>, pos: nat): (r: Result<(seq<byte>, nat)>)
    ensures pos > |input| ==> r == Fail(EndOfStream)
    ensures pos <= |input| ==> (r.Ok? <==> CriWare.GetDecompressedBytes(input[pos..], lzss, huffman).Ok?)
    ensures r.Ok? ==> (pos + 4 <= |input|
      && r.value.0 == CriWare.GetDecompressedBytes(input[pos..], lzss, huffman).value
      && pos + 4 <= r.value.1 <= |input|)
    ensures r.Ok? && CriWare.MethodOf(I32At(input, pos)) != CriWare.NoCompression ==> r.value.1 == |input|
  {
    if pos > |input| then Fail(EndOfStream)
    else
      var data := input[pos..];
      match CriWare.GetDecompressedBytes(data, lzss, huffman)
      case Fail(e) => Fail(e)
      case Ok(bytes) =>
        assert I32At(data, 0) == I32At(input, pos) by {
          assert data[..4] == input[pos..pos + 4];
        }
        if CriWare.MethodOf(I32At(data, 0)) == CriWare.NoCompression then Ok((bytes, pos + 4 + |bytes|))
        else Ok((bytes, |input|))
  }

  /** On the CriWare model a tile table that is compressed (by any method
      but 0) reads to the end of the stream, so the tile buffer after it
      cannot be read and the constructor throws end of stream. */
  lemma CompressedTableFails(h: Header, input: seq<byte>, start: nat,
                             lzss: (seq<byte>, int) -> Result<seq<byte>>,
                             huffman: (seq<byte>, int, int) -> Result<seq<byte>>, unpack: IC.Unpacker)
    requires h.combineFormat == 1 && start + 4 <= |input|
    requires CriWareRead(lzss, huffman, input, start).Ok?
    requires CriWare.MethodOf(I32At(input, start)) != CriWare.NoCompression
    ensures Opened(h, input, start, (i: seq<byte>, p: nat) => CriWareRead(lzss, huffman, i, p), unpack) == Fail(EndOfStream)
  {
    var read: Read := (i: seq<byte>, p: nat) => CriWareRead(lzss, huffman, i, p);
    assert read(input, start).value.1 == |input|;
    assert Padded(|input|, |input|) == |input|;
    assert CriWare.GetDecompressedBytes(input[|input|..], lzss, huffman) == Fail(EndOfStream);
  }
}
