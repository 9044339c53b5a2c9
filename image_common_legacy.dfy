/** `Cetera.ImageCommon`, the older copy of the texture code: its own
    `Format` order, `XiSwizzle` for the tile-transposing orientation, a
    nibble reader written as a closure over a nullable `int`, and
    `LoadImage`, whose coordinate formulas are spelt out per orientation
    with C#'s operator precedence. */
module ImageCommonLegacy {
  import opened Primitives
  import opened Etc1
  import opened BinaryReaderX
  import IC = ImageCommon
  import IL = ImageLoad

  /** `Format`, in this file's enum order, and any other `byte` value. */
  datatype Format =
    | L8 | A8 | LA44 | LA88 | HL88 | RGB565 | RGB888 | RGBA5551 | RGBA4444 | RGBA8888
    | ETC1 | ETC1_A4 | L4 | A4 | Undefined(other: IC.OtherFormat)
  {
    /** `(byte)format`. */
    function Value(): (v: byte)
      ensures Undefined? <==> v >= 14
    {
      match this
      case L8 => 0 case A8 => 1 case LA44 => 2 case LA88 => 3 case HL88 => 4
      case RGB565 => 5 case RGB888 => 6 case RGBA5551 => 7 case RGBA4444 => 8
      case RGBA8888 => 9 case ETC1 => 10 case ETC1_A4 => 11 case L4 => 12 case A4 => 13
      case Undefined(v) => v
    }

    /** The format of the same name in `Cetera.Image.Common`, whose switch
        handles each name as this file's does. */
    function Named(): (f: IC.Format)
      ensures Undefined? <==> f.Undefined?
    {
      match this
      case L8 => IC.L8 case A8 => IC.A8 case LA44 => IC.LA44 case LA88 => IC.LA88
      case HL88 => IC.HL88 case RGB565 => IC.RGB565 case RGB888 => IC.RGB888
      case RGBA5551 => IC.RGBA5551 case RGBA4444 => IC.RGBA4444 case RGBA8888 => IC.RGBA8888
      case ETC1 => IC.ETC1 case ETC1_A4 => IC.ETC1A4 case L4 => IC.L4 case A4 => IC.A4
      case Undefined(v) => IC.Undefined(v)
    }
  }

  /** `Swizzle`: the named orientations and any other `byte` value. */
  datatype Swizzle = Default | XiSwizzle | Rotate90 | Transpose | Unnamed(other: IC.OtherSwizzle)
  {
    /** `(int)swizzle`. */
    function Value(): (v: byte)
    {
      match this
      case Default => 0
      case XiSwizzle => 1
      case Rotate90 => 4
      case Transpose => 8
      case Unnamed(v) => v
    }

    /** The orientation with the same value in `Cetera.Image.Common`. */
    function Named(): (s: IC.Swizzle)
      ensures s.Value() == Value()
    {
      match this
      case Default => IC.Default
      case XiSwizzle => IC.TransposeTile
      case Rotate90 => IC.Rotate90
      case Transpose => IC.Transpose
      case Unnamed(v) => IC.Unnamed(v)
    }
  }

  // ---------------------------------------------------------------------
  // The nibble closure

  /** One call of the `ReadNibble` closure on the position and the
      nullable `nibble`: with no pending nibble, read a byte, keep its high
      nibble and return its low one; otherwise return the kept nibble and
      clear it without reading. */
  function ClosureStep(data: seq<byte>, p: int, nibble: Option<int>): (r: Result<(int, int, Option<int>)>)
    requires p >= 0
  {
    match nibble
    case None =>
      if p < |data| then Ok((data[p] as int % 16, p + 1, Some(data[p] as int / 16))) else Fail(EndOfStream)
    case Some(h) => Ok((h, p, None))
  }

  /** `n` successive calls of the closure. */
  function ClosureRun(data: seq<byte>, p: int, nibble: Option<int>, n: nat): Result<(seq<int>, int, Option<int>)>
    requires p >= 0
    decreases n
  {
    if n == 0 then Ok(([], p, nibble))
    else
      match ClosureStep(data, p, nibble)
      case Fail(e) => Fail(e)
      case Ok((v, p1, h1)) =>
        if p1 < 0 then Fail(EndOfStream)
        else
          match ClosureRun(data, p1, h1, n - 1)
          case Fail(e) => Fail(e)
          case Ok((vs, p2, h2)) => Ok(([v] + vs, p2, h2))
  }

  /** The closure's state for `BinaryReaderX`'s pending byte (-1 for none):
      the closure keeps the byte's high nibble where the reader keeps the
      whole byte. */
  function Pending(nb: int): Option<int>
  {
    if nb == -1 then None else Some(nb / 16)
  }

  /** A run of `BinaryReaderX.ReadNibble` results seen through `Pending`. */
  function AsClosure(r: Result<(seq<int>, int, int)>): Result<(seq<int>, int, Option<int>)>
  {
    match r
    case Fail(e) => Fail(e)
    case Ok((vs, p, nb)) => Ok((vs, p, Pending(nb)))
  }

  /** One call of the closure behaves as one `BinaryReaderX.ReadNibble`:
      the same value, the same position, and the corresponding pending
      state. */
  lemma ClosureIsReadNibble(data: seq<byte>, p: nat, nb: int)
    requires -1 <= nb < 256
    ensures ClosureStep(data, p, Pending(nb))
      == match NibbleStep(data, p, nb)
         case Fail(e) => Fail(e)
         case Ok((v, p1, nb1)) => Ok((v, p1, Pending(nb1)))
  {
  }

  /** Any number of closure calls read the same nibbles as as many
      `ReadNibble` calls from the corresponding state, so the nibble
      formats decode here exactly as in `Cetera.Image.Common`. */
  lemma {:induction false} ClosureRunIsNibbleRun(data: seq<byte>, p: nat, nb: int, n: nat)
    requires p <= |data| && -1 <= nb < 256
    ensures ClosureRun(data, p, Pending(nb), n) == AsClosure(NibbleRun(data, p, nb, n))
    decreases n
  {
    if n > 0 {
      ClosureIsReadNibble(data, p, nb);
      match NibbleStep(data, p, nb)
      case Fail(_) =>
      case Ok((v, p1, nb1)) =>
        NibbleRunAdvances(data, p, nb, 1);
        ClosureRunIsNibbleRun(data, p1, nb1, n - 1);
    }
  }

  /** The closure: the reader it captured and its nullable `nibble`. */
  class Closure {
    const br: Reader
    var nibble: Option<int>

    ghost predicate Valid()
      reads this, br
    {
      br.Valid() && (nibble.Some? ==> 0 <= nibble.value < 16)
    }

    /** `int? nibble = null` and the closure over `br`. */
    constructor (br: Reader)
      requires br.Valid()
      ensures Valid() && this.br == br && nibble == None
    {
      this.br := br;
      nibble := None;
    }

    /** A call of the closure. */
    method Call() returns (r: Result<int>)
      requires Valid()
      modifies br`pos, this`nibble
      ensures Valid()
      ensures ClosureStep(br.data, old(br.pos), old(nibble))
        == if r.Ok? then Ok((r.value, br.pos, nibble)) else Fail(r.error)
      ensures r.Ok? ==> 0 <= r.value < 16
    {
      if nibble.None? {
        var b :- br.ReadByte();
        nibble := Some(b as int / 16);
        return Ok(b as int % 16);
      } else {
        var v := nibble.value;
        nibble := None;
        return Ok(v);
      }
    }
  }

  // ---------------------------------------------------------------------
  // GetColorsFromTexture

  /** The decoder's state between colours: the reader's position, the
      closure's `nibble`, and the ETC1 colours not yet handed out. */
  datatype ClosureCursor = ClosureCursor(pos: nat, nibble: Option<int>, queue: seq<Color>)

  /** A pending nibble is a 4-bit value. */
  predicate Holds(nibble: Option<int>)
  {
    nibble.Some? ==> 0 <= nibble.value < 16
  }

  /** A reader slot whose high nibble is the closure's pending one. */
  function Held(nibble: Option<int>): (nb: int)
    requires Holds(nibble)
    ensures -1 <= nb < 256 && Pending(nb) == nibble
  {
    match nibble
    case None => -1
    case Some(h) => h * 16
  }

  /** `lc` is the state of `Cetera.Image.Common`'s decoder in `c`: the same
      position and queue, and a pending nibble where the reader holds a
      byte. */
  predicate Matches(lc: ClosureCursor, c: IC.Cursor)
  {
    lc.pos == c.pos && lc.queue == c.queue && lc.nibble == Pending(c.nibbles) && -1 <= c.nibbles < 256
  }

  /** One turn of the `GetColorsFromTexture` loop of this file: the 4-bit
      formats call the closure; every other arm is the same statement as
      in `Cetera.Image.Common` and is taken from there. */
  function NextColor(fmt: Format, data: seq<byte>, unpack: IC.Unpacker, c: ClosureCursor): (r: Result<(Color, ClosureCursor)>)
    requires c.pos < |data| && Holds(c.nibble)
    ensures r.Ok? ==> var c' := r.value.1;
      && c'.pos <= |data| && Holds(c'.nibble)
      && (|| c'.pos > c.pos
          || (c'.pos == c.pos && c.nibble.Some? && c'.nibble.None?)
          || (c'.pos == c.pos && c'.nibble == c.nibble && |c'.queue| < |c.queue|))
  {
    var named := fmt.Named();
    var n := IC.NibbleCount(named);
    if n > 0 then
      ClosureRunIsNibbleRun(data, c.pos, Held(c.nibble), n);
      NibbleRunAdvances(data, c.pos, Held(c.nibble), n);
      var run :- ClosureRun(data, c.pos, c.nibble, n);
      Ok((IC.FromNibbles(named, run.0), ClosureCursor(run.1, run.2, c.queue)))
    else
      match IC.NextColor(named, data, unpack, IC.Cursor(c.pos, Held(c.nibble), c.queue))
      case Fail(e) => Fail(e)
      case Ok((color, next)) => Ok((color, ClosureCursor(next.pos, Pending(next.nibbles), next.queue)))
  }

  /** `GetColorsFromTexture` from a state: the colours it yields until the
      position reaches the end, and the exception that ends it early, if
      any. */
  function Decode(fmt: Format, data: seq<byte>, unpack: IC.Unpacker, c: ClosureCursor): (r: (seq<Color>, Option<Error>))
    requires c.pos <= |data| && Holds(c.nibble)
    ensures r == ([], None) <==> c.pos == |data|
    decreases |data| - c.pos, if c.nibble.None? then 0 else 1, |c.queue|
  {
    if c.pos == |data| then ([], None)
    else
      match NextColor(fmt, data, unpack, c)
      case Fail(e) => ([], Some(e))
      case Ok((color, next)) =>
        var rest := Decode(fmt, data, unpack, next);
        ([color] + rest.0, rest.1)
  }

  /** The formats without nibbles never look at the reader's slot and
      leave it as it was. */
  lemma SlotIgnored(fmt: IC.Format, data: seq<byte>, unpack: IC.Unpacker, c: IC.Cursor, nb: int)
    requires IC.NibbleCount(fmt) == 0 && c.pos < |data| && -1 <= c.nibbles < 256 && -1 <= nb < 256
    ensures var r := IC.NextColor(fmt, data, unpack, c);
            var r' := IC.NextColor(fmt, data, unpack, c.(nibbles := nb));
            || (r.Fail? && r' == Fail(r.error))
            || (r.Ok? && r.value.1.nibbles == c.nibbles && r' == Ok((r.value.0, r.value.1.(nibbles := nb))))
  {
    match fmt
    case ETC1 => EtcSlotIgnored(false, data, unpack, c, nb);
    case ETC1A4 => EtcSlotIgnored(true, data, unpack, c, nb);
    case Undefined(_) =>
    case _ => ByteSlotIgnored(fmt, data, c, nb);
  }

  lemma EtcSlotIgnored(a4: bool, data: seq<byte>, unpack: IC.Unpacker, c: IC.Cursor, nb: int)
    requires c.pos < |data| && -1 <= c.nibbles < 256 && -1 <= nb < 256
    ensures var r := IC.EtcColor(a4, data, unpack, c);
            var r' := IC.EtcColor(a4, data, unpack, c.(nibbles := nb));
            || (r.Fail? && r' == Fail(r.error))
            || (r.Ok? && r.value.1.nibbles == c.nibbles && r' == Ok((r.value.0, r.value.1.(nibbles := nb))))
  {
  }

  lemma ByteSlotIgnored(fmt: IC.Format, data: seq<byte>, c: IC.Cursor, nb: int)
    requires IC.Width(fmt) > 0 && IC.NibbleCount(fmt) == 0
    requires c.pos < |data| && -1 <= c.nibbles < 256 && -1 <= nb < 256
    ensures var r := IC.ByteColor(fmt, data, c);
            var r' := IC.ByteColor(fmt, data, c.(nibbles := nb));
            || (r.Fail? && r' == Fail(r.error))
            || (r.Ok? && r.value.1.nibbles == c.nibbles && r' == Ok((r.value.0, r.value.1.(nibbles := nb))))
  {
  }

  /** A turn from matching states yields the same colour, or throws the
      same exception, and leaves matching states. */
  lemma NextColorMatches(fmt: Format, data: seq<byte>, unpack: IC.Unpacker, lc: ClosureCursor, c: IC.Cursor)
    requires Matches(lc, c) && c.pos < |data| && Holds(lc.nibble)
    ensures var r := NextColor(fmt, data, unpack, lc);
            var r' := IC.NextColor(fmt.Named(), data, unpack, c);
            || (r.Fail? && r' == Fail(r.error))
            || (r.Ok? && r'.Ok? && r.value.0 == r'.value.0 && Matches(r.value.1, r'.value.1))
  {
    var named := fmt.Named();
    var n := IC.NibbleCount(named);
    if n > 0 {
      ClosureRunIsNibbleRun(data, c.pos, c.nibbles, n);
      NibbleRunAdvances(data, c.pos, c.nibbles, n);
    } else {
      SlotIgnored(named, data, unpack, c, Held(lc.nibble));
    }
  }

  /** From matching states, this file's decoder yields the colours of
      `Cetera.Image.Common`'s and ends with the same exception. */
  lemma {:induction false} DecodeMatches(fmt: Format, data: seq<byte>, unpack: IC.Unpacker, lc: ClosureCursor, c: IC.Cursor)
    requires Matches(lc, c) && c.pos <= |data| && Holds(lc.nibble)
    ensures Decode(fmt, data, unpack, lc) == IC.Decode(fmt.Named(), data, unpack, c)
    decreases |data| - c.pos, if lc.nibble.None? then 0 else 1, |c.queue|
  {
    if c.pos < |data| {
      NextColorMatches(fmt, data, unpack, lc, c);
      var r := NextColor(fmt, data, unpack, lc);
      if r.Ok? {
        DecodeMatches(fmt, data, unpack, r.value.1, IC.NextColor(fmt.Named(), data, unpack, c).value.1);
      }
    }
  }

  /** `GetColorsFromTexture(tex, format)` of this file decodes every format
      as `Cetera.Image.Common` decodes the format of the same name. */
  lemma DecodesAsCommon(fmt: Format, tex: seq<byte>, unpack: IC.Unpacker)
    ensures Decode(fmt, tex, unpack, ClosureCursor(0, None, [])) == IC.Decode(fmt.Named(), tex, unpack, IC.Start)
  {
    DecodeMatches(fmt, tex, unpack, ClosureCursor(0, None, []), IC.Start);
  }

  // ---------------------------------------------------------------------
  // LoadImage

  /** `tile * 8 + hi | mid | lo`, which C# parses as
      `((tile * 8 + hi) | mid) | lo`. */
  function Coord(tile: nat, hi: nat, mid: nat, lo: nat): nat
  {
    Or(Or(tile * 8 + hi, mid), lo)
  }

  /** With `hi`, `mid` and `lo` single bits at positions 2, 1 and 0 and the
      tile corner a multiple of 8, the ORs add up. */
  lemma TileOr(tile: nat, a: nat, b: nat, c: nat)
    requires a < 2 && b < 2 && c < 2
    ensures Coord(tile, 4 * a, 2 * b, c) == tile * 8 + 4 * a + 2 * b + c
  {
    assert Pow2(2) == 4 && Pow2(1) == 2;
    var u := 2 * tile + a;
    assert tile * 8 + 4 * a == u * Pow2(2);
    OrDisjoint(u, 2 * b, 2);
    var v := 4 * tile + 2 * a + b;
    assert tile * 8 + 4 * a + 2 * b == v * Pow2(1);
    OrDisjoint(v, c, 1);
  }

  /** The `x`, `y` of colour `i` in `LoadImage`, as the switch computes
      them; an unknown swizzle throws. */
  function LegacyPoint(stride: int, swizzle: Swizzle, i: nat): (r: Result<IC.Point>)
    requires stride >= 8
  {
    var col := i / 64 % (stride / 8);
    var row := i / 64 / (stride / 8);
    match swizzle
    case Default =>
      Ok(IC.Point(Coord(col, IC.Masked(i / 4, 2), IC.Masked(i / 2, 1), IC.Masked(i, 0)),
                  Coord(row, IC.Masked(i / 8, 2), IC.Masked(i / 4, 1), IC.Masked(i / 2, 0))))
    case XiSwizzle =>
      Ok(IC.Point(Coord(col, IC.Masked(i / 8, 2), IC.Masked(i / 4, 1), IC.Masked(i / 2, 0)),
                  Coord(row, IC.Masked(i / 4, 2), IC.Masked(i / 2, 1), IC.Masked(i, 0))))
    case Rotate90 =>
      Ok(IC.Point(Coord(row, IC.Masked(i / 8, 2), IC.Masked(i / 4, 1), IC.Masked(i / 2, 0)),
                  stride - 1 - Coord(col, IC.Masked(i / 4, 2), IC.Masked(i / 2, 1), IC.Masked(i, 0))))
    case Transpose =>
      Ok(IC.Point(Coord(row, IC.Masked(i / 8, 2), IC.Masked(i / 4, 1), IC.Masked(i / 2, 0)),
                  Coord(col, IC.Masked(i / 4, 2), IC.Masked(i / 2, 1), IC.Masked(i, 0))))
    case Unnamed(_) => Fail(NotSupported)
  }

  /** The tile corner plus the `x_in` bits is the tile corner plus `x_in`. */
  lemma XCoord(tile: nat, i: nat)
    ensures Coord(tile, IC.Masked(i / 4, 2), IC.Masked(i / 2, 1), IC.Masked(i, 0)) == tile * 8 + IC.XIn(i)
  {
    SplitBits(tile, i / 4, i / 2, i);
  }

  /** The tile corner plus the `y_in` bits is the tile corner plus `y_in`. */
  lemma YCoord(tile: nat, i: nat)
    ensures Coord(tile, IC.Masked(i / 8, 2), IC.Masked(i / 4, 1), IC.Masked(i / 2, 0)) == tile * 8 + IC.YIn(i)
  {
    SplitBits(tile, i / 8, i / 4, i / 2);
  }

  /** The coordinate from bit 2 of `x`, bit 1 of `y` and bit 0 of `z` is
      the tile corner plus the same three bits ORed on their own. */
  lemma SplitBits(tile: nat, x: nat, y: nat, z: nat)
    ensures Coord(tile, IC.Masked(x, 2), IC.Masked(y, 1), IC.Masked(z, 0))
      == tile * 8 + Or(Or(IC.Masked(x, 2), IC.Masked(y, 1)), IC.Masked(z, 0))
  {
    var a, b, c := Bit(x, 2), Bit(y, 1), Bit(z, 0);
    assert Pow2(2) == 4 && Pow2(1) == 2 && Pow2(0) == 1;
    assert IC.Masked(x, 2) == 4 * a && IC.Masked(y, 1) == 2 * b && IC.Masked(z, 0) == c;
    TileOr(tile, a, b, c);
    IC.OrThree(a, b, c);
  }

  /** `LoadImage` puts colour `i` where `GetPointSequence` of
      `Cetera.Image.Common` puts point `i`, for every orientation:
      `XiSwizzle` is `TransposeTile`, and an unknown value throws in
      both. */
  lemma LegacyPointAgrees(stride: int, swizzle: Swizzle, i: nat)
    requires stride >= 8
    ensures LegacyPoint(stride, swizzle, i) == IC.PointAt(stride, swizzle.Named(), i)
  {
    LegacyCorners(stride, i, i / 64 % (stride / 8), i / 64 / (stride / 8));
    var col, row := i / 64 % (stride / 8), i / 64 / (stride / 8);
    LegacyCorners(stride, i, col, row);
    match swizzle
    case Default => DefaultCorner(stride, i, col, row);
    case XiSwizzle =>
      XiCorner(stride, i, col, row);
      TransposeTileCorner(stride, i, col, row);
    case Rotate90 => Rotate90Corner(stride, i, col, row);
    case Transpose => TransposeCorner(stride, i, col, row);
    case Unnamed(_) =>
  }

  /** The tile column and row of colour `i`, and its in-tile `x`, `y` as
      the legacy switch ORs them together, for each orientation. */
  lemma LegacyCorners(stride: int, i: nat, col: nat, row: nat)
    requires stride >= 8 && col == i / 64 % (stride / 8) && row == i / 64 / (stride / 8)
    ensures LegacyPoint(stride, Default, i) == Ok(IC.Point(col * 8 + IC.XIn(i), row * 8 + IC.YIn(i)))
    ensures LegacyPoint(stride, Rotate90, i) == Ok(IC.Point(row * 8 + IC.YIn(i), stride - 1 - (col * 8 + IC.XIn(i))))
    ensures LegacyPoint(stride, Transpose, i) == Ok(IC.Point(row * 8 + IC.YIn(i), col * 8 + IC.XIn(i)))
  {
    XCoord(col, i);
    YCoord(row, i);
  }

  /** The same for `XiSwizzle`, which swaps the in-tile bits. */
  lemma XiCorner(stride: int, i: nat, col: nat, row: nat)
    requires stride >= 8 && col == i / 64 % (stride / 8) && row == i / 64 / (stride / 8)
    ensures LegacyPoint(stride, XiSwizzle, i) == Ok(IC.Point(col * 8 + IC.YIn(i), row * 8 + IC.XIn(i)))
  {
    XCoord(row, i);
    YCoord(col, i);
  }

  /** `GetPointSequence`'s point `i` from the same tile column and row. */
  lemma DefaultCorner(stride: int, i: nat, col: nat, row: nat)
    requires stride >= 8 && col == i / 64 % (stride / 8) && row == i / 64 / (stride / 8)
    ensures IC.PointAt(stride, IC.Default, i) == Ok(IC.Point(col * 8 + IC.XIn(i), row * 8 + IC.YIn(i)))
  {
  }

  lemma TransposeTileCorner(stride: int, i: nat, col: nat, row: nat)
    requires stride >= 8 && col == i / 64 % (stride / 8) && row == i / 64 / (stride / 8)
    ensures IC.PointAt(stride, IC.TransposeTile, i) == Ok(IC.Point(col * 8 + IC.YIn(i), row * 8 + IC.XIn(i)))
  {
  }

  lemma Rotate90Corner(stride: int, i: nat, col: nat, row: nat)
    requires stride >= 8 && col == i / 64 % (stride / 8) && row == i / 64 / (stride / 8)
    ensures IC.PointAt(stride, IC.Rotate90, i) == Ok(IC.Point(row * 8 + IC.YIn(i), stride - 1 - (col * 8 + IC.XIn(i))))
  {
  }

  lemma TransposeCorner(stride: int, i: nat, col: nat, row: nat)
    requires stride >= 8 && col == i / 64 % (stride / 8) && row == i / 64 / (stride / 8)
    ensures IC.PointAt(stride, IC.Transpose, i) == Ok(IC.Point(row * 8 + IC.YIn(i), col * 8 + IC.XIn(i)))
  {
  }

  /** The stride of `LoadImage`: the width for swizzle values below 4 and
      the height otherwise, `npo2` when padding, at least 8 -- the stride of
      `GetPointSequence`. */
  method StrideOf(width: int, height: int, swizzle: Swizzle, pad: bool) returns (stride: int)
    ensures stride == IC.Stride(width, height, swizzle.Named(), pad)
  {
    stride := if swizzle.Value() < 4 then width else height;
    if pad {
      stride := IC.NextPowerOf2(stride);
    }
    if stride < 8 {
      stride := 8;
    }
  }

  /** `LoadImage(colors, width, height, swizzle, padToPowerOf2)`: the
      bitmap is created first (a non-positive size throws), the stride is
      the width for swizzle values below 4 and the height otherwise,
      `npo2` when padding, at least 8; colour `i` is set at its point when
      that point is inside, and `i` advances once per colour either way.
      The result is the bitmap `Cetera.Image.Common.Load` builds. */
  method LoadImage(colors: seq<Color>, width: int, height: int, swizzle: Swizzle, pad: bool) returns (r: Result<array<Color>>)
    ensures width <= 0 || height <= 0 ==> r == Fail(Argument)
    ensures width > 0 && height > 0 && swizzle.Unnamed? && colors != [] ==> r == Fail(NotSupported)
    ensures r.Ok? <==> width > 0 && height > 0 && (!swizzle.Unnamed? || colors == [])
    ensures r.Ok? ==> fresh(r.value) && r.value.Length == width * height
    ensures r.Ok? ==> forall j :: 0 <= j < r.value.Length ==>
      r.value[j] == IL.Shown(colors, IL.Targets(width, height, swizzle.Named(), pad, |colors|), j, |colors|)
  {
    if width <= 0 || height <= 0 {
      return Fail(Argument);
    }
    var pixels := new Color[width * height](_ => IL.Blank);
    var stride := StrideOf(width, height, swizzle, pad);
    ghost var ts := IL.Targets(width, height, swizzle.Named(), pad, if swizzle.Unnamed? then 0 else |colors|);
    var i := 0;
    while i < |colors|
      invariant 0 <= i <= |colors| && (i == 0 || !swizzle.Unnamed?)
      invariant forall j :: 0 <= j < pixels.Length ==> pixels[j] == IL.Shown(colors, ts, j, i)
    {
      var point := LegacyPoint(stride, swizzle, i);
      if point.Fail? {
        return Fail(point.error);
      }
      LegacyPointAgrees(stride, swizzle, i);
      IL.TargetsAt(width, height, swizzle.Named(), pad, |ts|, i, point.value);
      IL.Place(pixels, colors, ts, i, point.value, width, height);
      i := i + 1;
    }
    return Ok(pixels);
  }
}
