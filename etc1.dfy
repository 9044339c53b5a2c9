/** `Cetera.Image.Etc1`: the ETC1 block of the Khronos
    OES_compressed_ETC1_RGB8_texture extension, read as a little-endian
    struct (two 16-bit selector planes, a flags byte, then B, G and R), its
    bit-field accessors, the channel arithmetic and the decoding of one
    pixel. */
module Etc1 {
  import opened Primitives

  /** The `RGB` struct (its padding byte is left out). */
  datatype RGB = RGB(r: byte, g: byte, b: byte)

  /** `new RGB(int r, int g, int b)`: each channel is cast to `byte`. */
  function MakeRGB(r: int, g: int, b: int): (c: RGB)
    ensures 0 <= r < 256 && 0 <= g < 256 && 0 <= b < 256 ==> c == RGB(r, g, b)
  {
    RGB(ToByte(r), ToByte(g), ToByte(b))
  }

  /** `System.Drawing.Color` as the decoder builds it: alpha, red, green, blue. */
  datatype Color = Color(a: byte, r: byte, g: byte, b: byte)
  {
    function Rgb(): RGB { RGB(r, g, b) }
  }

  /** `Math.Max(0, Math.Min(n, 255))`. */
  function Clamp(n: int): (r: byte)
    ensures 0 <= n <= 255 ==> r == n
    ensures n < 0 ==> r == 0
    ensures n > 255 ==> r == 255
  {
    if n > 255 then 255 else if n < 0 then 0 else n
  }

  /** `((n + 4) % 8) - 4` with C#'s remainder. */
  function Sign3(n: int): int
  {
    CsRem(n + 4, 8) - 4
  }

  /** A three-bit field read back as a signed difference: every difference
      from -4 to 3 survives the trip through `(d + 8) % 8`, and every field
      value reads as such a difference. */
  lemma Sign3RoundTrip(d: int)
    requires -4 <= d <= 3
    ensures Sign3((d + 8) % 8) == d
  {
  }

  lemma Sign3Range(n: int)
    requires 0 <= n < 8
    ensures -4 <= Sign3(n) <= 3 && (Sign3(n) + 8) % 8 == n
  {
  }

  /** `(n << 3) | (n >> 2)`: a five-bit value widened to eight bits. */
  function Extend5to8(n: nat): nat
  {
    Or(n * 8, n / 4)
  }

  /** For five-bit values the OR is a sum: `8n + n/4`, from 0 up to 255. */
  lemma Extend5to8Sum(n: nat)
    requires n < 32
    ensures Extend5to8(n) == 8 * n + n / 4 <= 255
    ensures n == 31 ==> Extend5to8(n) == 255
  {
    assert Pow2(3) == 8;
    OrDisjoint(n, n / 4, 3);
  }

  /** `Square(n)`: `n * n`, written as the sum of the first `|n|` odd
      numbers so that unfolding it brings in no product of unknowns;
      `SquareIsProduct` shows it is the product. */
  function Square(n: int): (s: nat)
    ensures s == 0 <==> n == 0
    decreases if n < 0 then 1 - n else n
  {
    if n < 0 then Square(-n)
    else if n == 0 then 0
    else Square(n - 1) + 2 * n - 1
  }

  lemma {:induction false} SquareIsProduct(n: int)
    ensures Square(n) == n * n
    decreases if n < 0 then 1 - n else n
  {
    if n < 0 {
      SquareIsProduct(-n);
      assert (-n) * (-n) == n * n;
    } else if n > 0 {
      SquareIsProduct(n - 1);
      assert (n - 1) * n == n * n - n;
      assert (n - 1) * (n - 1) == (n - 1) * n - (n - 1);
    }
  }

  /** `2 r^2 + 4 g^2 + 3 b^2`, the perceptual error of a channel difference. */
  function ErrorRGB(r: int, g: int, b: int): (e: int)
    ensures e >= 0
    ensures e == 0 <==> r == 0 && g == 0 && b == 0
  {
    2 * Square(r) + 4 * Square(g) + 3 * Square(b)
  }

  /** `operator -(RGB c1, RGB c2)`. */
  function Diff(c1: RGB, c2: RGB): (e: int)
    ensures 0 <= e <= 9 * 255 * 255
    ensures e == 0 <==> c1 == c2
  {
    Square255(c1.r - c2.r);
    Square255(c1.g - c2.g);
    Square255(c1.b - c2.b);
    ErrorRGB(c1.r - c2.r, c1.g - c2.g, c1.b - c2.b)
  }

  /** A channel difference squares to at most `255 * 255`. */
  lemma Square255(d: int)
    requires -255 <= d <= 255
    ensures Square(d) <= 255 * 255
  {
    SquareIsProduct(d);
    if d < 0 {
      assert d * d == (-d) * (-d);
      SquareBelow(-d);
    } else {
      SquareBelow(d);
    }
  }

  lemma SquareBelow(e: nat)
    requires e <= 255
    ensures e * e <= 255 * 255
  {
    MulLe(e, e, 255);
    MulLe(255, e, 255);
  }

  lemma MulLe(a: nat, b: int, c: int)
    requires b <= c
    ensures a * b <= a * c
  {
    assert a * c - a * b == a * (c - b);
  }

  /** `operator +(RGB c, int mod)`: the modifier added to each channel,
      clamped. */
  function AddModifier(c: RGB, mod: int): (r: RGB)
    ensures r == RGB(Clamp(c.r + mod), Clamp(c.g + mod), Clamp(c.b + mod))
  {
    MakeRGB(Clamp(c.r + mod), Clamp(c.g + mod), Clamp(c.b + mod))
  }

  /** `RGB.Scale(limit)`: a 4-bit colour times 17 when `limit` is 16, a
      5-bit colour widened otherwise; the channel is cast back to `byte`. */
  function Scale(c: RGB, limit: int): RGB
  {
    if limit == 16 then MakeRGB(c.r * 17, c.g * 17, c.b * 17)
    else MakeRGB(Extend5to8(c.r), Extend5to8(c.g), Extend5to8(c.b))
  }

  /** `RGB.Unscale(limit)`: `R * limit / 256` on each channel. */
  function Unscale(c: RGB, limit: int): RGB
  {
    MakeRGB(CsDiv(c.r * limit, 256), CsDiv(c.g * limit, 256), CsDiv(c.b * limit, 256))
  }

  /** A colour below the limit in every channel. */
  predicate Below(c: RGB, limit: int)
  {
    c.r < limit && c.g < limit && c.b < limit
  }

  lemma UnscaleChannel(v: nat, limit: int)
    requires limit == 16 || limit == 32
    requires v < limit
    ensures limit == 16 ==> CsDiv(v * 17 * limit, 256) == v
    ensures limit == 32 ==> CsDiv(Extend5to8(v) * limit, 256) == v
  {
    if limit == 32 {
      Extend5to8Sum(v);
      Quotient((8 * v + v / 4) * 32, 256, v);
    } else {
      Quotient(v * 17 * 16, 256, v);
    }
  }

  /** `Unscale` undoes `Scale` for the 16- and 32-level colours a block
      stores. */
  lemma UnscaleScale(c: RGB, limit: int)
    requires limit == 16 || limit == 32
    requires Below(c, limit)
    ensures Unscale(Scale(c, limit), limit) == c
  {
    UnscaleChannel(c.r, limit);
    UnscaleChannel(c.g, limit);
    UnscaleChannel(c.b, limit);
    if limit == 32 {
      Extend5to8Sum(c.r);
      Extend5to8Sum(c.g);
      Extend5to8Sum(c.b);
    }
  }


  // ---------------------------------------------------------------------
  // The block

  /** The `modifiers` intensity tables. */
  const Modifiers: seq<seq<int>> := [
    [2, 8, -2, -8],
    [5, 17, -5, -17],
    [9, 29, -9, -29],
    [13, 42, -13, -42],
    [18, 60, -18, -60],
    [24, 80, -24, -80],
    [33, 106, -33, -106],
    [47, 183, -47, -183]
  ]

  /** `modifiers[table][j]`. */
  function Modifier(table: nat, j: nat): int
    requires table < 8 && j < 4
  {
    Modifiers[table][j]
  }

  /** The order in which the decoder visits the pixels of a block. */
  const Order3ds: seq<nat> := [0, 4, 1, 5, 8, 12, 9, 13, 2, 6, 3, 7, 10, 14, 11, 15]

  /** The `Block` struct in its field order. */
  datatype Block = Block(lsb: bv16, msb: bv16, flags: bv8, b: byte, g: byte, r: byte)
  {
    /** `(flags & 1) == 1`. */
    function FlipBit(): bool { flags & 1 == 1 }

    /** `(flags & 2) == 2`. */
    function DiffBit(): bool { flags & 2 == 2 }

    /** `(flags >> 5) & 7`. */
    function Table0(): (t: nat)
      ensures t < 8
    {
      ((flags >> 5) & 7) as nat
    }

    /** `(flags >> 2) & 7`. */
    function Table1(): (t: nat)
      ensures t < 8
    {
      ((flags >> 2) & 7) as nat
    }

    /** The `FlipBit` setter: `(byte)((flags & ~1) | (value ? 1 : 0))`. */
    function WithFlipBit(v: bool): Block
    {
      this.(flags := (flags & !1) | (if v then 1 else 0))
    }

    /** The `DiffBit` setter. */
    function WithDiffBit(v: bool): Block
    {
      this.(flags := (flags & !2) | (if v then 2 else 0))
    }

    /** The `Table0` setter `(byte)((flags & ~(7 << 5)) | (value << 5))`: the
        cast keeps the low three bits of `value` in bits 5 to 7. */
    function WithTable0(v: int): Block
    {
      this.(flags := (flags & !(7 << 5)) | (((v % 8) as bv8) << 5))
    }

    /** The `Table1` setter `(byte)((flags & ~(7 << 2)) | (value << 2))`: the
        low six bits of `value` land in bits 2 to 7, so a value above 7
        also sets bits of `Table0`. */
    function WithTable1(v: int): Block
    {
      this.(flags := (flags & !(7 << 2)) | (((v % 64) as bv8) << 2))
    }

    /** `ColorDepth`: 32 levels in differential mode, 16 otherwise. */
    function ColorDepth(): int { if DiffBit() then 32 else 16 }

    /** The indexer `(MSB >> i) % 2 * 2 + (LSB >> i) % 2`: the selector of
        pixel `i`, a bit of each plane (the shift count is masked to five
        bits, and bits past 15 of the widened planes are 0). */
    function Selector(i: int): (s: nat)
      ensures s < 4
    {
      2 * PlaneBit(msb, i) + PlaneBit(lsb, i)
    }

    /** `Color0`: the first base colour at the block's colour depth. */
    function Color0(): RGB
    {
      var d := ColorDepth();
      MakeRGB(r * d / 256, g * d / 256, b * d / 256)
    }

    /** `Color1`: the low nibbles in individual mode, `Color0` plus a signed
        three-bit difference in differential mode. */
    function Color1(): RGB
    {
      if !DiffBit() then MakeRGB(r % 16, g % 16, b % 16)
      else
        var c0 := Color0();
        MakeRGB(c0.r + Sign3(r % 8), c0.g + Sign3(g % 8), c0.b + Sign3(b % 8))
    }
  }

  /** Bit `p` of a byte, `(x >> p) % 2`, one shift at a time. */
  function BitAt(x: bv8, p: nat): (bit: nat)
    requires p < 8
    ensures bit < 2
  {
    if p == 0 then (if x & 1 == 1 then 1 else 0) else BitAt(x >> 1, p - 1)
  }

  /** The low byte of a selector plane. */
  function Low(w: bv16): bv8 { (w & 0xFF) as bv8 }

  /** The high byte of a selector plane. */
  function High(w: bv16): bv8 { (w >> 8) as bv8 }

  /** `(plane >> i) % 2` on the plane widened to `int`: bit `i % 32` of the
      plane, which is 0 past bit 15. */
  function PlaneBit(w: bv16, i: int): (bit: nat)
    ensures bit < 2
  {
    var s := i % 32;
    if s < 8 then BitAt(Low(w), s) else if s < 16 then BitAt(High(w), s - 8) else 0
  }

  /** Within the sixteen bits of a plane the shift count needs no masking. */
  lemma PlaneBitHalves(w: bv16, i: nat)
    requires i < 16
    ensures PlaneBit(w, i) == if i < 8 then BitAt(Low(w), i) else BitAt(High(w), i - 8)
  {
    assert i % 32 == i;
  }

  /** Each setter changes only its own bit of the flags and the getter then
      returns the value set. */
  lemma FlipBitSetter(blk: Block, v: bool)
    ensures blk.WithFlipBit(v).FlipBit() == v
    ensures blk.WithFlipBit(v).flags & !1 == blk.flags & !1
    ensures blk.WithFlipBit(v) == blk.(flags := blk.WithFlipBit(v).flags)
  {
  }

  lemma DiffBitSetter(blk: Block, v: bool)
    ensures blk.WithDiffBit(v).DiffBit() == v
    ensures blk.WithDiffBit(v).flags & !2 == blk.flags & !2
    ensures blk.WithDiffBit(v) == blk.(flags := blk.WithDiffBit(v).flags)
  {
  }

  lemma Table0Setter(blk: Block, v: int)
    requires 0 <= v < 8
    ensures blk.WithTable0(v).Table0() == v
    ensures blk.WithTable0(v).flags & 0x1F == blk.flags & 0x1F
    ensures blk.WithTable0(v) == blk.(flags := blk.WithTable0(v).flags)
  {
  }

  lemma Table1Setter(blk: Block, v: int)
    requires 0 <= v < 8
    ensures blk.WithTable1(v).Table1() == v
    ensures blk.WithTable1(v).flags & 0xE3 == blk.flags & 0xE3
    ensures blk.WithTable1(v) == blk.(flags := blk.WithTable1(v).flags)
  {
  }

  /** The four fields of the flags byte are independent: each getter reads
      back through the setters of the other three. */
  lemma FlagFieldsIndependent(blk: Block, flip: bool, diff: bool, t0: int, t1: int)
    requires 0 <= t0 < 8 && 0 <= t1 < 8
    ensures var b := blk.WithDiffBit(diff).WithFlipBit(flip).WithTable0(t0).WithTable1(t1);
      b.DiffBit() == diff && b.FlipBit() == flip && b.Table0() == t0 && b.Table1() == t1
  {
    var b1 := blk.WithDiffBit(diff);
    var b2 := b1.WithFlipBit(flip);
    var b3 := b2.WithTable0(t0);
    var b4 := b3.WithTable1(t1);
    DiffBitSetter(blk, diff);
    FlipBitSetter(b1, flip);
    Table0Setter(b2, t0);
    Table1Setter(b3, t1);
    assert b2.DiffBit() == diff by { assert b2.flags & 2 == b1.flags & 2; }
    assert b3.DiffBit() == diff && b3.FlipBit() == flip by { assert b3.flags & 3 == b2.flags & 3; }
    assert b4.DiffBit() == diff && b4.FlipBit() == flip && b4.Table0() == t0 by {
      assert b4.flags & 0xE3 == b3.flags & 0xE3;
    }
  }

  /** Individual mode: `R = c0.R * 16 + c1.R` is read back by `Color0`
      (`R * 16 / 256`) and `Color1` (`R % 16`) when both colours have
      four-bit channels. */
  lemma IndividualPacking(blk: Block, c0: RGB, c1: RGB)
    requires Below(c0, 16) && Below(c1, 16) && !blk.DiffBit()
    requires blk.r == c0.r * 16 + c1.r && blk.g == c0.g * 16 + c1.g && blk.b == c0.b * 16 + c1.b
    ensures blk.Color0() == c0 && blk.Color1() == c1
  {
    IndividualChannel(c0.r, c1.r);
    IndividualChannel(c0.g, c1.g);
    IndividualChannel(c0.b, c1.b);
  }

  lemma IndividualChannel(v0: nat, v1: nat)
    requires v0 < 16 && v1 < 16
    ensures (v0 * 16 + v1) * 16 / 256 == v0 && (v0 * 16 + v1) % 16 == v1
  {
    Quotient((v0 * 16 + v1) * 16, 256, v0);
    Quotient(v0 * 16 + v1, 16, v0);
  }

  /** Differential mode: `R = c0.R * 8 + (c1.R - c0.R + 8) % 8` is read
      back by `Color0` (`R * 32 / 256`) and `Color1` (`Color0` plus
      `Sign3(R % 8)`) when `c0` has five-bit channels and each channel of
      `c1` lies within -4..3 of it. */
  lemma DifferentialPacking(blk: Block, c0: RGB, c1: RGB)
    requires Below(c0, 32) && blk.DiffBit()
    requires Near(c0, c1)
    requires blk.r == c0.r * 8 + CsRem(c1.r - c0.r + 8, 8)
    requires blk.g == c0.g * 8 + CsRem(c1.g - c0.g + 8, 8)
    requires blk.b == c0.b * 8 + CsRem(c1.b - c0.b + 8, 8)
    ensures blk.Color0() == c0 && blk.Color1() == c1
  {
    DifferentialChannel(blk.r, c0.r, c1.r);
    DifferentialChannel(blk.g, c0.g, c1.g);
    DifferentialChannel(blk.b, c0.b, c1.b);
    assert blk.ColorDepth() == 32;
    assert blk.Color0() == c0;
    assert blk.Color1() == MakeRGB(c0.r + Sign3(blk.r % 8), c0.g + Sign3(blk.g % 8), c0.b + Sign3(blk.b % 8));
  }

  /** Each channel of `c1` within -4..3 of that of `c0`: the `dr`, `dg`,
      `db` filter of `Check`. */
  predicate Near(c0: RGB, c1: RGB)
  {
    && -4 <= c1.r - c0.r < 4 && -4 <= c1.g - c0.g < 4 && -4 <= c1.b - c0.b < 4
  }

  lemma DifferentialChannel(w: int, v0: nat, v1: nat)
    requires v0 < 32 && -4 <= v1 - v0 < 4
    requires w == v0 * 8 + CsRem(v1 - v0 + 8, 8)
    ensures w * 32 / 256 == v0 && v0 + Sign3(w % 8) == v1
  {
    var d := CsRem(v1 - v0 + 8, 8);
    assert d == (v1 - v0 + 8) % 8;
    Quotient(w * 32, 256, v0);
    Quotient(w, 8, v0);
    Sign3RoundTrip(v1 - v0);
  }

  // ---------------------------------------------------------------------
  // Decoding one pixel

  /** `PixelData`: the 64-bit alpha word and the colour block. */
  datatype PixelData = PixelData(alpha: nat, block: Block)

  /** Nibble `i` of a word, `(word >> (4 * i)) % 16`. */
  function Nibble(word: nat, i: nat): (n: nat)
    ensures n < 16
  {
    if i == 0 then word % 16 else Nibble(word / 16, i - 1)
  }

  /** `(i & flipbitmask) != 0`: whether pixel `i` lies in the second
      sub-block, with the mask 2 when the block is flipped and 8 otherwise. */
  function InSecond(flip: bool, i: nat): bool
    requires i < 16
  {
    (i as bv8) & (if flip then 2 else 8) != 0
  }

  /** The colour `Decoder.Get` queues for pixel `i`: the base colour and
      intensity table of the pixel's sub-block, plus the modifier its
      selector picks, with alpha `((Alpha >> 4i) % 16) * 17`. */
  function Pixel(data: PixelData, i: nat): (c: Color)
    requires i < 16
    ensures c.a == Nibble(data.alpha, i) * 17 && c.Rgb() == PixelRgb(data.block, i)
  {
    var c := PixelRgb(data.block, i);
    Color(Nibble(data.alpha, i) * 17, c.r, c.g, c.b)
  }

  /** The colour of pixel `i` of a block: `basec + mod[Block[i]]`. */
  function PixelRgb(blk: Block, i: nat): RGB
    requires i < 16
  {
    var second := InSecond(blk.FlipBit(), i);
    var base := Scale(if second then blk.Color1() else blk.Color0(), blk.ColorDepth());
    AddModifier(base, Modifier(if second then blk.Table1() else blk.Table0(), blk.Selector(i)))
  }

  /** A block whose sixteen pixels are the given colours, pixel `i` being
      `colors[i]`. */
  predicate DecodesTo(blk: Block, colors: seq<RGB>)
  {
    |colors| == 16 && forall i :: 0 <= i < 16 ==> PixelRgb(blk, i) == colors[i]
  }

  /** The sixteen colours of a block in the order `Decoder.Get` queues them. */
  function DecodeBlock(data: PixelData): (cs: seq<Color>)
    ensures |cs| == 16
    ensures forall n :: 0 <= n < 16 ==> cs[n] == Pixel(data, Order3ds[n])
  {
    seq(16, n requires 0 <= n < 16 => Pixel(data, Order3ds[n]))
  }

  /** `Order3ds` is a permutation of the sixteen pixels and applying it four
      times is the identity, so applying it three times inverts it. */
  lemma Order3dsFourth()
    ensures forall n :: 0 <= n < 16 ==> Order3ds[n] < 16
    ensures forall n :: 0 <= n < 16 ==> Order3ds[Order3ds[Order3ds[Order3ds[n]]]] == n
  {
  }

  /** The pixel split of the decoder, `i & mask`, is the split
      `(j / mask) % 2` the encoder uses. */
  lemma SplitAgrees(flip: bool, i: nat)
    requires i < 16
    ensures InSecond(flip, i) <==> (i / (if flip then 2 else 8)) % 2 == 1
  {
    var bi := i as bv8;
    assert bi == 0 || bi == 1 || bi == 2 || bi == 3 || bi == 4 || bi == 5 || bi == 6 || bi == 7
        || bi == 8 || bi == 9 || bi == 10 || bi == 11 || bi == 12 || bi == 13 || bi == 14 || bi == 15;
  }
}
