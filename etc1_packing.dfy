/** `Optimizer.FromSet`: the packing of a pair of sub-block solutions into
    an ETC1 block, the sub-block split `Check` uses, and the theorem that a
    block packed from two exact solutions decodes to the sixteen colours. */
module Etc1Packing {
  import opened Primitives
  import opened Etc1
  import opened Etc1Optimizer

  /** `SolutionSet`: the flip and diff choices and one solution per
      sub-block. */
  datatype SolutionSet = SolutionSet(flip: bool, diff: bool, soln0: Solution, soln1: Solution)
  {
    /** `total_error`. */
    function TotalError(): int { soln0.error + soln1.error }

    /** The indexer `this[i]`. */
    function At(i: int): Solution { if i == 0 then soln0 else soln1 }
  }

  // ---------------------------------------------------------------------
  // Selector planes

  /** `(m & 0xC0) * 64 + (m & 0x30) * 16 + (m & 0xC) * 4 + (m & 0x3)`:
      pairs of bits moved to bit positions 0, 4, 8 and 12.  Each product is
      a shift of a masked byte, below 2^16, so the 16-bit shifts here give
      the same value. */
  function Spread(m: bv8): bv16
  {
    var w := m as bv16;
    ((w & 0xC0) << 6) + ((w & 0x30) << 4) + ((w & 0xC) << 2) + (w & 0x3)
  }

  /** The flipped plane `(ushort)(m0 + 4 * m1)` of two spread planes; the
      16-bit arithmetic is the `(ushort)` cast. */
  function FlipPlane(m0: bv8, m1: bv8): bv16
  {
    Spread(m0) + (Spread(m1) << 2)
  }

  /** The unflipped plane `(ushort)(m0 + 256 * m1)`. */
  function StackPlane(m0: bv8, m1: bv8): bv16
  {
    (m0 as bv16) + ((m1 as bv16) << 8)
  }

  /** Where bit `p` of sub-block `s`'s plane lands in the block's plane, and
      so which pixel of the block is pixel `p` of the sub-block. */
  function Pos(flip: bool, s: nat, p: nat): (i: nat)
    requires s < 2 && p < 8
    ensures i < 16
  {
    if flip then 4 * (p / 2) + p % 2 + 2 * s else 8 * s + p
  }

  /** The low byte of the unflipped plane is the first sub-block's plane. */
  lemma StackLow(m0: bv8, m1: bv8)
    ensures Low(StackPlane(m0, m1)) == m0
  {
  }

  /** The high byte of the unflipped plane is the second sub-block's plane. */
  lemma StackHigh(m0: bv8, m1: bv8)
    ensures High(StackPlane(m0, m1)) == m1
  {
  }

  /** The high byte of a flipped plane is the low byte of the flipped plane
      of the two upper nibbles. */
  lemma FlipHigh(m0: bv8, m1: bv8)
    ensures High(FlipPlane(m0, m1)) == Low(FlipPlane(m0 >> 4, m1 >> 4))
  {
  }

  /** Two shifts by one are a shift by two. */
  lemma ShiftTwice(x: bv8)
    ensures (x >> 1) >> 1 == x >> 2
  {
  }

  /** Bit `p` of a byte is bit `p - 2` of the byte shifted by two. */
  lemma BitShift2(x: bv8, p: nat)
    requires 2 <= p < 8
    ensures BitAt(x, p) == BitAt(x >> 2, p - 2)
  {
    assert BitAt(x, p) == BitAt(x >> 1, p - 1);
    ShiftTwice(x);
  }

  /** Bit `p` of a byte is bit `p - 4` of the byte shifted by four. */
  lemma BitShift4(x: bv8, p: nat)
    requires 4 <= p < 8
    ensures BitAt(x, p) == BitAt(x >> 4, p - 4)
  {
    BitShift2(x, p);
    BitShift2(x >> 2, p - 2);
    assert (x >> 2) >> 2 == x >> 4;
  }

  /** Two pixels further into a flipped sub-block is four bits further into
      the plane. */
  lemma PosStep(s: nat, p: nat)
    requires s < 2 && 2 <= p < 8
    ensures Pos(true, s, p) == Pos(true, s, p - 2) + 4
  {
    assert p / 2 == (p - 2) / 2 + 1 && p % 2 == (p - 2) % 2;
  }

  /** Bit `p` of sub-block `s`'s plane is bit `Pos(false, s, p)` of the
      unflipped block plane. */
  lemma StackPlaneBit(m0: bv8, m1: bv8, s: nat, p: nat)
    requires s < 2 && p < 8
    ensures PlaneBit(StackPlane(m0, m1), Pos(false, s, p)) == BitAt(if s == 0 then m0 else m1, p)
  {
    PlaneBitHalves(StackPlane(m0, m1), Pos(false, s, p));
    StackLow(m0, m1);
    StackHigh(m0, m1);
  }

  /** Within the low byte of a flipped plane, bit `p < 4` of sub-block `s`'s
      plane is bit `Pos(true, s, p)`. */
  lemma FlipLowBit(m0: bv8, m1: bv8, s: nat, p: nat)
    requires s < 2 && p < 4
    ensures BitAt(Low(FlipPlane(m0, m1)), Pos(true, s, p)) == BitAt(if s == 0 then m0 else m1, p)
  {
    var lo := Low(FlipPlane(m0, m1));
    BitAtMask(lo, Pos(true, s, p));
    BitAtMask(if s == 0 then m0 else m1, p);
    FlipLowMask(m0, m1, s, p);
  }

  /** The low byte of a flipped plane interleaves the low pairs of bits of
      the two sub-block planes. */
  lemma FlipLow(m0: bv8, m1: bv8)
    ensures Low(FlipPlane(m0, m1)) == (m0 & 3) | ((m1 & 3) << 2) | ((m0 & 12) << 2) | ((m1 & 12) << 4)
  {
  }

  /** `FlipLowBit` on the masks, pixel by pixel. */
  lemma FlipLowMask(m0: bv8, m1: bv8, s: nat, p: nat)
    requires s < 2 && p < 4
    ensures Bit8(Low(FlipPlane(m0, m1)), Pos(true, s, p)) == Bit8(if s == 0 then m0 else m1, p)
  {
    FlipLow(m0, m1);
    var lo := (m0 & 3) | ((m1 & 3) << 2) | ((m0 & 12) << 2) | ((m1 & 12) << 4);
    if s == 0 {
      if p == 0 { assert lo & 1 == m0 & 1; }
      else if p == 1 { assert lo & 2 == m0 & 2; }
      else if p == 2 { assert lo & 16 == (m0 & 4) << 2; }
      else { assert lo & 32 == (m0 & 8) << 2; }
    } else {
      if p == 0 { assert lo & 4 == (m1 & 1) << 2; }
      else if p == 1 { assert lo & 8 == (m1 & 2) << 2; }
      else if p == 2 { assert lo & 64 == (m1 & 4) << 4; }
      else { assert lo & 128 == (m1 & 8) << 4; }
    }
  }

  /** Bit `p` of sub-block `s`'s plane is bit `Pos(true, s, p)` of the
      flipped block plane. */
  lemma FlipPlaneBit(m0: bv8, m1: bv8, s: nat, p: nat)
    requires s < 2 && p < 8
    ensures PlaneBit(FlipPlane(m0, m1), Pos(true, s, p)) == BitAt(if s == 0 then m0 else m1, p)
  {
    PlaneBitHalves(FlipPlane(m0, m1), Pos(true, s, p));
    if p < 4 {
      FlipLowBit(m0, m1, s, p);
    } else {
      PosStep(s, p);
      PosStep(s, p - 2);
      FlipHigh(m0, m1);
      FlipLowBit(m0 >> 4, m1 >> 4, s, p - 4);
      BitShift4(if s == 0 then m0 else m1, p);
    }
  }

  /** The shifting bit of a byte agrees with the masking one the optimizer
      reads its planes with. */
  lemma {:induction false} BitAtMask(x: bv8, p: nat)
    requires p < 8
    ensures BitAt(x, p) == Bit8(x, p)
  {
    if p > 0 {
      BitAtMask(x >> 1, p - 1);
      MaskStep(p);
      ShiftedMask(x, Masks8[p - 1]);
    }
  }

  /** Each mask is the one before it shifted by one, and below the top bit. */
  lemma MaskStep(p: nat)
    requires 0 < p < 8
    ensures Masks8[p] == Masks8[p - 1] << 1 && Masks8[p - 1] & 0x80 == 0
  {
  }

  /** Testing a bit of `x >> 1` is testing the next bit of `x`. */
  lemma ShiftedMask(x: bv8, m: bv8)
    requires m & 0x80 == 0
    ensures ((x >> 1) & m != 0) == (x & (m << 1) != 0)
  {
  }

  // ---------------------------------------------------------------------
  // FromSet

  /** `(byte)(c0 * 8 + (c1 - c0 + 8) % 8)`: a differential-mode channel. */
  function PackDifferential(v0: int, v1: int): byte
  {
    ToByte(v0 * 8 + CsRem(v1 - v0 + 8, 8))
  }

  /** `(byte)(c0 * 16 + c1)`: an individual-mode channel. */
  function PackIndividual(v0: int, v1: int): byte
  {
    ToByte(v0 * 16 + v1)
  }

  /** `FromSet(bestsolns)`: flags through the property setters in the
      order of the object initialiser, then the planes, then the colours. */
  function FromSet(solns: SolutionSet): Block
  {
    var s0 := solns.soln0;
    var s1 := solns.soln1;
    var blk := Block(0, 0, 0, 0, 0, 0).WithDiffBit(solns.diff).WithFlipBit(solns.flip)
      .WithTable0(s0.table).WithTable1(s1.table);
    var blk := if solns.flip
      then blk.(msb := FlipPlane(s0.selectorMSB, s1.selectorMSB), lsb := FlipPlane(s0.selectorLSB, s1.selectorLSB))
      else blk.(msb := StackPlane(s0.selectorMSB, s1.selectorMSB), lsb := StackPlane(s0.selectorLSB, s1.selectorLSB));
    var c0 := s0.blockColour;
    var c1 := s1.blockColour;
    if solns.diff then
      blk.(r := PackDifferential(c0.r, c1.r), g := PackDifferential(c0.g, c1.g), b := PackDifferential(c0.b, c1.b))
    else
      blk.(r := PackIndividual(c0.r, c1.r), g := PackIndividual(c0.g, c1.g), b := PackIndividual(c0.b, c1.b))
  }

  /** A packed block's flags and tables read back as the ones chosen. */
  lemma FromSetFlags(solns: SolutionSet)
    requires 0 <= solns.soln0.table < 8 && 0 <= solns.soln1.table < 8
    ensures var blk := FromSet(solns);
      && blk.FlipBit() == solns.flip && blk.DiffBit() == solns.diff
      && blk.Table0() == solns.soln0.table && blk.Table1() == solns.soln1.table
  {
    FlagFieldsIndependent(Block(0, 0, 0, 0, 0, 0), solns.flip, solns.diff, solns.soln0.table, solns.soln1.table);
  }

  /** A differential channel packed from close enough levels is its exact
      value, with no byte truncation. */
  lemma PackDifferentialExact(v0: nat, v1: nat)
    requires v0 < 32 && -4 <= v1 - v0 < 4
    ensures PackDifferential(v0, v1) as int == v0 * 8 + CsRem(v1 - v0 + 8, 8)
  {
    assert 0 <= CsRem(v1 - v0 + 8, 8) < 8;
  }

  /** An individual channel packed from two nibbles is its exact value. */
  lemma PackIndividualExact(v0: nat, v1: nat)
    requires v0 < 16 && v1 < 16
    ensures PackIndividual(v0, v1) as int == v0 * 16 + v1
  {
  }

  /** A packed block's base colours read back as the solutions' colours. */
  lemma FromSetColours(solns: SolutionSet)
    requires 0 <= solns.soln0.table < 8 && 0 <= solns.soln1.table < 8
    requires var limit := if solns.diff then 32 else 16;
      Below(solns.soln0.blockColour, limit) && Below(solns.soln1.blockColour, limit)
    requires solns.diff ==> Near(solns.soln0.blockColour, solns.soln1.blockColour)
    ensures var blk := FromSet(solns);
      && blk.Color0() == solns.soln0.blockColour && blk.Color1() == solns.soln1.blockColour
      && blk.ColorDepth() == (if solns.diff then 32 else 16)
  {
    FromSetFlags(solns);
    if solns.diff {
      DifferentialColours(solns);
    } else {
      IndividualColours(solns);
    }
  }

  lemma DifferentialColours(solns: SolutionSet)
    requires solns.diff && Below(solns.soln0.blockColour, 32) && Below(solns.soln1.blockColour, 32)
    requires Near(solns.soln0.blockColour, solns.soln1.blockColour)
    ensures var blk := FromSet(solns);
      blk.Color0() == solns.soln0.blockColour && blk.Color1() == solns.soln1.blockColour
  {
    var blk := FromSet(solns);
    var c0 := solns.soln0.blockColour;
    var c1 := solns.soln1.blockColour;
    PackDifferentialExact(c0.r, c1.r);
    PackDifferentialExact(c0.g, c1.g);
    PackDifferentialExact(c0.b, c1.b);
    DifferentialPacking(blk, c0, c1);
  }

  lemma IndividualColours(solns: SolutionSet)
    requires !solns.diff && Below(solns.soln0.blockColour, 16) && Below(solns.soln1.blockColour, 16)
    ensures var blk := FromSet(solns);
      blk.Color0() == solns.soln0.blockColour && blk.Color1() == solns.soln1.blockColour
  {
    var blk := FromSet(solns);
    var c0 := solns.soln0.blockColour;
    var c1 := solns.soln1.blockColour;
    PackIndividualExact(c0.r, c1.r);
    PackIndividualExact(c0.g, c1.g);
    PackIndividualExact(c0.b, c1.b);
    IndividualPacking(blk, c0, c1);
  }

  /** The selector of each pixel of a packed block is the one its
      sub-block's solution chose for it. */
  lemma FromSetSelectors(solns: SolutionSet)
    ensures forall s, p :: 0 <= s < 2 && 0 <= p < 8 ==>
      FromSet(solns).Selector(Pos(solns.flip, s, p)) == SelectorOf(solns.At(s), p)
  {
    var blk := FromSet(solns);
    forall s, p | 0 <= s < 2 && 0 <= p < 8
      ensures blk.Selector(Pos(solns.flip, s, p)) == SelectorOf(solns.At(s), p)
    {
      var s0 := solns.soln0;
      var s1 := solns.soln1;
      if solns.flip {
        FlipPlaneBit(s0.selectorMSB, s1.selectorMSB, s, p);
        FlipPlaneBit(s0.selectorLSB, s1.selectorLSB, s, p);
      } else {
        StackPlaneBit(s0.selectorMSB, s1.selectorMSB, s, p);
        StackPlaneBit(s0.selectorLSB, s1.selectorLSB, s, p);
      }
      BitAtMask(solns.At(s).selectorMSB, p);
      BitAtMask(solns.At(s).selectorLSB, p);
    }
  }

  // ---------------------------------------------------------------------
  // The sub-block split of Check

  /** `colors.Where((c, j) => (j / m) % 2 == s)` over the first `n`
      colours. */
  function Where(colors: seq<RGB>, m: nat, s: nat, n: nat): (r: seq<RGB>)
    requires 0 < m && n <= |colors|
    ensures |r| <= n
  {
    if n == 0 then []
    else Where(colors, m, s, n - 1) + (if ((n - 1) / m) % 2 == s then [colors[n - 1]] else [])
  }

  /** `allpixels0` (`s == 0`) or `allpixels1` (`s == 1`): the pixels whose
      index `j` has `(j / (flip ? 2 : 8)) % 2 == s`. */
  function SubBlock(colors: seq<RGB>, flip: bool, s: nat): seq<RGB>
  {
    Where(colors, if flip then 2 else 8, s, |colors|)
  }

  /** Unflipped, the filter keeps the first eight colours for sub-block 0
      and the rest for sub-block 1, in order. */
  lemma {:induction false} WhereStack(colors: seq<RGB>, s: nat, n: nat)
    requires s < 2 && n <= |colors| == 16
    ensures var w := Where(colors, 8, s, n);
      && |w| == (if s == 0 then (if n < 8 then n else 8) else (if n < 8 then 0 else n - 8))
      && forall p :: 0 <= p < |w| ==> w[p] == colors[8 * s + p]
  {
    if n > 0 {
      WhereStack(colors, s, n - 1);
      assert ((n - 1) / 8) % 2 == (if n - 1 < 8 then 0 else 1);
    }
  }

  /** Within a run of four colours `4 * j + t`, the flipped filter's test
      `(i / 2) % 2` is `t / 2`. */
  lemma RunHalf(j: nat, t: nat)
    requires t < 4
    ensures ((4 * j + t) / 2) % 2 == t / 2
  {
    assert 4 * j + t == 2 * (2 * j + t / 2) + t % 2;
    assert (4 * j + t) / 2 == 2 * j + t / 2;
  }

  /** Pixel `2 * j + t` of a flipped sub-block is pixel `4 * j + 2 * s + t`
      of the block. */
  lemma PosRun(s: nat, j: nat, t: nat)
    requires s < 2 && j < 4 && t < 2
    ensures Pos(true, s, 2 * j + t) == 4 * j + 2 * s + t
  {
    assert (2 * j + t) / 2 == j && (2 * j + t) % 2 == t;
  }

  /** Flipped, each run of four colours gives its first two to sub-block 0
      and its last two to sub-block 1. */
  lemma {:induction false} WhereFlip(colors: seq<RGB>, s: nat, k: nat)
    requires s < 2 && k <= 4 && |colors| == 16
    ensures var w := Where(colors, 2, s, 4 * k);
      && |w| == 2 * k
      && forall p :: 0 <= p < |w| ==> w[p] == colors[Pos(true, s, p)]
  {
    if k > 0 {
      var n := 4 * (k - 1);
      WhereFlip(colors, s, k - 1);
      RunHalf(k - 1, 0);
      RunHalf(k - 1, 1);
      RunHalf(k - 1, 2);
      RunHalf(k - 1, 3);
      var w0 := Where(colors, 2, s, n);
      var w := Where(colors, 2, s, n + 4);
      WhereRun(colors, s, n);
      forall p | 0 <= p < |w|
        ensures w[p] == colors[Pos(true, s, p)]
      {
        if p < |w0| {
          assert w[p] == w0[p];
        } else {
          PosRun(s, k - 1, p - |w0|);
        }
      }
    }
  }

  /** One run of four colours through the flipped filter. */
  lemma WhereRun(colors: seq<RGB>, s: nat, n: nat)
    requires s < 2 && n + 4 <= |colors|
    requires (n / 2) % 2 == 0 && ((n + 1) / 2) % 2 == 0 && ((n + 2) / 2) % 2 == 1 && ((n + 3) / 2) % 2 == 1
    ensures Where(colors, 2, s, n + 4) == Where(colors, 2, s, n) + colors[n + 2 * s..n + 2 * s + 2]
  {
    var w0 := Where(colors, 2, s, n);
    var w1 := Where(colors, 2, s, n + 1);
    var w2 := Where(colors, 2, s, n + 2);
    var w3 := Where(colors, 2, s, n + 3);
    if s == 0 {
      assert w3 == w2 == w0 + [colors[n], colors[n + 1]];
    } else {
      assert w2 == w0;
      assert Where(colors, 2, s, n + 4) == w0 + [colors[n + 2], colors[n + 3]];
    }
  }

  /** Pixel `p` of sub-block `s` is pixel `Pos(flip, s, p)` of the block. */
  lemma SubBlockPixels(colors: seq<RGB>, flip: bool, s: nat)
    requires s < 2 && |colors| == 16
    ensures var sub := SubBlock(colors, flip, s);
      |sub| == 8 && forall p :: 0 <= p < 8 ==> sub[p] == colors[Pos(flip, s, p)]
  {
    if flip {
      WhereFlip(colors, s, 4);
    } else {
      WhereStack(colors, s, 16);
    }
  }

  /** Every pixel of the block is some pixel of one of its sub-blocks, and
      the sub-block is the one the decoder picks for it. */
  lemma PosCovers(flip: bool, i: nat)
    requires i < 16
    ensures var s := if flip then (i / 2) % 2 else i / 8;
      var p := if flip then 2 * (i / 4) + i % 2 else i % 8;
      s < 2 && p < 8 && Pos(flip, s, p) == i && (InSecond(flip, i) <==> s == 1)
  {
    SplitAgrees(flip, i);
  }

  // ---------------------------------------------------------------------
  // Correctness of the packing

  /** The packed block's fields that the decoder reads, with the ranges
      `FromSet` needs for its bit fields and colours to read back. */
  predicate Packable(solns: SolutionSet)
  {
    var limit := if solns.diff then 32 else 16;
    && 0 <= solns.soln0.table < 8 && 0 <= solns.soln1.table < 8
    && Below(solns.soln0.blockColour, limit) && Below(solns.soln1.blockColour, limit)
    && (solns.diff ==> Near(solns.soln0.blockColour, solns.soln1.blockColour))
  }

  /** A block packed from two solutions that reproduce the two sub-blocks of
      sixteen colours exactly decodes to those sixteen colours. */
  lemma FromSetDecodes(colors: seq<RGB>, solns: SolutionSet)
    requires |colors| == 16 && Packable(solns)
    requires var limit := if solns.diff then 32 else 16;
      && Exact(SubBlock(colors, solns.flip, 0), limit, solns.soln0)
      && Exact(SubBlock(colors, solns.flip, 1), limit, solns.soln1)
    ensures DecodesTo(FromSet(solns), colors)
  {
    var blk := FromSet(solns);
    FromSetFlags(solns);
    FromSetColours(solns);
    FromSetSelectors(solns);
    SubBlockPixels(colors, solns.flip, 0);
    SubBlockPixels(colors, solns.flip, 1);
    forall i | 0 <= i < 16
      ensures PixelRgb(blk, i) == colors[i]
    {
      PosCovers(solns.flip, i);
      var s := if solns.flip then (i / 2) % 2 else i / 8;
      var p := if solns.flip then 2 * (i / 4) + i % 2 else i % 8;
      assert SubBlock(colors, solns.flip, s)[p] == colors[i];
    }
  }
}
