/** `Etc1.Decoder` and `Etc1.Encoder`: the per-pixel front ends of the ETC1
    codec.  The decoder expands one block into sixteen colours, queued in
    the `order3ds` order the 3DS tiles pixels in; the encoder collects
    sixteen colours, undoes that order, packs their alpha nibbles into one
    64-bit word and hands the block `Encode` builds to its callback. */
module Etc1Codec {
  import opened Primitives
  import opened Etc1
  import Etc1Solid

  // ---------------------------------------------------------------------
  // Reordering and alpha packing

  /** `order3ds[order3ds[order3ds[j]]]`: the pixel the `order3ds` visit
      puts at position `j`, that is the inverse of `order3ds`. */
  function Inverse3ds(j: nat): (k: nat)
    requires j < 16
    ensures k < 16 && Order3ds[k] == j
  {
    Order3dsFourth();
    Order3ds[Order3ds[Order3ds[j]]]
  }

  /** The `colors` of `Encoder.Set`: `queue[order3ds[order3ds[order3ds[j]]]]`
      for `j` in `Enumerable.Range(0, 16)`. */
  function Reorder(queue: seq<Color>): (colors: seq<Color>)
    requires |queue| == 16
    ensures |colors| == 16
    ensures forall j :: 0 <= j < 16 ==> colors[j] == queue[Inverse3ds(j)]
  {
    seq(16, j requires 0 <= j < 16 => queue[Inverse3ds(j)])
  }

  /** Position `n` of the reordered colours sits at pixel `order3ds[n]`. */
  lemma ReorderVisit(queue: seq<Color>, n: nat)
    requires |queue| == 16 && n < 16
    ensures Order3ds[n] < 16 && Reorder(queue)[Order3ds[n]] == queue[n]
  {
    Order3dsFourth();
    var i := Order3ds[n];
    var k := Inverse3ds(i);
    assert Order3ds[k] == Order3ds[n];
    Order3dsInjective(k, n);
  }

  /** `order3ds` sends distinct positions to distinct pixels. */
  lemma Order3dsInjective(k: nat, n: nat)
    requires k < 16 && n < 16 && Order3ds[k] == Order3ds[n]
    ensures k == n
  {
    Order3dsFourth();
    assert Order3ds[Order3ds[Order3ds[Order3ds[k]]]] == Order3ds[Order3ds[Order3ds[Order3ds[n]]]];
  }

  /** `colors.Select(c2 => new RGB(c2.R, c2.G, c2.B))`. */
  function Rgbs(colors: seq<Color>): (rgbs: seq<RGB>)
    ensures |rgbs| == |colors|
    ensures forall j :: 0 <= j < |colors| ==> rgbs[j] == colors[j].Rgb()
  {
    seq(|colors|, j requires 0 <= j < |colors| => colors[j].Rgb())
  }

  /** `colors.Reverse().Aggregate(0ul, (a, b) => (a * 16) | (byte)(b.A / 16))`:
      folding the reversed list from the left puts the first colour's
      nibble lowest. */
  function AlphaWord(colors: seq<Color>): nat
  {
    if colors == [] then 0
    else Or(AlphaWord(colors[1..]) * 16, colors[0].a / 16)
  }

  /** The fold is a base-16 number whose digit `j` is colour `j`'s alpha
      nibble, below `2^(4 * |colors|)` (so sixteen colours fit the
      `ulong`). */
  lemma {:induction false} AlphaNibbles(colors: seq<Color>)
    ensures AlphaWord(colors) < Pow2(4 * |colors|)
    ensures forall j :: 0 <= j < |colors| ==> Nibble(AlphaWord(colors), j) == colors[j].a / 16
  {
    if colors != [] {
      var rest := AlphaWord(colors[1..]);
      var low := colors[0].a / 16;
      AlphaNibbles(colors[1..]);
      assert Pow2(4) == 16;
      OrDisjoint(rest, low, 4);
      var w := AlphaWord(colors);
      assert w == rest * 16 + low;
      Quotient(w, 16, rest);
      assert w % 16 == low;
      Pow2Add(4, 4 * (|colors| - 1));
      assert w < Pow2(4 * |colors|) by {
        assert rest + 1 <= Pow2(4 * (|colors| - 1));
        assert (rest + 1) * 16 <= Pow2(4 * (|colors| - 1)) * 16;
      }
      forall j | 0 <= j < |colors|
        ensures Nibble(w, j) == colors[j].a / 16
      {
        if j > 0 {
          assert colors[1..][j - 1] == colors[j];
        }
      }
    }
  }

  /** What the decoder shows of a colour: its alpha cut to four bits and
      widened back by 17 (a multiple of 17 within 15 of the original), and
      its RGB channels. */
  function Requantized(c: Color): (d: Color)
    ensures d.Rgb() == c.Rgb() && d.a % 17 == 0 && d.a / 17 == c.a / 16
    ensures -16 < d.a - c.a < 16
  {
    Color(c.a / 16 * 17, c.r, c.g, c.b)
  }

  /** The block data `Encoder.Set` hands over for sixteen queued colours:
      their packed alpha word, and a block that decodes to their colours
      or, when `Check` finds none, the solid white block. */
  predicate Encodes(data: PixelData, queue: seq<Color>)
    requires |queue| == 16
  {
    var colors := Reorder(queue);
    && data.alpha == AlphaWord(colors)
    && (DecodesTo(data.block, Rgbs(colors)) || Etc1Solid.Shows(data.block, Etc1Solid.White))
  }

  // ---------------------------------------------------------------------
  // Round trip

  /** Whatever block the encoder picks, the decoder gives back the alpha of
      the `n`-th colour set, four bits deep, as the `n`-th colour. */
  lemma AlphaRoundTrip(queue: seq<Color>, data: PixelData, n: nat)
    requires |queue| == 16 && n < 16 && Encodes(data, queue)
    ensures DecodeBlock(data)[n].a == Requantized(queue[n]).a
  {
    var colors := Reorder(queue);
    AlphaNibbles(colors);
    ReorderVisit(queue, n);
  }

  /** When `Check` finds a block, decoding what the encoder emits returns
      the sixteen colours in the order they were set, alpha four bits
      deep. */
  lemma RoundTrip(queue: seq<Color>, data: PixelData)
    requires |queue| == 16 && Encodes(data, queue)
    requires DecodesTo(data.block, Rgbs(Reorder(queue)))
    ensures |DecodeBlock(data)| == 16
    ensures forall n :: 0 <= n < 16 ==> DecodeBlock(data)[n] == Requantized(queue[n])
  {
    forall n | 0 <= n < 16
      ensures DecodeBlock(data)[n] == Requantized(queue[n])
    {
      AlphaRoundTrip(queue, data, n);
      ReorderVisit(queue, n);
    }
  }

  // ---------------------------------------------------------------------
  // The two classes

  /** A prefix grows by the next element. */
  lemma PrefixNext<T>(s: seq<T>, n: nat)
    requires n < |s|
    ensures s[..n + 1] == s[..n] + [s[n]]
  {
  }

  /** Pixel `i` from the two scaled base colours the decoder computes
      once per block. */
  lemma PixelSplit(data: PixelData, i: nat)
    requires i < 16
    ensures var blk := data.block;
      var second := InSecond(blk.FlipBit(), i);
      var basec := if second then Scale(blk.Color1(), blk.ColorDepth()) else Scale(blk.Color0(), blk.ColorDepth());
      var rgb := AddModifier(basec, Modifier(if second then blk.Table1() else blk.Table0(), blk.Selector(i)));
      Pixel(data, i) == Color(Nibble(data.alpha, i) * 17, rgb.r, rgb.g, rgb.b)
  {
  }

  /** `Decoder`: the colours of the last block not yet handed out. */
  class Decoder {
    var queue: seq<Color>

    constructor()
      ensures queue == []
    {
      queue := [];
    }

    /** `Get`: when the queue is empty, pull one block (`next` stands for
        what the supplier `func` returns; `pulled` tells whether it was
        called) and queue its sixteen colours in `order3ds` order; then
        dequeue the first colour. */
    method Get(next: PixelData) returns (c: Color, pulled: bool)
      modifies this
      ensures pulled <==> old(queue) == []
      ensures var q := if pulled then DecodeBlock(next) else old(queue);
        c == q[0] && queue == q[1..]
    {
      pulled := queue == [];
      if pulled {
        var blk := next.block;
        var basec0 := Scale(blk.Color0(), blk.ColorDepth());
        var basec1 := Scale(blk.Color1(), blk.ColorDepth());
        var flip := blk.FlipBit();
        Order3dsFourth();
        var n := 0;
        while n < 16
          invariant 0 <= n <= 16
          invariant queue == DecodeBlock(next)[..n]
        {
          var i := Order3ds[n];
          var second := InSecond(flip, i);
          var basec := if second then basec1 else basec0;
          var table := if second then blk.Table1() else blk.Table0();
          var rgb := AddModifier(basec, Modifier(table, blk.Selector(i)));
          PixelSplit(next, i);
          queue := queue + [Color(Nibble(next.alpha, i) * 17, rgb.r, rgb.g, rgb.b)];
          PrefixNext(DecodeBlock(next), n);
          n := n + 1;
        }
      }
      c := queue[0];
      queue := queue[1..];
    }
  }

  /** `Encoder`: the colours set since the last block was emitted. */
  class Encoder {
    var queue: seq<Color>

    /** The queue is emptied whenever it reaches sixteen colours. */
    predicate Valid()
      reads this
    {
      |queue| < 16
    }

    constructor()
      ensures Valid() && queue == []
    {
      queue := [];
    }

    /** `Set`: queue `c`; on the sixteenth colour, emit the block data for
        the callback `func` (`emitted`) and clear the queue. */
    method Set(c: Color) returns (emitted: Option<PixelData>)
      requires Valid()
      modifies this
      ensures Valid()
      ensures |old(queue)| < 15 ==> emitted == None && queue == old(queue) + [c]
      ensures |old(queue)| == 15 ==> emitted.Some? && Encodes(emitted.value, old(queue) + [c]) && queue == []
    {
      queue := queue + [c];
      if |queue| == 16 {
        var colors := Reorder(queue);
        var alpha := AlphaWord(colors);
        var blk := Etc1Solid.Encode(Rgbs(colors));
        emitted := Some(PixelData(alpha, blk));
        queue := [];
      } else {
        emitted := None;
      }
    }
  }
}
