/** `CriWareCompression`, the older, self-contained CriWare decoder: the same
    header as `CriWare`, with its own LZSS, a bit-serial Huffman tree walk
    and a stricter RLE.  The stream is modelled by the bytes from its current
    position to its end, header included. */
module CriWareLegacy {
  import opened Primitives
  import opened Lz77
  import BinaryReaderX
  import Rle
  import CriWare

  // ---------------------------------------------------------------------
  // LZSS

  /** `(flags & 0x80) != 0` on the non-negative `int` flags. */
  function FlagBit(flags: nat): bool
  {
    flags / 0x80 % 2 == 1
  }

  /** A back-reference: copy `length` bytes from `offset` places back. */
  datatype Ref = Ref(offset: nat, length: nat)

  /** `BitConverter.ToUInt16(br.ReadBytes(2).Reverse().ToArray(), 0)`: a
      big-endian 16-bit value with the distance in its low 12 bits and the
      length in its high 4.  The conversion throws on an empty array and on
      a one-byte array, the two ways `ReadBytes` can come up short. */
  function LzssRef(data: seq<byte>, p: nat): (r: Result<Ref>)
    ensures r.Ok? ==> p + 2 <= |data| && 1 <= r.value.offset <= 0x1000 && 3 <= r.value.length <= 18
  {
    if p >= |data| then Fail(ArgumentOutOfRange)
    else if p + 1 >= |data| then Fail(Argument)
    else
      var lengthDist := data[p] as int * 0x100 + data[p + 1] as int;
      Ok(Ref(lengthDist % 0x1000 + 1, lengthDist / 0x1000 + 3))
  }

  /** The two bytes of a reference, the inverse of `LzssRef`. */
  function EncodeRef(ref: Ref): (r: seq<byte>)
    requires 1 <= ref.offset <= 0x1000 && 3 <= ref.length <= 18
    ensures |r| == 2
  {
    var o := ref.offset - 1;
    [(ref.length - 3) * 16 + o / 0x100, o % 0x100]
  }

  /** Every distance and length a reference can carry reads back from its
      encoding. */
  lemma RefRoundTrip(ref: Ref, tail: seq<byte>)
    requires 1 <= ref.offset <= 0x1000 && 3 <= ref.length <= 18
    ensures LzssRef(EncodeRef(ref) + tail, 0) == Ok(ref)
  {
    var data := EncodeRef(ref) + tail;
    var o := ref.offset - 1;
    var a: int := data[0];
    assert a == (ref.length - 3) * 16 + o / 0x100 && data[1] == o % 0x100;
    assert a / 16 == ref.length - 3 && a % 16 == o / 0x100;
  }

  /** One block: a literal byte, or a reference copied byte by byte from
      `result[result.Count - offs]`, whose list index is out of range when
      the distance reaches before the start of the output. */
  function LzssBlock(data: seq<byte>, p: nat, out: seq<byte>, isRef: bool): (r: Result<(nat, seq<byte>)>)
    ensures r.Ok? ==> p < r.value.0 <= |data| && |out| < |r.value.1|
  {
    if !isRef then
      if p >= |data| then Fail(EndOfStream) else Ok((p + 1, out + [data[p]]))
    else
      var ref := LzssRef(data, p);
      if ref.Fail? then Fail(ref.error)
      else if ref.value.offset > |out| then Fail(ArgumentOutOfRange)
      else Ok((p + 2, CopyBack(out, ref.value.offset, ref.value.length)))
  }

  /** Iteration `i` of the LZSS `for` loop, with `k = i % 8` and the flags
      as left by the previous iteration: a new flag byte is read every eight
      blocks, then the block, then the length check. */
  function Lzss(data: seq<byte>, p: nat, out: seq<byte>, size: int, flags: nat, k: nat): (r: Result<seq<byte>>)
    requires k < 8
    ensures r.Ok? ==> |r.value| == size
    decreases Remaining(data, p), 1
  {
    if k == 0 && p >= |data| then Fail(EndOfStream)
    else
      var q := if k == 0 then p + 1 else p;
      var f := if k == 0 then data[p] as nat else flags;
      LzssAfter(data, p, out, size, f, k, LzssBlock(data, q, out, FlagBit(f)))
  }

  /** The rest of iteration `k` once its block gave `blk`: return when the
      output holds exactly `size` bytes, throw when it holds more, otherwise
      shift the flags and go on. */
  function LzssAfter(data: seq<byte>, p: nat, out: seq<byte>, size: int, flags: nat, k: nat,
                     blk: Result<(nat, seq<byte>)>): (r: Result<seq<byte>>)
    requires k < 8 && (blk.Ok? ==> p < blk.value.0 <= |data|)
    ensures r.Ok? ==> |r.value| == size
    decreases Remaining(data, p), 0
  {
    if blk.Fail? then Fail(blk.error)
    else
      var (q, grown) := blk.value;
      if |grown| == size then Ok(grown)
      else if |grown| > size then Fail(InvalidData)   // "Went past the end of the stream"
      else Lzss(data, q, grown, size, flags * 2, (k + 1) % 8)
  }

  /** The flag byte 0x40 makes a literal `A` and then the reference `00 00`
      (distance 1, length 3): four bytes. */
  lemma LzssExample()
    ensures Lzss([0x40, 0x41, 0x00, 0x00], 0, [], 4, 0, 0) == Ok([0x41, 0x41, 0x41, 0x41])
  {
    var data: seq<byte> := [0x40, 0x41, 0x00, 0x00];
    LzssExampleBlocks(data, 4);
  }

  /** The same stream for a size of 3 runs past it: an error, where `LZ10`
      truncates and `LZ11` fails on the array bounds. */
  lemma LzssOvershoot()
    ensures Lzss([0x40, 0x41, 0x00, 0x00], 0, [], 3, 0, 0) == Fail(InvalidData)
  {
    var data: seq<byte> := [0x40, 0x41, 0x00, 0x00];
    LzssExampleBlocks(data, 3);
  }

  lemma LzssExampleBlocks(data: seq<byte>, size: nat)
    requires data == [0x40, 0x41, 0x00, 0x00] && 2 <= size <= 4
    ensures Lzss(data, 0, [], size, 0, 0) == if size == 4 then Ok([0x41, 0x41, 0x41, 0x41]) else Fail(InvalidData)
  {
    assert !FlagBit(0x40) && FlagBit(0x80);
    var lit := LzssBlock(data, 1, [], false);
    assert [] + [data[1]] == [0x41];
    assert lit == Ok((2, [0x41]));
    assert Lzss(data, 0, [], size, 0, 0) == LzssAfter(data, 0, [], size, 0x40, 0, lit);
    assert LzssRef(data, 2) == Ok(Ref(1, 3));
    assert CopyBack([0x41], 1, 3) == [0x41, 0x41, 0x41, 0x41];
    var ref := LzssBlock(data, 2, [0x41], true);
    assert ref == Ok((4, [0x41, 0x41, 0x41, 0x41]));
    assert Lzss(data, 2, [0x41], size, 0x80, 1) == LzssAfter(data, 2, [0x41], size, 0x80, 1, ref);
  }

  // ---------------------------------------------------------------------
  // Huffman

  /** `(code >> (31 - i)) % 2 == 0 ? 2 : 1` at `k = i % 32`: the shift count
      is taken modulo 32, so this is bit `31 - k` of the code word; `>>` on
      the signed word is floor division by 2^(31 - k), and `% 2 == 0` tests
      for an even value whatever its sign.  2 selects child 0, 1 child 1. */
  function Direction(code: int, k: nat): (d: nat)
    requires k < 32
    ensures d == 1 || d == 2
  {
    if CsRem(code / Pow2(31 - k), 2) == 0 then 2 else 1
  }

  /** `(pos >> 5 >> direction) % 2 != 0`: bit 7 of the node flags child 0 as
      a leaf, bit 6 child 1. */
  function IsLeaf(pos: byte, direction: nat): bool
    requires direction == 1 || direction == 2
  {
    pos / 0x20 / (if direction == 2 then 4 else 2) % 2 != 0
  }

  /** One bit of the tree walk: `next` moves to the children of node `pos`,
      and the direction picks child 0 at `next - 2` or child 1 at
      `next - 1` of the tree buffer.  The new `next`, the child and whether
      it is a leaf. */
  function HuffStep(tree: seq<byte>, code: int, k: nat, next: nat, pos: byte): (r: Result<(nat, byte, bool)>)
    requires k < 32
  {
    var next' := next + pos % 0x40 * 2 + 2;
    var direction := Direction(code, k);
    if next' - direction >= |tree| then Fail(IndexOutOfRange)
    else Ok((next', tree[next' - direction], IsLeaf(pos, direction)))
  }

  /** Iteration `i` of the Huffman `for` loop, with `k = i % 32`: a new
      little-endian code word is read every 32 bits; a leaf emits its symbol
      and restarts the walk at the root; the loop returns as soon as
      `target` symbols are out.  (`i` itself can wrap around, but only
      `i % 32` matters and 2^31 is a multiple of 32.) */
  function HuffLoop(data: seq<byte>, p: nat, tree: seq<byte>, root: byte, target: int, out: seq<byte>,
                    code: int, k: nat, next: nat, pos: byte): (r: Result<seq<byte>>)
    requires k < 32
    ensures r.Ok? ==> |r.value| == target
    decreases Remaining(data, p), if k == 0 then 0 else 32 - k, 1
  {
    if k == 0 && p + 4 > |data| then Fail(EndOfStream)
    else
      var q := if k == 0 then p + 4 else p;
      var c := if k == 0 then I32At(data, p) else code;
      HuffAfter(data, p, q, tree, root, target, out, c, k, HuffStep(tree, c, k, next, pos))
  }

  /** The rest of iteration `k` once its bit gave `step`. */
  function HuffAfter(data: seq<byte>, p: nat, q: nat, tree: seq<byte>, root: byte, target: int, out: seq<byte>,
                     code: int, k: nat, step: Result<(nat, byte, bool)>): (r: Result<seq<byte>>)
    requires k < 32 && (if k == 0 then q == p + 4 <= |data| else q == p)
    ensures r.Ok? ==> |r.value| == target
    decreases Remaining(data, p), if k == 0 then 0 else 32 - k, 0
  {
    if step.Fail? then Fail(step.error)
    else
      var (next, child, leaf) := step.value;
      var out' := if leaf then out + [child] else out;
      if |out'| == target then Ok(out')
      else HuffLoop(data, q, tree, root, target, out', code, (k + 1) % 32,
                    if leaf then 0 else next, if leaf then root else child)
  }

  /** The bit after bit `i % 32` of a code word. */
  lemma NextBit(i: nat)
    ensures (i + 1) % 32 == (i % 32 + 1) % 32
    ensures (i + 1) % 32 == 0 || (i + 1) % 32 == i % 32 + 1
  {
  }

  /** A bit that reaches a node hands the loop on to the next bit. */
  lemma HuffOk(data: seq<byte>, p: nat, q: nat, tree: seq<byte>, root: byte, target: int, out: seq<byte>,
               code: int, k: nat, next: nat, child: byte, leaf: bool)
    requires k < 32 && (if k == 0 then q == p + 4 <= |data| else q == p)
    ensures HuffAfter(data, p, q, tree, root, target, out, code, k, Ok((next, child, leaf)))
      == var out' := if leaf then out + [child] else out;
         if |out'| == target then Ok(out')
         else HuffLoop(data, q, tree, root, target, out', code, (k + 1) % 32,
                       if leaf then 0 else next, if leaf then root else child)
  {
  }

  // ---------------------------------------------------------------------
  // The Huffman stream as a bit sequence, decoded symbol by symbol

  /** The 32 bits of a code word, most significant first, taken from its
      two's-complement encoding. */
  function WordBits(code: int): (r: seq<bool>)
    ensures |r| == 32
  {
    seq(32, k requires 0 <= k < 32 => Bit(ToUInt32(code), 31 - k) == 1)
  }

  /** The bits of the code words from offset `p` on: every whole
      little-endian 32-bit word, most significant bit first. */
  function Bits(data: seq<byte>, p: nat): (r: seq<bool>)
    ensures |r| == 32 * (Remaining(data, p) / 4)
    decreases Remaining(data, p)
  {
    if p + 4 > |data| then [] else WordBits(I32At(data, p)) + Bits(data, p + 4)
  }

  /** Whether the child of node `pos` on side `one` is a leaf: bit 7 of the
      node flags child 0, bit 6 child 1. */
  function LeafFlag(pos: byte, one: bool): bool
  {
    Bit(pos as nat, if one then 6 else 7) == 1
  }

  /** The reference decoder of one symbol: from node `pos`, whose pair of
      children sits `pos % 0x40 + 1` pairs after offset `next` of the tree,
      follow one bit per level (1 takes the second child) down to a leaf.
      The leaf's symbol and the bits after the ones the walk used. */
  function Walk(tree: seq<byte>, bits: seq<bool>, next: nat, pos: byte): (r: Result<(byte, seq<bool>)>)
    ensures r.Ok? ==> |r.value.1| < |bits| && r.value.1 == bits[|bits| - |r.value.1|..]
    ensures r.Fail? ==> r.error == EndOfStream || r.error == IndexOutOfRange
    decreases |bits|
  {
    if bits == [] then Fail(EndOfStream)
    else
      var pair := next + pos % 0x40 * 2 + 2;
      var child := if bits[0] then pair - 1 else pair - 2;
      if child >= |tree| then Fail(IndexOutOfRange)
      else if LeafFlag(pos, bits[0]) then Ok((tree[child], bits[1..]))
      else Walk(tree, bits[1..], pair, tree[child])
  }

  /** The reference decoder of a stream: from node `pos`, walk to a symbol,
      then walk each further symbol from the root, until `target` symbols
      are out. */
  function Symbols(tree: seq<byte>, root: byte, bits: seq<bool>, target: int, out: seq<byte>,
                   next: nat, pos: byte): (r: Result<seq<byte>>)
    ensures r.Ok? ==> |r.value| == target && out < r.value
    decreases |bits|
  {
    match Walk(tree, bits, next, pos)
    case Fail(e) => Fail(e)
    case Ok((symbol, rest)) =>
      if |out| + 1 == target then Ok(out + [symbol])
      else Symbols(tree, root, rest, target, out + [symbol], 0, root)
  }

  /** The bits still to come at iteration `k` of the loop: the rest of the
      current code word, then the words from `p` on. */
  function Pending(data: seq<byte>, p: nat, code: int, k: nat): seq<bool>
    requires k < 32
  {
    (if k == 0 then [] else WordBits(code)[k..]) + Bits(data, p)
  }

  /** `Direction(code, k)` follows bit `31 - k` of the code word: 1 (the
      second child) when it is set, 2 (the first) when it is clear. */
  lemma DirectionBit(code: int, k: nat)
    requires k < 32
    ensures Direction(code, k) == (if WordBits(code)[k] then 1 else 2)
  {
    var m := 31 - k;
    var d := Pow2(m);
    var e := Pow2(31 - m);
    var u := ToUInt32(code);
    var t := code / UInt32Mod;
    WordSize(m);
    WordSplit(code, t, u, d, 2 * e);
    Twice(t, e);
    CsRemEven(code / d, t * e, u / d);
    assert WordBits(code)[k] == (Bit(u, m) == 1);
    assert Bit(u, m) == u / d % 2;
  }

  /** A 32-bit word splits into `m` low bits and `32 - m` high ones. */
  lemma WordSize(m: nat)
    requires m <= 31
    ensures UInt32Mod == Pow2(m) * (2 * Pow2(31 - m))
  {
    Pow2Add(m, 32 - m);
    Pow2Top();
  }

  lemma Twice(t: int, e: int)
    ensures t * (2 * e) == 2 * (t * e)
  {
  }

  /** Dropping the `m` low bits of `t * 2^32 + u` drops them from `u` and
      shifts `t` up by the remaining `32 - m` bits. */
  lemma WordSplit(code: int, t: int, u: int, d: int, e: int)
    requires d > 0 && 0 <= u && code == t * UInt32Mod + u && UInt32Mod == d * e
    ensures code / d == t * e + u / d
  {
    var a := t * e;
    assert code == a * d + u by { assert t * (d * e) == (t * e) * d; }
    DropLow(a, u, d);
  }

  /** `(a * d + b) / d == a + b / d` for a positive divisor. */
  lemma DropLow(a: int, b: int, d: int)
    requires d > 0
    ensures (a * d + b) / d == a + b / d
  {
    var q := b / d;
    assert b == q * d + b % d;
    assert (a + q) * d == a * d + q * d;
    Quotient(a * d + b, d, a + q);
  }

  /** C#'s remainder by 2 is zero exactly for the even values, so adding
      an even number does not change whether it is. */
  lemma CsRemEven(x: int, h: int, y: int)
    requires x == 2 * h + y
    ensures (CsRem(x, 2) == 0) == (y % 2 == 0)
  {
  }

  /** `IsLeaf` reads the same node bit as `LeafFlag`. */
  lemma LeafBit(pos: byte, one: bool)
    ensures IsLeaf(pos, if one then 1 else 2) == LeafFlag(pos, one)
  {
    assert Pow2(6) == 64 && Pow2(7) == 128 by { Pow2Top(); }
    var x := pos as int;
    Quotient(x, 0x80, x / 0x20 / 4);
    Quotient(x, 0x40, x / 0x20 / 2);
  }

  /** One iteration takes the first pending bit and leaves the rest. */
  lemma PendingHead(data: seq<byte>, p: nat, code: int, k: nat)
    requires k < 32 && (k > 0 || p + 4 <= |data|)
    ensures var c := if k == 0 then I32At(data, p) else code;
            Pending(data, p, code, k)
              == [WordBits(c)[k]] + Pending(data, if k == 0 then p + 4 else p, c, (k + 1) % 32)
  {
    if k == 0 {
      PendingFresh(data, p);
    } else {
      PendingInWord(data, p, code, k);
    }
  }

  /** At bit 0 a new code word is read. */
  lemma PendingFresh(data: seq<byte>, p: nat)
    requires p + 4 <= |data|
    ensures var c := I32At(data, p);
            Pending(data, p, 0, 0) == [WordBits(c)[0]] + Pending(data, p + 4, c, 1)
  {
    var c := I32At(data, p);
    var w := WordBits(c);
    var rest := Bits(data, p + 4);
    assert Bits(data, p) == w + rest;
    assert w == [w[0]] + w[1..];
    assert Pending(data, p + 4, c, 1) == w[1..] + rest;
  }

  /** Inside a code word the next bit is taken from it. */
  lemma PendingInWord(data: seq<byte>, p: nat, code: int, k: nat)
    requires 0 < k < 32
    ensures Pending(data, p, code, k) == [WordBits(code)[k]] + Pending(data, p, code, (k + 1) % 32)
  {
    var w := WordBits(code);
    var rest := Bits(data, p);
    SplitAt(w, k, rest);
    if k == 31 {
      assert w[k + 1..] == [];
    }
  }

  /** Taking one element off the front of a suffix. */
  lemma SplitAt(w: seq<bool>, k: nat, rest: seq<bool>)
    requires k < |w|
    ensures w[k..] + rest == [w[k]] + (w[k + 1..] + rest)
  {
    assert w[k..] == [w[k]] + w[k + 1..];
  }

  /** One bit of the reference decoder: the child it picks, then either the
      symbol of a leaf or the walk on from an inner node. */
  lemma SymbolsStep(tree: seq<byte>, root: byte, b: bool, tail: seq<bool>, target: int, out: seq<byte>,
                    next: nat, pos: byte)
    requires |out| != target
    ensures var pair := next + pos % 0x40 * 2 + 2;
            var child := if b then pair - 1 else pair - 2;
            Symbols(tree, root, [b] + tail, target, out, next, pos)
              == if child >= |tree| then Fail(IndexOutOfRange)
                 else if LeafFlag(pos, b) then
                   (if |out| + 1 == target then Ok(out + [tree[child]])
                    else Symbols(tree, root, tail, target, out + [tree[child]], 0, root))
                 else Symbols(tree, root, tail, target, out, pair, tree[child])
  {
    var bits := [b] + tail;
    assert bits[0] == b && bits[1..] == tail;
  }

  /** One iteration of the loop, told by the bit `b` it reads. */
  lemma HuffLoopStep(data: seq<byte>, p: nat, tree: seq<byte>, root: byte, target: int,
                     out: seq<byte>, code: int, k: nat, next: nat, pos: byte)
    requires k < 32 && (k > 0 || p + 4 <= |data|) && |out| != target
    ensures var q := if k == 0 then p + 4 else p;
            var c := if k == 0 then I32At(data, p) else code;
            var b := WordBits(c)[k];
            var pair := next + pos % 0x40 * 2 + 2;
            var child := if b then pair - 1 else pair - 2;
            HuffLoop(data, p, tree, root, target, out, code, k, next, pos)
              == if child >= |tree| then Fail(IndexOutOfRange)
                 else if LeafFlag(pos, b) then
                   (if |out| + 1 == target then Ok(out + [tree[child]])
                    else HuffLoop(data, q, tree, root, target, out + [tree[child]], c, (k + 1) % 32, 0, root))
                 else HuffLoop(data, q, tree, root, target, out, c, (k + 1) % 32, pair, tree[child])
  {
    var q := if k == 0 then p + 4 else p;
    var c := if k == 0 then I32At(data, p) else code;
    var b := WordBits(c)[k];
    DirectionBit(c, k);
    LeafBit(pos, b);
    var step := HuffStep(tree, c, k, next, pos);
    assert HuffLoop(data, p, tree, root, target, out, code, k, next, pos)
        == HuffAfter(data, p, q, tree, root, target, out, c, k, step);
    if step.Ok? {
      var (next', child, leaf) := step.value;
      HuffOk(data, p, q, tree, root, target, out, c, k, next', child, leaf);
    }
  }

  /** The bit-serial loop decodes what the reference walk decodes, symbol
      by symbol and with the same errors, from any state in which it has
      not just finished. */
  lemma {:induction false} HuffLoopWalks(data: seq<byte>, p: nat, tree: seq<byte>, root: byte, target: int,
                                         out: seq<byte>, code: int, k: nat, next: nat, pos: byte)
    requires k < 32 && |out| != target
    ensures HuffLoop(data, p, tree, root, target, out, code, k, next, pos)
         == Symbols(tree, root, Pending(data, p, code, k), target, out, next, pos)
    decreases Remaining(data, p), if k == 0 then 0 else 32 - k, 1
  {
    if k == 0 && p + 4 > |data| {
      assert Pending(data, p, code, k) == [];
      assert Walk(tree, [], next, pos) == Fail(EndOfStream);
    } else {
      HuffLoopWalksBit(data, p, tree, root, target, out, code, k, next, pos);
    }
  }

  /** `HuffLoopWalks` for an iteration that has a bit to read. */
  lemma {:induction false} HuffLoopWalksBit(data: seq<byte>, p: nat, tree: seq<byte>, root: byte, target: int,
                                            out: seq<byte>, code: int, k: nat, next: nat, pos: byte)
    requires k < 32 && (k > 0 || p + 4 <= |data|) && |out| != target
    ensures HuffLoop(data, p, tree, root, target, out, code, k, next, pos)
         == Symbols(tree, root, Pending(data, p, code, k), target, out, next, pos)
    decreases Remaining(data, p), if k == 0 then 0 else 32 - k, 0
  {
    var q := if k == 0 then p + 4 else p;
    var c := if k == 0 then I32At(data, p) else code;
    var tail := Pending(data, q, c, (k + 1) % 32);
    var b := WordBits(c)[k];
    PendingHead(data, p, code, k);
    HuffLoopStep(data, p, tree, root, target, out, code, k, next, pos);
    SymbolsStep(tree, root, b, tail, target, out, next, pos);
    var pair := next + pos % 0x40 * 2 + 2;
    var child := if b then pair - 1 else pair - 2;
    if child < |tree| {
      if LeafFlag(pos, b) {
        if |out| + 1 != target {
          HuffLoopWalks(data, q, tree, root, target, out + [tree[child]], c, (k + 1) % 32, 0, root);
        }
      } else {
        HuffLoopWalks(data, q, tree, root, target, out, c, (k + 1) % 32, pair, tree[child]);
      }
    }
  }

  /** From the start of the code words, the loop is the reference decoder
      over their bits, whenever it has at least one symbol to produce. */
  lemma HuffLoopSymbols(data: seq<byte>, p: nat, tree: seq<byte>, root: byte, target: int)
    requires target != 0
    ensures HuffLoop(data, p, tree, root, target, [], 0, 0, 0, root)
         == Symbols(tree, root, Bits(data, p), target, [], 0, root)
  {
    HuffLoopWalks(data, p, tree, root, target, [], 0, 0, 0, root);
    assert Pending(data, p, 0, 0) == Bits(data, p);
  }

  /** `Enumerable.Range(0, size).Select(j => (byte)(result[2j+1] * 16 + result[2j]))`:
      4-bit symbols packed two to a byte, the even one in the low nibble. */
  function Pack(syms: seq<byte>, size: nat): (r: seq<byte>)
    requires 2 * size <= |syms|
    ensures |r| == size
  {
    seq(size, j requires 0 <= j < size => ToByte(syms[2 * j + 1] as int * 16 + syms[2 * j] as int))
  }

  /** Packing 4-bit symbols loses nothing: each byte's nibbles are its two
      symbols. */
  lemma PackNibbles(syms: seq<byte>, size: nat, j: nat)
    requires 2 * size <= |syms| && j < size && syms[2 * j] < 16 && syms[2 * j + 1] < 16
    ensures Pack(syms, size)[j] % 16 == syms[2 * j] && Pack(syms, size)[j] / 16 == syms[2 * j + 1]
  {
    var x: int := syms[2 * j + 1] * 16 + syms[2 * j];
    assert x < 256;
  }

  /** Methods 2 and 3: a tree size byte, a root byte, `2 * tree_size` bytes
      of tree (fewer at the end of the stream), then code words until
      `size * 8 / num_bits` symbols are out. */
  function Huffman(data: seq<byte>, numBits: int, size: int): (r: Result<seq<byte>>)
    requires numBits == 4 || numBits == 8
    ensures r.Ok? ==> |r.value| == size
  {
    if |data| <= 5 then Fail(EndOfStream)
    else
      var tree := BinaryReaderX.Take(data, 6, 2 * data[4] as int);
      var target := CsDiv(size * 8, numBits);
      match HuffLoop(data, 6 + |tree|, tree, data[5], target, [], 0, 0, 0, data[5])
      case Fail(e) => Fail(e)
      case Ok(syms) =>
        if numBits == 8 then Ok(syms)
        else if size < 0 then Fail(ArgumentOutOfRange)
        else Ok(Pack(syms, size))
  }

  // ---------------------------------------------------------------------
  // RLE and the dispatch

  const Unconsumed := Exception("Haven't consumed all data in stream")

  /** Method 4: the RLE decoder of `RLE.Decompress` from the payload, which
      here must also end exactly at the end of the stream. */
  function StrictRle(data: seq<byte>, size: int): (r: Result<seq<byte>>)
    requires |data| >= 4
    ensures r.Ok? ==> |r.value| == size
  {
    match Rle.DecodeFrom(data, 4, [], size)
    case Fail(e) => Fail(e)
    case Ok((out, q)) => if q != |data| then Fail(Unconsumed) else Ok(out)
  }

  /** `CriWareCompression.GetDecompressedBytes`. */
  function Decompressed(data: seq<byte>): (r: Result<seq<byte>>)
  {
    if |data| < 4 then Fail(EndOfStream)
    else
      var v := I32At(data, 0);
      var size := CriWare.Size(v);
      var m := CriWare.MethodOf(v);
      if m == CriWare.NoCompression then CriWare.Stored(data, size)
      else if m == CriWare.Lzss then Lzss(data, 4, [], size, 0, 0)
      else if m == CriWare.Huffman4Bit then Huffman(data, 4, size)
      else if m == CriWare.Huffman8Bit then Huffman(data, 8, size)
      else if m == CriWare.RunLength then StrictRle(data, size)
      else Fail(NotSupported)
  }

  /** Every compressed method yields exactly the size in the header. */
  lemma DecompressedSize(data: seq<byte>)
    requires Decompressed(data).Ok? && CriWare.MethodOf(I32At(data, 0)) != CriWare.NoCompression
    ensures |Decompressed(data).value| == CriWare.Size(I32At(data, 0))
  {
  }

  /** On RLE data the older decoder agrees with `CriWare` whenever it
      succeeds, and rejects exactly the streams with bytes left after the
      last block, which `CriWare` accepts. */
  lemma StrictRleAgrees(data: seq<byte>, size: int)
    requires |data| >= 4
    ensures StrictRle(data, size).Ok? ==> StrictRle(data, size) == Rle.Decompress(data[4..], size)
    ensures Rle.Decompress(data[4..], size).Ok? && StrictRle(data, size).Fail? ==> StrictRle(data, size) == Fail(Unconsumed)
  {
    Rle.ShiftDecode(data[..4], data[4..], [], size);
    assert data[..4] + data[4..] == data;
  }

  /** The two dispatchers agree on stored data and on unknown methods, and
      wherever the older one decodes RLE data. */
  lemma AgreesWithCriWare(data: seq<byte>,
                          lzss: (seq<byte>, int) -> Result<seq<byte>>,
                          huffman: (seq<byte>, int, int) -> Result<seq<byte>>)
    requires |data| >= 4
    ensures var m := CriWare.MethodOf(I32At(data, 0));
      && (m == CriWare.NoCompression || m < 0 || m > CriWare.RunLength ==>
            Decompressed(data) == CriWare.GetDecompressedBytes(data, lzss, huffman))
      && (m == CriWare.RunLength && Decompressed(data).Ok? ==>
            Decompressed(data) == CriWare.GetDecompressedBytes(data, lzss, huffman))
  {
    StrictRleAgrees(data, CriWare.Size(I32At(data, 0)));
  }

  /** The Huffman stream of method 3 with a one-node tree whose two children
      are the leaves `A` and `B`, and the code word whose first two bits are
      0 and 1. */
  lemma HuffmanExample(data: seq<byte>)
    requires data == [19, 0, 0, 0, 1, 0xC0, 0x41, 0x42, 0, 0, 0, 0x40]
    ensures Decompressed(data) == Ok([0x41, 0x42])
  {
    assert I32At(data, 0) == 19;
    assert CriWare.Size(19) == 2 && CriWare.MethodOf(19) == 3;
    var tree := BinaryReaderX.Take(data, 6, 2);
    assert data[6..8] == [0x41, 0x42];
    assert tree == [0x41, 0x42];
    HuffmanExampleLoop(data, tree, data[5]);
  }

  lemma HuffmanExampleLoop(data: seq<byte>, tree: seq<byte>, root: byte)
    requires data == [19, 0, 0, 0, 1, 0xC0, 0x41, 0x42, 0, 0, 0, 0x40] && tree == [0x41, 0x42] && root == 0xC0
    ensures HuffLoop(data, 8, tree, root, 2, [], 0, 0, 0, root) == Ok([0x41, 0x42])
  {
    var code := I32At(data, 8);
    assert code == 0x4000_0000;
    ExampleDirections(code, 0, 1);
    HuffmanExampleBit0(tree, code, root);
    HuffmanExampleBit1(tree, code, root);
    HuffmanExampleWord(data, tree, root, code);
  }

  /** The two bits of the example, the first after reading the code word. */
  lemma HuffmanExampleWord(data: seq<byte>, tree: seq<byte>, root: byte, code: int)
    requires |data| == 12 && I32At(data, 8) == code
    requires HuffStep(tree, code, 0, 0, root) == Ok((2, 0x41, true))
    requires HuffStep(tree, code, 1, 0, root) == Ok((2, 0x42, true))
    ensures HuffLoop(data, 8, tree, root, 2, [], 0, 0, 0, root) == Ok([0x41, 0x42])
  {
    var s0 := HuffStep(tree, code, 0, 0, root);
    assert HuffLoop(data, 8, tree, root, 2, [], 0, 0, 0, root) == HuffAfter(data, 8, 12, tree, root, 2, [], code, 0, s0);
    assert [] + [0x41] == [0x41];
    var s1 := HuffStep(tree, code, 1, 0, root);
    assert HuffLoop(data, 12, tree, root, 2, [0x41], code, 1, 0, root) == HuffAfter(data, 12, 12, tree, root, 2, [0x41], code, 1, s1);
    assert [0x41] + [0x42] == [0x41, 0x42];
  }

  /** Bit 31 of the example's code word is 0 and leads to the leaf `A`... */
  lemma HuffmanExampleBit0(tree: seq<byte>, code: int, pos: byte)
    requires Direction(code, 0) == 2 && pos == 0xC0 && tree == [0x41, 0x42]
    ensures HuffStep(tree, code, 0, 0, pos) == Ok((2, 0x41, true))
  {
    assert IsLeaf(pos, 2);
  }

  /** ... and bit 30 is 1 and leads to the leaf `B`. */
  lemma HuffmanExampleBit1(tree: seq<byte>, code: int, pos: byte)
    requires Direction(code, 1) == 1 && pos == 0xC0 && tree == [0x41, 0x42]
    ensures HuffStep(tree, code, 1, 0, pos) == Ok((2, 0x42, true))
  {
    assert IsLeaf(pos, 1);
  }

  lemma ExampleDirections(code: int, k0: nat, k1: nat)
    requires code == 0x4000_0000 && k0 == 0 && k1 == 1
    ensures Direction(code, k0) == 2 && Direction(code, k1) == 1
  {
    Pow2Top();
    Quotient(code, Pow2(31 - k0), 0);
    Quotient(code, Pow2(31 - k1), 1);
  }


  lemma Pow2Top()
    ensures Pow2(30) == 0x4000_0000 && Pow2(31) == 0x8000_0000
  {
    assert Pow2(1) == 2 && Pow2(2) == 4 && Pow2(3) == 8 && Pow2(4) == 16;
    assert Pow2(5) == 32 && Pow2(6) == 64 && Pow2(7) == 128 && Pow2(8) == 256;
    Pow2Add(8, 8);
    Pow2Add(16, 8);
    Pow2Add(24, 6);
    Pow2Add(24, 7);
  }

  // ---------------------------------------------------------------------
  // The method

  /** `CriWareCompression.GetDecompressedBytes`. */
  method GetDecompressedBytes(data: seq<byte>) returns (r: Result<seq<byte>>)
    ensures r == Decompressed(data)
  {
    if |data| < 4 {
      return Fail(EndOfStream);
    }
    var sizeAndMethod := I32At(data, 0);
    var size := CsDiv(sizeAndMethod, 8);
    var m := CsRem(sizeAndMethod, 8);
    if m == CriWare.NoCompression {
      if size < 0 {
        return Fail(ArgumentOutOfRange);
      }
      return Ok(BinaryReaderX.Take(data, 4, size));
    } else if m == CriWare.Lzss {
      r := LzssLoop(data, size);
    } else if m == CriWare.Huffman4Bit || m == CriWare.Huffman8Bit {
      var numBits := if m == CriWare.Huffman4Bit then 4 else 8;
      r := HuffmanBytes(data, numBits, size);
    } else if m == CriWare.RunLength {
      var res := Rle.DecodeBytes(data, 4, size);
      if res.Fail? {
        return Fail(res.error);
      }
      if res.value.1 != |data| {
        return Fail(Unconsumed);
      }
      return Ok(res.value.0);
    } else {
      return Fail(NotSupported);
    }
  }

  /** The LZSS `for (int i = 0, flags = 0; ; i++)` loop from the end of the
      header. */
  method LzssLoop(data: seq<byte>, size: int) returns (r: Result<seq<byte>>)
    requires |data| >= 4
    ensures r == Lzss(data, 4, [], size, 0, 0)
  {
    var result: seq<byte> := [];
    var pos: nat := 4;
    var i: nat := 0;
    var flags: nat := 0;
    while true
      invariant pos <= |data|
      invariant Lzss(data, pos, result, size, flags, i % 8) == Lzss(data, 4, [], size, 0, 0)
      decreases Remaining(data, pos)
    {
      ghost var p0, f0 := pos, flags;
      if i % 8 == 0 {
        if pos >= |data| {
          return Fail(EndOfStream);
        }
        flags := data[pos];
        pos := pos + 1;
      }
      var blk := LzssBlockOf(data, pos, result, FlagBit(flags));
      assert Lzss(data, p0, result, size, f0, i % 8) == LzssAfter(data, p0, result, size, flags, i % 8, blk);
      if blk.Fail? {
        return Fail(blk.error);
      }
      pos, result := blk.value.0, blk.value.1;
      if |result| == size {
        return Ok(result);
      } else if |result| > size {
        return Fail(InvalidData);
      }
      flags := flags * 2;
      NextFlag(i);
      i := i + 1;
    }
  }

  /** The flag of the block after block `i % 8`. */
  lemma NextFlag(i: nat)
    ensures (i + 1) % 8 == (i % 8 + 1) % 8
  {
  }

  /** One LZSS block appended to `result`. */
  method LzssBlockOf(data: seq<byte>, pos: nat, result: seq<byte>, isRef: bool) returns (r: Result<(nat, seq<byte>)>)
    ensures r == LzssBlock(data, pos, result, isRef)
  {
    if !isRef {
      if pos >= |data| {
        return Fail(EndOfStream);
      }
      return Ok((pos + 1, result + [data[pos]]));
    }
    if pos >= |data| {
      return Fail(ArgumentOutOfRange);
    } else if pos + 1 >= |data| {
      return Fail(Argument);
    }
    var ref := LzssRef(data, pos);
    var copied := CopyWithin(result, ref.value.offset, ref.value.length);
    if copied.Fail? {
      return Fail(copied.error);
    }
    return Ok((pos + 2, copied.value));
  }

  /** `while (length-- > 0) result.Add(result[result.Count - offs]);`.  Only
      the first read can fall before the list, so that check is made once,
      ahead of the loop. */
  method CopyWithin(out: seq<byte>, offs: nat, length: nat) returns (r: Result<seq<byte>>)
    requires 1 <= offs
    ensures r == if offs > |out| then Fail(ArgumentOutOfRange) else Ok(CopyBack(out, offs, length))
  {
    if |out| < offs {
      return Fail(ArgumentOutOfRange);
    }
    ghost var w := CopyBack(out, offs, length);
    var result := out;
    var n := length;
    while n > 0
      invariant 0 <= n <= length && |result| == |out| + (length - n)
      invariant result == w[..|result|]
    {
      CopyBackAt(out, offs, length, |result|);
      var b := result[|result| - offs];
      assert b == w[|result|];
      assert w[..|result| + 1] == result + [b];
      result := result + [b];
      n := n - 1;
    }
    assert w[..|result|] == w;
    return Ok(result);
  }

  /** Methods 2 and 3: the tree header, the bit loop and the packing. */
  method HuffmanBytes(data: seq<byte>, numBits: int, size: int) returns (r: Result<seq<byte>>)
    requires numBits == 4 || numBits == 8
    ensures r == Huffman(data, numBits, size)
  {
    if |data| <= 5 {
      return Fail(EndOfStream);
    }
    var treeSize := data[4];
    var treeRoot := data[5];
    var tree := BinaryReaderX.Take(data, 6, 2 * treeSize as int);
    var res := HuffmanLoop(data, 6 + |tree|, tree, treeRoot, CsDiv(size * 8, numBits));
    if res.Fail? {
      return Fail(res.error);
    }
    if numBits == 8 {
      return Ok(res.value);
    }
    if size < 0 {
      return Fail(ArgumentOutOfRange);
    }
    return Ok(Pack(res.value, size));
  }

  /** The Huffman `for (int i = 0, code = 0, next = 0, pos = tree_root; ; i++)`
      loop. */
  method HuffmanLoop(data: seq<byte>, start: nat, tree: seq<byte>, root: byte, target: int) returns (r: Result<seq<byte>>)
    requires start <= |data|
    ensures r == HuffLoop(data, start, tree, root, target, [], 0, 0, 0, root)
  {
    var result: seq<byte> := [];
    var rp: nat := start;
    var i: nat := 0;
    var code := 0;
    var next: nat := 0;
    var pos: byte := root;
    while true
      invariant rp <= |data|
      invariant HuffLoop(data, rp, tree, root, target, result, code, i % 32, next, pos)
        == HuffLoop(data, start, tree, root, target, [], 0, 0, 0, root)
      decreases Remaining(data, rp), if i % 32 == 0 then 0 else 32 - i % 32
    {
      ghost var p0, code0, next0, pos0 := rp, code, next, pos;
      ghost var k := i % 32;
      if i % 32 == 0 {
        if rp + 4 > |data| {
          return Fail(EndOfStream);
        }
        code := I32At(data, rp);
        rp := rp + 4;
      }
      var step := HuffBit(tree, code, i % 32, next, pos);
      assert HuffLoop(data, p0, tree, root, target, result, code0, k, next0, pos0)
        == HuffAfter(data, p0, rp, tree, root, target, result, code, k, step);
      if step.Fail? {
        return Fail(step.error);
      }
      var leaf;
      next, pos, leaf := step.value.0, step.value.1, step.value.2;
      HuffOk(data, p0, rp, tree, root, target, result, code, k, next, pos, leaf);
      if leaf {
        result := result + [pos];
        pos := root;
        next := 0;
      }
      if |result| == target {
        return Ok(result);
      }
      NextBit(i);
      i := i + 1;
    }
  }

  /** The body of the Huffman loop for one bit. */
  method HuffBit(tree: seq<byte>, code: int, k: nat, next: nat, pos: byte) returns (r: Result<(nat, byte, bool)>)
    requires k < 32
    ensures r == HuffStep(tree, code, k, next, pos)
  {
    var next' := next + pos % 0x40 * 2 + 2;
    var direction := if CsRem(code / Pow2(31 - k), 2) == 0 then 2 else 1;
    var leaf := pos / 0x20 / (if direction == 2 then 4 else 2) % 2 != 0;
    if next' - direction >= |tree| {
      return Fail(IndexOutOfRange);
    }
    return Ok((next', tree[next' - direction], leaf));
  }
}
