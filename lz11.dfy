/** `Cetera.Compression.LZ11`: the LZ77 variant with three back-reference
    encodings.  A 32-bit little-endian header holds the output length in its
    top 24 bits; the output array is allocated at that size and filled by
    literals and back-references, eight blocks per flag byte. */
module Lz11 {
  import opened Primitives
  import opened Lz77

  /** A decoded back-reference: bytes to copy, distance back, and where the
      next block starts. */
  datatype Ref = Ref(length: nat, offset: nat, next: nat)

  /** A back-reference starting with byte `a` at `p`; the top nibble of `a`
      picks the encoding.  The source's ORs combine disjoint bit ranges, so
      they are written as sums. */
  function Reference(data: seq<byte>, p: nat): (r: Result<Ref>)
    ensures r.Ok? ==> p < r.value.next <= |data|
    ensures r.Ok? ==> 3 <= r.value.length <= 0x10110 && 1 <= r.value.offset <= 0x1000
  {
    if p >= |data| then Fail(EndOfStream)
    else
      var a: int := data[p];
      if a / 16 == 0 then
        if p + 3 > |data| then Fail(EndOfStream)
        else
          var b: int := data[p + 1];
          var c: int := data[p + 2];
          Ok(Ref(a % 16 * 16 + b / 16 + 0x11, b % 16 * 256 + c + 1, p + 3))
      else if a / 16 == 1 then
        if p + 4 > |data| then Fail(EndOfStream)
        else
          var b: int := data[p + 1];
          var c: int := data[p + 2];
          var d: int := data[p + 3];
          Ok(Ref(a % 16 * 0x1000 + b * 16 + c / 16 + 0x111, c % 16 * 256 + d + 1, p + 4))
      else if p + 2 > |data| then Fail(EndOfStream)
      else
        var b: int := data[p + 1];
        Ok(Ref(a / 16 + 1, a % 16 * 256 + b + 1, p + 2))
  }

  /** One block.  A literal reads its byte before the store into the output
      array is bounds-checked; a back-reference copies byte by byte, and a copy
      that starts before the array or runs past its end fails with an index
      error. */
  function BlockAt(data: seq<byte>, p: nat, out: seq<byte>, len: nat, isRef: bool): (r: Result<(nat, seq<byte>)>)
    requires |out| <= len
    ensures r.Ok? ==> p < r.value.0 <= |data| && |out| < |r.value.1| <= len && r.value.1[..|out|] == out
  {
    if !isRef then
      if p >= |data| then Fail(EndOfStream)
      else if |out| >= len then Fail(IndexOutOfRange)
      else Ok((p + 1, out + [data[p]]))
    else
      var ref := Reference(data, p);
      if ref.Fail? then Fail(ref.error)
      else if ref.value.offset > |out| || |out| + ref.value.length > len then Fail(IndexOutOfRange)
      else Ok((ref.value.next, CopyBack(out, ref.value.offset, ref.value.length)))
  }

  /** The `while (true)` loop from position `p`: read a flag byte, then up to
      eight blocks. */
  function Groups(data: seq<byte>, p: nat, out: seq<byte>, len: nat): (r: Result<seq<byte>>)
    requires |out| <= len
    ensures r.Ok? ==> |r.value| == len && r.value[..|out|] == out
    decreases Remaining(data, p), 0
  {
    if p >= |data| then Fail(EndOfStream)
    else Blocks(data, p + 1, out, len, data[p] as bv8, 0)
  }

  /** The inner `for` loop at block `i` of a group, with the flag byte
      already shifted left `i` times. */
  function Blocks(data: seq<byte>, p: nat, out: seq<byte>, len: nat, header: bv8, i: nat): (r: Result<seq<byte>>)
    requires |out| <= len && i <= 8
    ensures r.Ok? ==> |r.value| == len && r.value[..|out|] == out
    decreases Remaining(data, p), 1
  {
    if i == 8 then Groups(data, p, out, len)
    else BlocksAfter(data, p, out, len, header, i, BlockAt(data, p, out, len, header & 0x80 != 0))
  }

  /** The rest of the group once block `i`, read from `p`, gave `blk`: stop
      as soon as the array is full, otherwise shift the flag byte. */
  function BlocksAfter(data: seq<byte>, p: nat, out: seq<byte>, len: nat, header: bv8, i: nat, blk: Result<(nat, seq<byte>)>): (r: Result<seq<byte>>)
    requires |out| <= len && i < 8
    requires blk.Ok? ==> p < blk.value.0 <= |data| && |out| <= |blk.value.1| <= len && blk.value.1[..|out|] == out
    ensures r.Ok? ==> |r.value| == len && r.value[..|out|] == out
    decreases Remaining(data, p), 0
  {
    if blk.Fail? then Fail(blk.error)
    else
      var (q, grown) := blk.value;
      if |grown| >= len then Ok(grown)
      else
        var r := Blocks(data, q, grown, len, header << 1, i + 1);
        assert r.Ok? ==> r.value[..|out|] == r.value[..|grown|][..|out|];
        r
  }

  /** The output length: the 32-bit header shifted right by 8. */
  function Length(data: seq<byte>): nat
    requires |data| >= 4
  {
    U32At(data, 0) / 256
  }

  /** `LZ11.Decompress` on the bytes of the stream. */
  function Decompress(data: seq<byte>): (r: Result<seq<byte>>)
    ensures |data| < 4 ==> r == Fail(EndOfStream)
    ensures r.Ok? ==> |r.value| == Length(data)
  {
    if |data| < 4 then Fail(EndOfStream)
    else Groups(data, 4, [], Length(data))
  }

  // ---------------------------------------------------------------------
  // Properties of the format

  /** The three encodings and their ranges: top nibble 0 gives lengths 17 to
      272 in three bytes, top nibble 1 lengths 273 to 65808 in four bytes,
      any other top nibble lengths 3 to 16 in two bytes. */
  lemma ReferenceForms(data: seq<byte>, p: nat)
    requires Reference(data, p).Ok?
    ensures var ref := Reference(data, p).value;
      && (data[p] / 16 == 0 ==> 0x11 <= ref.length <= 0x110 && ref.next == p + 3)
      && (data[p] / 16 == 1 ==> 0x111 <= ref.length <= 0x10110 && ref.next == p + 4)
      && (data[p] / 16 >= 2 ==> 3 <= ref.length <= 16 && ref.next == p + 2)
  {
  }

  /** The shortest encoding of a back-reference, the inverse of `Reference`. */
  function EncodeRef(length: nat, offset: nat): (r: seq<byte>)
    requires 3 <= length <= 0x10110 && 1 <= offset <= 0x1000
  {
    var o := offset - 1;
    if length <= 16 then [(length - 1) * 16 + o / 256, o % 256]
    else if length <= 0x110 then
      var l := length - 0x11;
      [l / 16, l % 16 * 16 + o / 256, o % 256]
    else
      var l := length - 0x111;
      [0x10 + l / 0x1000, l / 16 % 256, l % 16 * 16 + o / 256, o % 256]
  }

  /** Every length and offset a reference can carry is read back from its
      encoding, whatever follows it. */
  lemma RefRoundTrip(length: nat, offset: nat, tail: seq<byte>)
    requires 3 <= length <= 0x10110 && 1 <= offset <= 0x1000
    ensures Reference(EncodeRef(length, offset) + tail, 0) == Ok(Ref(length, offset, |EncodeRef(length, offset)|))
  {
    var data := EncodeRef(length, offset) + tail;
    if length <= 16 {
      ShortRoundTrip(length, offset, data);
    } else if length <= 0x110 {
      MediumRoundTrip(length, offset, data);
    } else {
      LongRoundTrip(length, offset, data);
    }
  }

  lemma ShortRoundTrip(length: nat, offset: nat, data: seq<byte>)
    requires 3 <= length <= 16 && 1 <= offset <= 0x1000
    requires |data| >= 2 && data[..2] == EncodeRef(length, offset)
    ensures Reference(data, 0) == Ok(Ref(length, offset, 2))
  {
    var o := offset - 1;
    var a: int := data[0];
    assert a == (length - 1) * 16 + o / 256 && data[1] == o % 256;
    assert a / 16 == length - 1 && a % 16 == o / 256;
  }

  lemma MediumRoundTrip(length: nat, offset: nat, data: seq<byte>)
    requires 17 <= length <= 0x110 && 1 <= offset <= 0x1000
    requires |data| >= 3 && data[..3] == EncodeRef(length, offset)
    ensures Reference(data, 0) == Ok(Ref(length, offset, 3))
  {
    var l := length - 0x11;
    var o := offset - 1;
    assert data[0] == l / 16 && data[1] == l % 16 * 16 + o / 256 && data[2] == o % 256;
  }

  lemma LongRoundTrip(length: nat, offset: nat, data: seq<byte>)
    requires 0x111 <= length <= 0x10110 && 1 <= offset <= 0x1000
    requires |data| >= 4 && data[..4] == EncodeRef(length, offset)
    ensures Reference(data, 0) == Ok(Ref(length, offset, 4))
  {
    var l := length - 0x111;
    var o := offset - 1;
    assert l == l / 0x1000 * 0x1000 + l / 16 % 256 * 16 + l % 16;
    assert data[0] == 0x10 + l / 0x1000 && data[1] == l / 16 % 256;
    assert data[2] == l % 16 * 16 + o / 256 && data[3] == o % 256;
  }

  /** `header & 0x80` after `i` shifts left tests bit `7 - i` of the flag
      byte: the flags are read most significant bit first. */
  lemma {:induction false} FlagOrder(header: bv8, i: nat)
    requires i < 8
    ensures ShiftedFlags(header, i) & 0x80 != 0 <==> (header >> (7 - i)) & 1 == 1
  {
    ShiftedFlagsIsShift(header, i);
  }

  /** The flag byte after `i` executions of `header <<= 1`. */
  function ShiftedFlags(header: bv8, i: nat): bv8
    decreases i
  {
    if i == 0 then header else ShiftedFlags(header, i - 1) << 1
  }

  lemma {:induction false} ShiftedFlagsIsShift(header: bv8, i: nat)
    requires i < 8
    ensures ShiftedFlags(header, i) == header << i
  {
    if i > 0 {
      ShiftedFlagsIsShift(header, i - 1);
    }
  }

  /** A successful decode fills exactly the declared length. */
  lemma DecompressLength(data: seq<byte>)
    requires Decompress(data).Ok?
    ensures |data| >= 4 && |Decompress(data).value| == Length(data)
  {
  }

  /** A declared length of zero always fails: the first block has nowhere to
      write. */
  lemma EmptyOutputFails(data: seq<byte>)
    requires |data| >= 4 && Length(data) == 0
    ensures Decompress(data).Fail?
  {
    if 4 < |data| {
      var blk := BlockAt(data, 5, [], 0, (data[4] as bv8) & 0x80 != 0);
      assert Blocks(data, 5, [], 0, data[4] as bv8, 0) == BlocksAfter(data, 5, [], 0, data[4] as bv8, 0, blk);
    }
  }

  /** A literal `A` followed by a two-byte reference (length 3, distance 1)
      repeats it: four bytes, as declared. */
  lemma Example()
    ensures Decompress([0x00, 0x04, 0x00, 0x00, 0x40, 0x41, 0x20, 0x00]) == Ok([0x41, 0x41, 0x41, 0x41])
  {
    var data: seq<byte> := [0x00, 0x04, 0x00, 0x00, 0x40, 0x41, 0x20, 0x00];
    assert Length(data) == 4;
    ExampleBlocks(data, 4);
  }

  /** The same stream declaring three bytes: the reference would write past
      the end of the output array, which is an index error (the LZ10 decoder
      truncates instead). */
  lemma Overshoot()
    ensures Decompress([0x00, 0x03, 0x00, 0x00, 0x40, 0x41, 0x20, 0x00]) == Fail(IndexOutOfRange)
  {
    var data: seq<byte> := [0x00, 0x03, 0x00, 0x00, 0x40, 0x41, 0x20, 0x00];
    assert Length(data) == 3;
    ExampleBlocks(data, 3);
  }

  /** The two blocks of the examples against an output of `len` bytes. */
  lemma ExampleBlocks(data: seq<byte>, len: nat)
    requires 2 <= len <= 4 && data == [0x00, len as byte, 0x00, 0x00, 0x40, 0x41, 0x20, 0x00]
    ensures Groups(data, 4, [], len) == if len == 4 then Ok([0x41, 0x41, 0x41, 0x41]) else Fail(IndexOutOfRange)
  {
    ExampleLiteral(data, len);
    ExampleReference(data, len);
  }

  /** The flag byte 0x40: block 0 is the literal `A`, block 1 a reference. */
  lemma ExampleLiteral(data: seq<byte>, len: nat)
    requires 2 <= len <= 4 && data == [0x00, len as byte, 0x00, 0x00, 0x40, 0x41, 0x20, 0x00]
    ensures Groups(data, 4, [], len) == BlocksAfter(data, 6, [0x41], len, 0x80, 1, BlockAt(data, 6, [0x41], len, true))
  {
    var h: bv8 := 0x40;
    assert data[4] as bv8 == h;
    assert h & 0x80 == 0 && h << 1 == 0x80;
    var lit := BlockAt(data, 5, [], len, false);
    assert lit == Ok((6, [0x41]));
    assert Blocks(data, 5, [], len, h, 0) == BlocksAfter(data, 5, [], len, h, 0, lit);
  }

  /** The reference `20 00`: three copies of the byte one place back. */
  lemma ExampleReference(data: seq<byte>, len: nat)
    requires 2 <= len <= 4 && data == [0x00, len as byte, 0x00, 0x00, 0x40, 0x41, 0x20, 0x00]
    ensures BlockAt(data, 6, [0x41], len, true) == if len == 4 then Ok((8, [0x41, 0x41, 0x41, 0x41])) else Fail(IndexOutOfRange)
  {
    assert Reference(data, 6) == Ok(Ref(3, 1, 8));
    if len == 4 {
      assert CopyBack([0x41], 1, 3) == [0x41, 0x41, 0x41, 0x41];
    }
  }

  // ---------------------------------------------------------------------
  // The method

  /** `LZ11.Decompress`: `result` is the preallocated output array and
      `dstoffset` the number of bytes written to it. */
  method Decompress11(data: seq<byte>) returns (r: Result<seq<byte>>)
    ensures r == Decompress(data)
  {
    if |data| < 4 {
      return Fail(EndOfStream);
    }
    var length := U32At(data, 0) / 256;
    var result := new byte[length];
    var dstoffset := 0;
    var pos := 4;
    while true
      invariant 4 <= pos <= |data| + 4 && dstoffset <= result.Length == length
      invariant Groups(data, pos, result[..dstoffset], length) == Decompress(data)
      decreases Remaining(data, pos)
    {
      if pos >= |data| {
        return Fail(EndOfStream);
      }
      var header := data[pos] as bv8;
      pos := pos + 1;
      ghost var start := pos;
      var i := 0;
      while i < 8
        invariant 0 <= i <= 8 && start <= pos <= |data| && dstoffset <= result.Length == length
        invariant Blocks(data, pos, result[..dstoffset], length, header, i) == Decompress(data)
        decreases 8 - i
      {
        ghost var out := result[..dstoffset];
        var blk, next, dst := ReadBlock(data, pos, result, dstoffset, header & 0x80 != 0);
        if blk.Fail? {
          return Fail(blk.error);
        }
        assert Blocks(data, pos, out, length, header, i) == BlocksAfter(data, pos, out, length, header, i, Ok((next, result[..dst])));
        pos, dstoffset := next, dst;
        if dstoffset >= length {
          assert result[..] == result[..dstoffset];
          return Ok(result[..]);
        }
        header := header << 1;
        i := i + 1;
      }
    }
  }

  /** One block of the inner loop, written into `result` from `dstoffset`. */
  method ReadBlock(data: seq<byte>, pos: nat, result: array<byte>, dstoffset: nat, isRef: bool)
      returns (r: Result<()>, next: nat, dst: nat)
    requires dstoffset <= result.Length
    modifies result
    ensures r.Ok? ==> dst <= result.Length
    ensures BlockAt(data, pos, old(result[..dstoffset]), result.Length, isRef)
      == if r.Ok? then Ok((next, result[..dst])) else Fail(r.error)
  {
    next, dst := pos, dstoffset;
    if !isRef {
      if pos >= |data| {
        return Fail(EndOfStream), next, dst;
      }
      var b := data[pos];
      if dstoffset >= result.Length {
        return Fail(IndexOutOfRange), next, dst;
      }
      result[dstoffset] := b;
      assert result[..dstoffset + 1] == old(result[..dstoffset]) + [b];
      return Ok(()), pos + 1, dstoffset + 1;
    }
    var ref := Reference(data, pos);
    if ref.Fail? {
      return Fail(ref.error), next, dst;
    }
    var copied := CopyWithin(result, dstoffset, ref.value.offset, ref.value.length, result[..dstoffset]);
    if copied.Fail? {
      return Fail(copied.error), next, dst;
    }
    return Ok(()), ref.value.next, copied.value;
  }

  /** `for (j = 0; j < length2; j++) result[dstoffset] = result[dstoffset -
      offset]; dstoffset++;` with the array's bounds checks made explicit.
      Only the first read can fall before the array, so that check is made
      once, ahead of the loop; both checks raise the same index error. */
  method CopyWithin(result: array<byte>, dstoffset: nat, offset: nat, length2: nat, ghost out: seq<byte>) returns (r: Result<nat>)
    requires dstoffset <= result.Length && 1 <= offset && 1 <= length2 && result[..dstoffset] == out
    modifies result
    ensures r == if offset > dstoffset || dstoffset + length2 > result.Length then Fail(IndexOutOfRange) else Ok(dstoffset + length2)
    ensures r.Ok? ==> result[..dstoffset + length2] == CopyBack(out, offset, length2)
  {
    if dstoffset < offset {
      return Fail(IndexOutOfRange);
    }
    ghost var w := CopyBack(out, offset, length2);
    var dst := dstoffset;
    var j := 0;
    while j < length2
      invariant 0 <= j <= length2 && dst == dstoffset + j <= result.Length
      invariant result[..dst] == w[..dst]
    {
      if dst >= result.Length {
        return Fail(IndexOutOfRange);
      }
      CopyBackAt(out, offset, length2, dst);
      assert result[dst - offset] == result[..dst][dst - offset] == w[dst - offset] == w[dst];
      result[dst] := result[dst - offset];
      assert result[..dst + 1] == w[..dst + 1];
      dst := dst + 1;
      j := j + 1;
    }
    assert w[..dst] == w;
    return Ok(dst);
  }
}
