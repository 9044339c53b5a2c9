/** `Cetera.Compression.RLE`: run-length decoding.  Blocks are read one after
    the other and their bytes appended to a growing list until the list holds
    exactly the expected number of bytes. */
module Rle {
  import opened Primitives

  /** The bytes one block emits and where the next block starts.  A flag byte
      of 128 or more repeats the following byte `flag - 128 + 3` times; a
      smaller flag is followed by `flag + 1` bytes copied as they are
      (`ReadBytes`: fewer when the stream ends first). */
  function Block(data: seq<byte>, p: nat): (r: Result<(seq<byte>, nat)>)
    ensures r.Ok? ==> p < r.value.1 <= |data|
  {
    if p >= |data| then Fail(EndOfStream)
    else if data[p] >= 128 then
      if p + 1 >= |data| then Fail(EndOfStream)
      else Ok((seq(data[p] - 128 + 3, _ => data[p + 1]), p + 2))
    else
      var end := if p + 1 + data[p] + 1 <= |data| then p + 1 + data[p] + 1 else |data|;
      Ok((data[p + 1..end], end))
  }

  /** Blocks from `p` on, appended to `out`, up to the first time the output
      holds `len` bytes; the decoded bytes and the position after the last
      block read. */
  function DecodeFrom(data: seq<byte>, p: nat, out: seq<byte>, len: int): (r: Result<(seq<byte>, nat)>)
    requires p <= |data|
    ensures r.Ok? ==> |r.value.0| == len && r.value.1 <= |data|
    decreases |data| - p, 1
  {
    DecodeAfter(data, p, Block(data, p), out, len)
  }

  /** The rest of `DecodeFrom` once the block at `p` has given `blk`. */
  function DecodeAfter(data: seq<byte>, p: nat, blk: Result<(seq<byte>, nat)>, out: seq<byte>, len: int): (r: Result<(seq<byte>, nat)>)
    requires p <= |data| && (blk.Ok? ==> p < blk.value.1 <= |data|)
    ensures r.Ok? ==> |r.value.0| == len && r.value.1 <= |data|
    decreases |data| - p, 0
  {
    if blk.Fail? then Fail(blk.error)
    else
      var grown := out + blk.value.0;
      if |grown| == len then Ok((grown, blk.value.1))
      else if |grown| > len then Fail(InvalidData)   // "Went past the end of the stream"
      else DecodeFrom(data, blk.value.1, grown, len)
  }

  /** `RLE.Decompress(instream, decompressedLength)` on the bytes of the stream. */
  function Decompress(data: seq<byte>, len: int): (r: Result<seq<byte>>)
    ensures r.Ok? ==> |r.value| == len
  {
    match DecodeFrom(data, 0, [], len)
    case Fail(e) => Fail(e)
    case Ok(res) => Ok(res.0)
  }

  /** A repeat block holds 3 to 130 copies of the byte after the flag; a copy
      block holds the 1 to 128 bytes after the flag, fewer only at the end of
      the stream. */
  lemma BlockKinds(data: seq<byte>, p: nat)
    requires p + 1 < |data|
    ensures Block(data, p).Ok?
    ensures data[p] >= 128 ==> var bs := Block(data, p).value.0;
      3 <= |bs| <= 130 && |bs| == data[p] - 125 && forall k :: 0 <= k < |bs| ==> bs[k] == data[p + 1]
    ensures data[p] < 128 ==> var (bs, q) := Block(data, p).value;
      1 <= |bs| <= 128 && bs == data[p + 1..q] && (|bs| == data[p] + 1 || q == |data|)
  {
  }

  /** The decoder never looks past the position where it stops: the bytes
      after it are left unread and do not affect the result. */
  lemma {:induction false} UnreadTail(data: seq<byte>, p: nat, out: seq<byte>, len: int, res: seq<byte>, q: nat)
    requires p <= |data| && DecodeFrom(data, p, out, len) == Ok((res, q))
    ensures p <= q <= |data| && DecodeFrom(data[..q], p, out, len) == Ok((res, q))
    decreases |data| - p
  {
    var blk := Block(data, p);
    assert DecodeFrom(data, p, out, len) == DecodeAfter(data, p, blk, out, len);
    var grown := out + blk.value.0;
    var p1 := blk.value.1;
    if |grown| != len {
      UnreadTail(data, p1, grown, len, res, q);
      assert data[..q][..p1] == data[..p1];
    }
    BlockPrefix(data, p, q);
    assert DecodeFrom(data[..q], p, out, len) == DecodeAfter(data[..q], p, blk, out, len);
  }

  /** A block that ends at or before `q` reads the same from `data[..q]`. */
  lemma BlockPrefix(data: seq<byte>, p: nat, q: nat)
    requires q <= |data| && Block(data, p).Ok? && Block(data, p).value.1 <= q
    ensures Block(data[..q], p) == Block(data, p)
  {
    var end := Block(data, p).value.1;
    if data[p] < 128 {
      assert data[..q][p + 1..end] == data[p + 1..end];
    }
  }

  /** How many bytes the next literal block of `Encode` takes. */
  function Chunk(xs: seq<byte>): (n: nat)
    ensures xs != [] ==> 1 <= n <= 128 && n <= |xs|
  {
    if |xs| < 128 then |xs| else 128
  }

  /** A reference encoder: the bytes cut into literal blocks of at most 128,
      each behind the flag `count - 1`. */
  function Encode(xs: seq<byte>): (r: seq<byte>)
    decreases |xs|
  {
    if xs == [] then []
    else
      var n := Chunk(xs);
      [(n - 1) as byte] + xs[..n] + Encode(xs[n..])
  }

  /** The first block `Encode` writes reads back as its `Chunk` literal bytes. */
  lemma EncodeHead(xs: seq<byte>, tail: seq<byte>)
    requires xs != []
    ensures Encode(xs) + tail == ([(Chunk(xs) - 1) as byte] + xs[..Chunk(xs)]) + (Encode(xs[Chunk(xs)..]) + tail)
    ensures Block(Encode(xs) + tail, 0) == Ok((xs[..Chunk(xs)], Chunk(xs) + 1))
  {
    var n := Chunk(xs);
    var head := [(n - 1) as byte] + xs[..n];
    var rest := Encode(xs[n..]) + tail;
    assert Encode(xs) + tail == head + rest;
    LiteralBlock(head, rest, xs[..n]);
  }

  /** A literal block at the start of the stream reads back its bytes. */
  lemma LiteralBlock(head: seq<byte>, rest: seq<byte>, bs: seq<byte>)
    requires 1 <= |bs| <= 128 && head == [(|bs| - 1) as byte] + bs
    ensures Block(head + rest, 0) == Ok((bs, |bs| + 1))
  {
    var data := head + rest;
    assert data[0] == |bs| - 1;
    assert data[1..|bs| + 1] == bs;
  }

  /** Decoding what `Encode` wrote, with the encoded length as the expected
      length, gives the bytes back and stops right after them, whatever
      follows in the stream. */
  lemma {:induction false} EncodeRoundTrip(xs: seq<byte>, tail: seq<byte>, out: seq<byte>)
    requires xs != []
    ensures DecodeFrom(Encode(xs) + tail, 0, out, |out| + |xs|) == Ok((out + xs, |Encode(xs)|))
    decreases |xs|
  {
    var n := Chunk(xs);
    var data := Encode(xs) + tail;
    var len := |out| + |xs|;
    EncodeHead(xs, tail);
    assert DecodeFrom(data, 0, out, len) == DecodeAfter(data, 0, Ok((xs[..n], n + 1)), out, len);
    var rest := Encode(xs[n..]);
    if n < |xs| {
      var grown := out + xs[..n];
      EncodeRoundTrip(xs[n..], tail, grown);
      assert grown + xs[n..] == out + xs;
      ShiftDecode([(n - 1) as byte] + xs[..n], rest + tail, grown, len);
    } else {
      assert xs[..n] == xs && rest == [];
    }
  }

  /** Decoding after a prefix is decoding the rest, shifted by its length. */
  lemma {:induction false} ShiftDecode(pre: seq<byte>, data: seq<byte>, out: seq<byte>, len: int)
    ensures DecodeFrom(pre + data, |pre|, out, len) == Shifted(DecodeFrom(data, 0, out, len), |pre|)
  {
    ShiftDecodeFrom(pre, data, 0, out, len);
  }

  function Shifted(r: Result<(seq<byte>, nat)>, d: nat): Result<(seq<byte>, nat)>
  {
    if r.Fail? then r else Ok((r.value.0, r.value.1 + d))
  }

  lemma {:induction false} ShiftDecodeFrom(pre: seq<byte>, data: seq<byte>, p: nat, out: seq<byte>, len: int)
    requires p <= |data|
    ensures DecodeFrom(pre + data, |pre| + p, out, len) == Shifted(DecodeFrom(data, p, out, len), |pre|)
    decreases |data| - p
  {
    var whole := pre + data;
    var blk := Block(data, p);
    var blk' := Block(whole, |pre| + p);
    assert blk' == Shifted(blk, |pre|) by {
      if p < |data| {
        assert whole[|pre| + p] == data[p];
        if p + 1 < |data| {
          assert whole[|pre| + p + 1] == data[p + 1];
        }
        if data[p] < 128 {
          var end := blk.value.1;
          assert whole[|pre| + p + 1..|pre| + end] == data[p + 1..end];
        }
      }
    }
    assert DecodeFrom(whole, |pre| + p, out, len) == DecodeAfter(whole, |pre| + p, blk', out, len);
    assert DecodeFrom(data, p, out, len) == DecodeAfter(data, p, blk, out, len);
    if blk.Ok? && |out + blk.value.0| < len {
      ShiftDecodeFrom(pre, data, blk.value.1, out + blk.value.0, len);
    }
  }

  /** The worked example: a copy block of three bytes and a repeat block of
      four, for an expected length of 7. */
  lemma Example()
    ensures Decompress([0x02, 0xAA, 0xBB, 0xCC, 0x81, 0xFF], 7) == Ok([0xAA, 0xBB, 0xCC, 0xFF, 0xFF, 0xFF, 0xFF])
  {
    var data: seq<byte> := [0x02, 0xAA, 0xBB, 0xCC, 0x81, 0xFF];
    assert data[1..4] == [0xAA, 0xBB, 0xCC];
    assert Block(data, 0) == Ok(([0xAA, 0xBB, 0xCC], 4));
    assert seq(4, _ => 0xFF) == [0xFF, 0xFF, 0xFF, 0xFF];
    assert Block(data, 4) == Ok(([0xFF, 0xFF, 0xFF, 0xFF], 6));
    assert [0xAA, 0xBB, 0xCC] + [0xFF, 0xFF, 0xFF, 0xFF] == [0xAA, 0xBB, 0xCC, 0xFF, 0xFF, 0xFF, 0xFF];
    assert DecodeFrom(data, 4, [0xAA, 0xBB, 0xCC], 7) == DecodeAfter(data, 4, Block(data, 4), [0xAA, 0xBB, 0xCC], 7);
    assert DecodeFrom(data, 0, [], 7) == DecodeAfter(data, 0, Block(data, 0), [], 7);
    assert [] + [0xAA, 0xBB, 0xCC] == [0xAA, 0xBB, 0xCC];
  }

  /** `RLE.Decompress`: the decoded bytes of the loop below, started at the
      beginning of the stream. */
  method DecompressBytes(data: seq<byte>, len: int) returns (r: Result<seq<byte>>)
    ensures r == Decompress(data, len)
  {
    var res := DecodeBytes(data, 0, len);
    if res.Fail? {
      return Fail(res.error);
    }
    return Ok(res.value.0);
  }

  /** The `while (true)` loop over blocks from `start`, appending to the
      result list and checking its length after every block; also where
      reading stopped. */
  method DecodeBytes(data: seq<byte>, start: nat, len: int) returns (r: Result<(seq<byte>, nat)>)
    requires start <= |data|
    ensures r == DecodeFrom(data, start, [], len)
  {
    var result: seq<byte> := [];
    var pos: nat := start;
    while true
      invariant pos <= |data|
      invariant DecodeFrom(data, pos, result, len) == DecodeFrom(data, start, [], len)
      decreases |data| - pos
    {
      ghost var p0 := pos;
      if pos >= |data| {
        return Fail(EndOfStream);
      }
      var flag := data[pos];
      pos := pos + 1;
      var bytes: seq<byte>;
      if flag >= 128 {
        if pos >= |data| {
          return Fail(EndOfStream);
        }
        var b := data[pos];
        pos := pos + 1;
        bytes := seq(flag - 128 + 3, _ => b);
      } else {
        var end := if pos + flag + 1 <= |data| then pos + flag + 1 else |data|;
        bytes := data[pos..end];
        pos := end;
      }
      assert Block(data, p0) == Ok((bytes, pos));
      assert DecodeFrom(data, p0, result, len) == DecodeAfter(data, p0, Ok((bytes, pos)), result, len);
      result := result + bytes;
      if |result| == len {
        return Ok((result, pos));
      } else if |result| > len {
        return Fail(InvalidData);
      }
    }
  }
}
