/** `Cetera.Compression.CriWare`: the container header of CriWare compressed
    data and the dispatch on its compression method.  The LZSS and Huffman
    decoders it hands the payload to are not part of this model; they are
    parameters here.  The stream is modelled by the bytes from its current
    position to its end. */
module CriWare {
  import opened Primitives
  import BinaryReaderX
  import Rle

  /** The `Method` enumeration: the low three bits of the header. */
  const NoCompression := 0
  const Lzss := 1
  const Huffman4Bit := 2
  const Huffman8Bit := 3
  const RunLength := 4

  /** `size = sizeAndMethod / 8` on the signed header: truncated toward zero. */
  function Size(v: int): int
  {
    CsDiv(v, 8)
  }

  /** `(Method)(sizeAndMethod % 8)`: the remainder takes the header's sign. */
  function MethodOf(v: int): int
  {
    CsRem(v, 8)
  }

  /** The header is `8 * size + method`; a non-negative header has a method
      in 0 to 7 and its size is the ordinary quotient, a negative one has a
      method in -7 to 0. */
  lemma HeaderSplit(v: int)
    ensures v == 8 * Size(v) + MethodOf(v)
    ensures v >= 0 ==> 0 <= MethodOf(v) < 8 && Size(v) == v / 8 && MethodOf(v) == v % 8
    ensures v < 0 ==> -8 < MethodOf(v) <= 0 && Size(v) <= 0
  {
  }

  /** Method 0: `ReadBytes(size)` after the header, which throws on a negative
      count and returns fewer bytes when the stream ends first. */
  function Stored(data: seq<byte>, size: int): (r: Result<seq<byte>>)
    ensures size < 0 <==> r.Fail?
    ensures r.Ok? && 4 + size <= |data| ==> r.value == data[4..4 + size]
  {
    if size < 0 then Fail(ArgumentOutOfRange) else Ok(BinaryReaderX.Take(data, 4, size))
  }

  /** `CriWare.GetDecompressedBytes`: the payload after the header goes to
      the decoder the method names, together with the size; any method
      other than 0 to 4 is not supported. */
  function GetDecompressedBytes(data: seq<byte>,
                                lzss: (seq<byte>, int) -> Result<seq<byte>>,
                                huffman: (seq<byte>, int, int) -> Result<seq<byte>>): (r: Result<seq<byte>>)
    ensures |data| < 4 ==> r == Fail(EndOfStream)
  {
    if |data| < 4 then Fail(EndOfStream)
    else
      var v := I32At(data, 0);
      var size := Size(v);
      var m := MethodOf(v);
      if m == NoCompression then Stored(data, size)
      else if m == Lzss then lzss(data[4..], size)
      else if m == Huffman4Bit then huffman(data[4..], 4, size)
      else if m == Huffman8Bit then huffman(data[4..], 8, size)
      else if m == RunLength then Rle.Decompress(data[4..], size)
      else Fail(NotSupported)
  }

  /** The four little-endian bytes of a header `8 * size + method`. */
  function HeaderBytes(size: nat, m: nat): (r: seq<byte>)
    requires size < 0x1000_0000 && m < 8
    ensures |r| == 4
  {
    var v := 8 * size + m;
    var v1 := v / 0x100;
    var v2 := v1 / 0x100;
    [v % 0x100, v1 % 0x100, v2 % 0x100, v2 / 0x100]
  }

  /** A header written by `HeaderBytes` reads back as the size and method it
      was made from. */
  lemma HeaderRoundTrip(size: nat, m: nat, rest: seq<byte>)
    requires size < 0x1000_0000 && m < 8
    ensures var data := HeaderBytes(size, m) + rest;
      I32At(data, 0) == 8 * size + m && Size(I32At(data, 0)) == size && MethodOf(I32At(data, 0)) == m
  {
    var data := HeaderBytes(size, m) + rest;
    HeaderValue(size, m, data);
    HeaderSplit(8 * size + m);
  }

  lemma HeaderValue(size: nat, m: nat, data: seq<byte>)
    requires size < 0x1000_0000 && m < 8
    requires |data| >= 4 && data[..4] == HeaderBytes(size, m)
    ensures I32At(data, 0) == 8 * size + m
  {
    var v := 8 * size + m;
    var v1 := v / 0x100;
    var v2 := v1 / 0x100;
    assert data[0] == v % 0x100 && data[1] == v1 % 0x100 && data[2] == v2 % 0x100 && data[3] == v2 / 0x100;
    assert v == v % 0x100 + 0x100 * (v1 % 0x100) + 0x1_0000 * (v2 % 0x100) + 0x100_0000 * (v2 / 0x100);
  }

  /** Every header routes its payload to the decoder of its method. */
  lemma Routes(size: nat, m: nat, payload: seq<byte>,
               lzss: (seq<byte>, int) -> Result<seq<byte>>,
               huffman: (seq<byte>, int, int) -> Result<seq<byte>>)
    requires size < 0x1000_0000 && m < 8
    ensures var r := GetDecompressedBytes(HeaderBytes(size, m) + payload, lzss, huffman);
      && (m == NoCompression ==> r == Ok(BinaryReaderX.Take(HeaderBytes(size, m) + payload, 4, size)))
      && (m == Lzss ==> r == lzss(payload, size))
      && (m == Huffman4Bit ==> r == huffman(payload, 4, size))
      && (m == Huffman8Bit ==> r == huffman(payload, 8, size))
      && (m == RunLength ==> r == Rle.Decompress(payload, size))
      && (m > RunLength ==> r == Fail(NotSupported))
  {
    HeaderRoundTrip(size, m, payload);
    assert (HeaderBytes(size, m) + payload)[4..] == payload;
  }

  /** Stored data is read back unchanged, whatever follows it. */
  lemma StoredRoundTrip(payload: seq<byte>, tail: seq<byte>,
                        lzss: (seq<byte>, int) -> Result<seq<byte>>,
                        huffman: (seq<byte>, int, int) -> Result<seq<byte>>)
    requires |payload| < 0x1000_0000
    ensures GetDecompressedBytes(HeaderBytes(|payload|, NoCompression) + payload + tail, lzss, huffman) == Ok(payload)
  {
    var data := HeaderBytes(|payload|, NoCompression) + payload + tail;
    HeaderRoundTrip(|payload|, NoCompression, payload + tail);
    assert HeaderBytes(|payload|, NoCompression) + (payload + tail) == data;
    assert data[4..4 + |payload|] == payload;
  }

  /** A header with the sign bit set never decodes: its method is 0 with a
      negative size, or not a method at all. */
  lemma NegativeHeaderFails(data: seq<byte>,
                            lzss: (seq<byte>, int) -> Result<seq<byte>>,
                            huffman: (seq<byte>, int, int) -> Result<seq<byte>>)
    requires |data| >= 4 && I32At(data, 0) < 0
    ensures var r := GetDecompressedBytes(data, lzss, huffman);
      r == Fail(NotSupported) || r == Fail(ArgumentOutOfRange)
  {
    var v := I32At(data, 0);
    HeaderSplit(v);
    if MethodOf(v) == 0 {
      assert Size(v) < 0;
    }
  }

  /** A zero header is method 0 with size 0: an empty result. */
  lemma ZeroHeader(data: seq<byte>,
                   lzss: (seq<byte>, int) -> Result<seq<byte>>,
                   huffman: (seq<byte>, int, int) -> Result<seq<byte>>)
    requires |data| >= 4 && data[..4] == [0, 0, 0, 0]
    ensures GetDecompressedBytes(data, lzss, huffman) == Ok([])
  {
    assert data[0] == 0 && data[1] == 0 && data[2] == 0 && data[3] == 0;
  }
}
