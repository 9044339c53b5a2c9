/** `Cetera.Compression.LZ10`: the GBA/DS BIOS LZ77 format ("type 0x10").  A
    4-byte header (type byte, 24-bit little-endian size) is followed by groups
    of a flag byte and eight blocks; a block is a literal byte or a two-byte
    back-reference into the last 4096 bytes written, kept in a ring buffer. */
module Lz10 {
  import opened Primitives
  import opened Lz77

  const RingSize: nat := 0x1000

  const NotEnoughData: Error := Exception("Not enough data")
  const TooFarBack: Error := Exception("Cannot go back more than already written")
  const TooMuchInput: Error := Exception("Too much input")

  /** The 24-bit size in bytes 1 to 3.  The type byte is read but never
      checked; bytes missing from a short stream stay 0 in the read buffer. */
  function Header(data: seq<byte>): (size: nat)
    ensures size < 0x100_0000
  {
    ByteOr0(data, 1) + 0x100 * ByteOr0(data, 2) + 0x1_0000 * ByteOr0(data, 3)
  }

  /** The single-bit masks the flag test walks through, from 0x80 down to 1. */
  predicate IsMask(m: int)
  {
    m == 1 || m == 2 || m == 4 || m == 8 || m == 16 || m == 32 || m == 64 || m == 128
  }

  /** `(flags & mask) > 0`: the block under `mask` is a back-reference.  As
      `mask` has a single bit set, this is that bit of `flags`. */
  predicate FlagSet(flags: byte, mask: int)
    requires IsMask(mask)
  {
    flags / mask % 2 == 1
  }

  /** The decoder's state between blocks: input position (`readBytes`), bytes
      written, and the current flag byte and mask. */
  datatype State = State(pos: nat, out: seq<byte>, flags: byte, mask: int)

  /** The state before the first block: four header bytes counted as read,
      and mask 1 so that the first block reads a flag byte. */
  const Start: State := State(4, [], 0, 1)

  /** Length of a back-reference: `(byte1 >> 4) + 3`. */
  function RefLength(b1: byte): nat { b1 / 16 + 3 }

  /** Displacement of a back-reference: `(((byte1 & 0x0F) << 8) | byte2) + 1`,
      the OR of disjoint bit ranges written as a sum (see `DispIsOr`). */
  function RefDisp(b1: byte, b2: byte): nat { b1 % 16 * 256 + b2 + 1 }

  /** The start of a pass of the `while` loop: a new flag byte when the
      mask has run out, otherwise the mask moves one bit right. */
  function NextMask(data: seq<byte>, s: State): (r: Result<State>)
    requires IsMask(s.mask)
    ensures r.Ok? ==> s.pos <= r.value.pos && IsMask(r.value.mask) && r.value.out == s.out
    ensures r.Ok? && s.pos <= |data| ==> r.value.pos <= |data|
  {
    if s.mask != 1 then Ok(s.(mask := s.mask / 2))
    else if s.pos >= |data| then Fail(NotEnoughData)
    else Ok(State(s.pos + 1, s.out, data[s.pos], 0x80))
  }

  /** The block under the current mask: a two-byte back-reference when its
      flag bit is set, otherwise one literal byte. */
  function BlockAt(data: seq<byte>, s: State): (r: Result<State>)
    requires IsMask(s.mask)
    ensures r.Ok? ==> s.pos < r.value.pos <= |data| && IsMask(r.value.mask)
    ensures r.Ok? ==> |s.out| < |r.value.out| && r.value.out[..|s.out|] == s.out
  {
    if FlagSet(s.flags, s.mask) then
      if s.pos + 1 >= |data| then Fail(NotEnoughData)
      else
        var disp := RefDisp(data[s.pos], data[s.pos + 1]);
        if disp > |s.out| then Fail(TooFarBack)
        else Ok(State(s.pos + 2, CopyBack(s.out, disp, RefLength(data[s.pos])), s.flags, s.mask))
    else if s.pos >= |data| then Fail(NotEnoughData)
    else Ok(s.(pos := s.pos + 1, out := s.out + [data[s.pos]]))
  }

  /** One pass of the `while` loop: the mask update, then one block. */
  function Step(data: seq<byte>, s: State): (r: Result<State>)
    requires IsMask(s.mask)
    ensures r.Ok? ==> s.pos < r.value.pos <= |data| && IsMask(r.value.mask)
    ensures r.Ok? ==> |s.out| < |r.value.out| && r.value.out[..|s.out|] == s.out
  {
    var u := NextMask(data, s);
    if u.Fail? then Fail(u.error) else BlockAt(data, u.value)
  }

  /** The loop from state `s` until at least `size` bytes are written: the
      bytes written and the input position reached. */
  function Loop(data: seq<byte>, s: State, size: nat): (r: Result<(seq<byte>, nat)>)
    requires IsMask(s.mask)
    ensures r.Ok? ==> size <= |r.value.0| && |s.out| <= |r.value.0| && r.value.0[..|s.out|] == s.out
    decreases Remaining(data, s.pos), 1
  {
    if |s.out| >= size then Ok((s.out, s.pos))
    else LoopAfter(data, s.pos, s.out, Step(data, s), size)
  }

  /** The rest of `Loop` once the block read from position `p` (with `out`
      written before it) gave `next`. */
  function LoopAfter(data: seq<byte>, p: nat, out: seq<byte>, next: Result<State>, size: nat): (r: Result<(seq<byte>, nat)>)
    requires next.Ok? ==> p < next.value.pos <= |data| && IsMask(next.value.mask)
    requires next.Ok? ==> |out| <= |next.value.out| && next.value.out[..|out|] == out
    ensures r.Ok? ==> size <= |r.value.0| && |out| <= |r.value.0| && r.value.0[..|out|] == out
    decreases Remaining(data, p), 0
  {
    if next.Fail? then Fail(next.error)
    else
      var r := Loop(data, next.value, size);
      assert r.Ok? ==> r.value.0[..|out|] == next.value.out[..|out|];
      r
  }

  /** The whole decoding loop from the start of the stream. */
  function Run(data: seq<byte>): Result<(seq<byte>, nat)>
  {
    Loop(data, Start, Header(data))
  }

  /** Unread input is tolerated only up to the next 4-byte boundary plus 4:
      `(readBytes ^ (readBytes & 3)) + 4 < inLength` throws. */
  predicate TooMuch(p: nat, inLength: nat)
  {
    p < inLength && p - p % 4 + 4 < inLength
  }

  /** `LZ10.Decompress` on the bytes of the stream. */
  function Decompress(data: seq<byte>): (r: Result<seq<byte>>)
    ensures r.Ok? ==> |r.value| == Header(data)
  {
    match Run(data)
    case Fail(e) => Fail(e)
    case Ok((out, p)) =>
      if TooMuch(p, |data|) then Fail(TooMuchInput) else Ok(out[..Header(data)])
  }

  // ---------------------------------------------------------------------
  // Properties of the format

  /** A back-reference copies 3 to 18 bytes from 1 to 4096 bytes back, and
      the displacement is the OR the source computes. */
  lemma DispIsOr(b1: byte, b2: byte)
    ensures 3 <= RefLength(b1) <= 18 && 1 <= RefDisp(b1, b2) <= RingSize
    ensures RefDisp(b1, b2) == Or(b1 % 16 * Pow2(8), b2) + 1
  {
    assert Pow2(8) == 256 by {
      assert Pow2(4) == 16;
    }
    OrDisjoint(b1 % 16, b2, 8);
  }

  /** A successful decode has exactly the declared size, even when the last
      back-reference wrote past it. */
  lemma DecompressSize(data: seq<byte>)
    requires Decompress(data).Ok?
    ensures |Decompress(data).value| == Header(data)
    ensures Decompress(data).value == Run(data).value.0[..Header(data)]
  {
  }

  /** The too-much-input rule: a finished loop that stopped at `p` is
      accepted exactly when at most 4 bytes beyond `p` rounded down to a
      multiple of 4 remain. */
  lemma TooMuchInputRule(data: seq<byte>)
    requires Run(data).Ok?
    ensures Decompress(data).Ok? <==> |data| <= Run(data).value.1 - Run(data).value.1 % 4 + 4
  {
  }

  /** Nothing is written yet when the first block is read, so a stream whose
      first block is a back-reference fails. */
  lemma FirstBlockLiteral(data: seq<byte>)
    requires Header(data) > 0 && |data| > 6 && data[4] >= 0x80
    ensures Decompress(data) == Fail(TooFarBack)
  {
    assert FlagSet(data[4], 0x80);
    assert Step(data, Start) == Fail(TooFarBack);
    assert Run(data) == LoopAfter(data, 4, [], Fail(TooFarBack), Header(data));
  }

  /** An example with an overlapping copy: a flag byte 0x40, one literal `A`,
      then a reference one byte back for three bytes gives four `A`s. */
  lemma Example()
    ensures Decompress([0x10, 0x04, 0x00, 0x00, 0x40, 0x41, 0x00, 0x00]) == Ok([0x41, 0x41, 0x41, 0x41])
  {
    var data: seq<byte> := [0x10, 0x04, 0x00, 0x00, 0x40, 0x41, 0x00, 0x00];
    var s1 := State(6, [0x41], 0x40, 0x80);
    var s2 := State(8, [0x41, 0x41, 0x41, 0x41], 0x40, 0x40);
    ExampleLiteral(data);
    ExampleReference(data);
    LoopOk(data, s1, 4, s2);
    LoopOk(data, Start, 4, s1);
    assert s2.out[..4] == s2.out;
  }

  /** The example's first block: the flag byte, then the literal. */
  lemma ExampleLiteral(data: seq<byte>)
    requires data == [0x10, 0x04, 0x00, 0x00, 0x40, 0x41, 0x00, 0x00]
    ensures Header(data) == 4 && Step(data, Start) == Ok(State(6, [0x41], 0x40, 0x80))
  {
    assert [] + [data[5]] == [0x41];
  }

  /** The example's second block: the overlapping back-reference. */
  lemma ExampleReference(data: seq<byte>)
    requires data == [0x10, 0x04, 0x00, 0x00, 0x40, 0x41, 0x00, 0x00]
    ensures Step(data, State(6, [0x41], 0x40, 0x80)) == Ok(State(8, [0x41, 0x41, 0x41, 0x41], 0x40, 0x40))
  {
    ExampleCopy();
    var m := State(6, [0x41], 0x40, 0x40);
    assert NextMask(data, State(6, [0x41], 0x40, 0x80)) == Ok(m);
    assert FlagSet(0x40, 0x40);
    assert RefDisp(data[6], data[7]) == 1 && RefLength(data[6]) == 3;
    assert BlockAt(data, m) == Ok(State(8, [0x41, 0x41, 0x41, 0x41], 0x40, 0x40));
  }

  /** Three bytes copied from one byte back repeat that byte. */
  lemma ExampleCopy()
    ensures CopyBack([0x41], 1, 3) == [0x41, 0x41, 0x41, 0x41]
  {
    var aaaa := [0x41, 0x41, 0x41, 0x41];
    assert CopyBack([0x41, 0x41, 0x41], 1, 1) == CopyBack(aaaa, 1, 0) == aaaa;
    assert CopyBack([0x41], 1, 3) == CopyBack([0x41, 0x41], 1, 2) == CopyBack([0x41, 0x41, 0x41], 1, 1);
  }

  // ---------------------------------------------------------------------
  // The ring buffer

  /** The ring holds the last 4096 bytes written, byte `k` at `k % 4096`. */
  ghost predicate Ring(buf: seq<byte>, out: seq<byte>)
  {
    |buf| == RingSize && forall k :: 0 <= k < |out| && |out| - RingSize <= k ==> buf[k % RingSize] == out[k]
  }

  /** Writing the next byte at `|out| % 4096` keeps the ring current. */
  lemma RingPush(buf: seq<byte>, out: seq<byte>, b: byte)
    requires Ring(buf, out)
    ensures Ring(buf[|out| % RingSize := b], out + [b])
  {
    var buf' := buf[|out| % RingSize := b];
    var out' := out + [b];
    forall k | 0 <= k < |out'| && |out'| - RingSize <= k
      ensures buf'[k % RingSize] == out'[k]
    {
      if k < |out| {
        assert k % RingSize != |out| % RingSize;
      }
    }
  }

  /** Advancing the write offset `(offset + 1) % 4096` follows the output length. */
  lemma RingNext(x: nat)
    ensures (x % RingSize + 1) % RingSize == (x + 1) % RingSize
  {
  }

  /** The copy's read index `bufferOffset + 4096 - disp + i` lands on byte
      `disp` places behind the end of the output. */
  lemma RingBack(n: nat, disp: nat, i: nat)
    requires 1 <= disp <= n && disp <= RingSize
    ensures (n % RingSize + RingSize - disp + i) % RingSize == (n + i - disp) % RingSize
  {
    assert n % RingSize + RingSize - disp + i == (n + i - disp) + RingSize * (1 - n / RingSize);
  }

  /** The byte the copy reads from the ring is the one `disp` places behind
      the end of what has been written. */
  lemma RingRead(buf: seq<byte>, written: seq<byte>, n: nat, disp: nat, i: nat)
    requires Ring(buf, written) && |written| == n + i && 1 <= disp <= n && disp <= RingSize
    ensures buf[(n % RingSize + RingSize - disp + i) % RingSize] == written[|written| - disp]
  {
    RingBack(n, disp, i);
  }

  /** A block that succeeds hands the loop on to the state after it. */
  lemma LoopOk(data: seq<byte>, s: State, size: nat, s': State)
    requires IsMask(s.mask) && |s.out| < size && Step(data, s) == Ok(s')
    ensures Loop(data, s, size) == Loop(data, s', size)
  {
  }

  /** A block that fails ends the loop with its error. */
  lemma LoopFail(data: seq<byte>, s: State, size: nat, e: Error)
    requires IsMask(s.mask) && |s.out| < size && Step(data, s) == Fail(e)
    ensures Loop(data, s, size) == Fail(e)
  {
  }

  /** `LZ10.Decompress`: `buffer` is the 4096-byte ring, `out` the output stream. */
  method Decompress10(data: seq<byte>) returns (r: Result<seq<byte>>)
    ensures r == Decompress(data)
  {
    var inLength := |data|;
    var readBytes: nat := 4;
    var decompressedSize := Header(data);
    var buffer := new byte[RingSize];
    var bufferOffset := 0;
    var out: seq<byte> := [];
    var currentOutSize := 0;
    var flags: byte := 0;
    var mask := 1;
    assert Ring(buffer[..], out);
    while currentOutSize < decompressedSize
      invariant IsMask(mask) && currentOutSize == |out|
      invariant buffer.Length == RingSize && bufferOffset == |out| % RingSize
      invariant Ring(buffer[..], out)
      invariant Loop(data, State(readBytes, out, flags, mask), decompressedSize) == Run(data)
      decreases Remaining(data, readBytes)
    {
      ghost var s0 := State(readBytes, out, flags, mask);
      if mask == 1 {
        if readBytes >= inLength {
          LoopFail(data, s0, decompressedSize, NotEnoughData);
          return Fail(NotEnoughData);
        }
        flags := data[readBytes];
        readBytes := readBytes + 1;
        mask := 0x80;
      } else {
        mask := mask / 2;
      }
      assert NextMask(data, s0) == Ok(State(readBytes, out, flags, mask));
      var block;
      block, bufferOffset := ReadBlock(data, State(readBytes, out, flags, mask), buffer, bufferOffset);
      if block.Fail? {
        LoopFail(data, s0, decompressedSize, block.error);
        return Fail(block.error);
      }
      LoopOk(data, s0, decompressedSize, block.value);
      readBytes, out := block.value.pos, block.value.out;
      currentOutSize := |out|;
    }
    if TooMuch(readBytes, inLength) {
      return Fail(TooMuchInput);
    }
    return Ok(out[..decompressedSize]);
  }

  /** The body of the loop after the mask update: one block, written to the
      output stream and the ring. */
  method ReadBlock(data: seq<byte>, s: State, buffer: array<byte>, bufferOffset: nat) returns (r: Result<State>, offset: nat)
    requires IsMask(s.mask) && buffer.Length == RingSize && bufferOffset == |s.out| % RingSize && Ring(buffer[..], s.out)
    modifies buffer
    ensures r == BlockAt(data, s)
    ensures r.Ok? ==> r.value.flags == s.flags && r.value.mask == s.mask
    ensures r.Ok? ==> offset == |r.value.out| % RingSize && Ring(buffer[..], r.value.out)
  {
    var readBytes := s.pos;
    offset := bufferOffset;
    if FlagSet(s.flags, s.mask) {
      if readBytes + 1 >= |data| {
        return Fail(NotEnoughData), offset;
      }
      var byte1 := data[readBytes];
      var byte2 := data[readBytes + 1];
      readBytes := readBytes + 2;
      var length := RefLength(byte1);
      var disp := RefDisp(byte1, byte2);
      if disp > |s.out| {
        return Fail(TooFarBack), offset;
      }
      var out;
      out, offset := CopyFromRing(buffer, bufferOffset, s.out, disp, length);
      r := Ok(State(readBytes, out, s.flags, s.mask));
    } else {
      if readBytes >= |data| {
        return Fail(NotEnoughData), offset;
      }
      var next := data[readBytes];
      readBytes := readBytes + 1;
      var out;
      out, offset := Emit(buffer, bufferOffset, s.out, next);
      r := Ok(State(readBytes, out, s.flags, s.mask));
    }
  }

  /** `outstream.WriteByte(next); buffer[bufferOffset] = next; bufferOffset =
      (bufferOffset + 1) % bufferLength;`: one output byte, also stored in the ring. */
  method Emit(buffer: array<byte>, bufferOffset: nat, out: seq<byte>, next: byte) returns (out': seq<byte>, offset: nat)
    requires buffer.Length == RingSize && bufferOffset == |out| % RingSize && Ring(buffer[..], out)
    modifies buffer
    ensures out' == out + [next]
    ensures offset == |out'| % RingSize && Ring(buffer[..], out')
  {
    ghost var ring := buffer[..];
    RingPush(ring, out, next);
    RingNext(|out|);
    out' := out + [next];
    buffer[bufferOffset] := next;
    assert buffer[..] == ring[bufferOffset := next];
    offset := (bufferOffset + 1) % RingSize;
  }

  /** The copy loop of a back-reference: `length` bytes read from the ring
      `disp` places behind the write offset, each written back at the offset. */
  method CopyFromRing(buffer: array<byte>, bufferOffset: nat, out: seq<byte>, disp: nat, length: nat)
      returns (written: seq<byte>, offset: nat)
    requires buffer.Length == RingSize && bufferOffset == |out| % RingSize && Ring(buffer[..], out)
    requires 1 <= disp <= |out| && disp <= RingSize
    modifies buffer
    ensures written == CopyBack(out, disp, length)
    ensures offset == |written| % RingSize && Ring(buffer[..], written)
  {
    ghost var w := CopyBack(out, disp, length);
    var bufIdx := bufferOffset + RingSize - disp;
    offset := bufferOffset;
    written := out;
    var i := 0;
    while i < length
      invariant 0 <= i <= length && |written| == |out| + i
      invariant offset == |written| % RingSize && bufIdx == bufferOffset + RingSize - disp + i
      invariant Ring(buffer[..], written)
      invariant written == w[..|written|]
    {
      CopyBackAt(out, disp, length, |written|);
      assert bufIdx % RingSize == (|out| % RingSize + RingSize - disp + i) % RingSize;
      written, offset := CopyOne(buffer, offset, bufIdx % RingSize, written, w, |out|, disp, i);
      bufIdx := bufIdx + 1;
      i := i + 1;
    }
    assert w[..|written|] == w;
  }

  /** One byte of the copy: read `disp` places behind the end of the output,
      then emitted like a literal. */
  method CopyOne(buffer: array<byte>, bufferOffset: nat, readIdx: nat, written: seq<byte>,
                 ghost w: seq<byte>, ghost n: nat, disp: nat, i: nat)
      returns (written': seq<byte>, offset: nat)
    requires buffer.Length == RingSize && bufferOffset == |written| % RingSize && Ring(buffer[..], written)
    requires |written| == n + i && 1 <= disp <= n && disp <= RingSize
    requires readIdx == (n % RingSize + RingSize - disp + i) % RingSize
    requires |written| < |w| && written == w[..|written|] && w[|written|] == w[|written| - disp]
    modifies buffer
    ensures written' == w[..|written| + 1]
    ensures offset == |written'| % RingSize && Ring(buffer[..], written')
  {
    var next := buffer[readIdx];
    RingRead(buffer[..], written, n, disp, i);
    assert next == written[|written| - disp] == w[|written| - disp];
    assert w[..|written| + 1] == written + [next];
    written', offset := Emit(buffer, bufferOffset, written, next);
  }
}
