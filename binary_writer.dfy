/** `Cetera.IO.BinaryWriterX`: a writer appending to an output stream, with a
    one-slot pending nibble.  Bytes are only ever appended, so the stream is
    modelled by the sequence written so far. */
module BinaryWriterX {
  import opened Primitives
  import BinaryReaderX

  /** One `WriteNibble(val)` call on the pending slot (-1 when empty): the
      bytes it writes and the new slot. */
  function NibbleWrite(pending: int, val: int): (seq<byte>, int)
    requires -1 <= pending < 16
  {
    if pending == -1 then ([], val % 16)
    else ([pending + 16 * (val % 16)], -1)
  }

  /** Successive `WriteNibble` calls with the values `vs`. */
  function NibbleWrites(pending: int, vs: seq<int>): (r: (seq<byte>, int))
    requires -1 <= pending < 16
    ensures -1 <= r.1 < 16
    decreases |vs|
  {
    if vs == [] then ([], pending)
    else
      var first := NibbleWrite(pending, vs[0]);
      var rest := NibbleWrites(first.1, vs[1..]);
      (first.0 + rest.0, rest.1)
  }

  /** The bytes that hold the values `vs` two to a byte, the first of each pair
      in the low nibble; an unpaired last value is not among them. */
  function Packed(vs: seq<int>): (r: seq<byte>)
    ensures |r| == |vs| / 2
  {
    seq(|vs| / 2, j requires 0 <= j < |vs| / 2 => vs[2 * j] % 16 + 16 * (vs[2 * j + 1] % 16))
  }

  /** From the empty slot, a pair of calls writes one byte and empties the slot again. */
  lemma NibbleWritesPair(vs: seq<int>)
    requires |vs| >= 2
    ensures NibbleWrites(-1, vs)
      == ([vs[0] % 16 + 16 * (vs[1] % 16)] + NibbleWrites(-1, vs[2..]).0, NibbleWrites(-1, vs[2..]).1)
  {
    var b := vs[0] % 16 + 16 * (vs[1] % 16);
    var tail := NibbleWrites(-1, vs[2..]);
    assert vs[1..][1..] == vs[2..];
    assert NibbleWrites(vs[0] % 16, vs[1..]) == ([b] + tail.0, tail.1);
    assert [] + ([b] + tail.0) == [b] + tail.0;
  }

  lemma PackedCons(vs: seq<int>)
    requires |vs| >= 2
    ensures Packed(vs) == [vs[0] % 16 + 16 * (vs[1] % 16)] + Packed(vs[2..])
  {
    var b := vs[0] % 16 + 16 * (vs[1] % 16);
    forall j | 1 <= j < |vs| / 2
      ensures ([b] + Packed(vs[2..]))[j] == Packed(vs)[j]
    {
      assert vs[2..][2 * (j - 1)] == vs[2 * j] && vs[2..][2 * (j - 1) + 1] == vs[2 * j + 1];
    }
  }

  /** From the empty slot, the calls write exactly the packed pairs; an odd
      final value stays pending and is never written, since nothing flushes it. */
  lemma {:induction false} NibbleWritesFromEmpty(vs: seq<int>)
    ensures NibbleWrites(-1, vs) == (Packed(vs), if |vs| % 2 == 0 then -1 else vs[|vs| - 1] % 16)
    decreases |vs|
  {
    if |vs| == 1 {
      assert vs[1..] == [];
      assert NibbleWrites(vs[0] % 16, []) == ([], vs[0] % 16);
      assert NibbleWrite(-1, vs[0]) == ([], vs[0] % 16);
      assert NibbleWrites(-1, vs) == ([] + [], vs[0] % 16);
      assert Packed(vs) == [] + [];
    } else if |vs| >= 2 {
      NibbleWritesFromEmpty(vs[2..]);
      NibbleWritesPair(vs);
      PackedCons(vs);
      if |vs| % 2 == 1 {
        assert vs[2..][|vs| - 3] == vs[|vs| - 1];
      }
    }
  }

  /** Nibble `k` of the packed bytes, low nibble first, is value `k` masked. */
  lemma PackedNibble(vs: seq<int>, tail: seq<byte>, k: nat)
    requires k < |vs| && |vs| % 2 == 0
    ensures k / 2 < |Packed(vs) + tail| && BinaryReaderX.NibbleAt(Packed(vs) + tail, 0, k) == vs[k] % 16
  {
    var j := k / 2;
    var b := (Packed(vs) + tail)[j];
    assert b == vs[2 * j] % 16 + 16 * (vs[2 * j + 1] % 16);
    if k % 2 == 0 {
      assert k == 2 * j;
    } else {
      assert k == 2 * j + 1;
    }
  }

  /** Writing nibbles and reading them back with `ReadNibble` from the empty
      state returns every value masked to 4 bits, in order, whatever follows
      them in the stream. */
  lemma NibbleRoundTrip(vs: seq<int>, tail: seq<byte>)
    requires |vs| % 2 == 0
    ensures NibbleWrites(-1, vs).1 == -1
    ensures var data := NibbleWrites(-1, vs).0 + tail;
      && BinaryReaderX.NibbleRun(data, 0, -1, |vs|).Ok?
      && BinaryReaderX.NibbleRun(data, 0, -1, |vs|).value.0 == seq(|vs|, k requires 0 <= k < |vs| => vs[k] % 16)
      && BinaryReaderX.NibbleRun(data, 0, -1, |vs|).value.1 == |NibbleWrites(-1, vs).0|
  {
    NibbleWritesFromEmpty(vs);
    var data := Packed(vs) + tail;
    BinaryReaderX.NibbleRunFromEmpty(data, 0, |vs|);
    var got := BinaryReaderX.NibbleRun(data, 0, -1, |vs|).value.0;
    forall k | 0 <= k < |vs|
      ensures got[k] == vs[k] % 16
    {
      PackedNibble(vs, tail, k);
    }
  }

  /** The bytes `WriteString` puts on the stream for the encoded string `bytes`:
      its length cast to a byte, then the bytes. */
  function LengthPrefixed(bytes: seq<byte>): (r: seq<byte>)
    ensures |r| == |bytes| + 1 && r[1..] == bytes
  {
    [ToByte(|bytes|)] + bytes
  }

  /** Reading a length byte and then that many bytes: how such a string is read back. */
  function ReadLengthPrefixed(data: seq<byte>): (r: Option<seq<byte>>)
  {
    if data == [] then None else Some(BinaryReaderX.Take(data, 1, data[0]))
  }

  /** A string written by `WriteString` reads back intact, whatever follows it,
      exactly when its encoding is shorter than 256 bytes; longer ones get a
      truncated length prefix. */
  lemma LengthPrefixedRoundTrip(bytes: seq<byte>, tail: seq<byte>)
    ensures ReadLengthPrefixed(LengthPrefixed(bytes) + tail) == Some(bytes) <==> |bytes| < 256
  {
    var data := LengthPrefixed(bytes) + tail;
    var got := BinaryReaderX.Take(data, 1, data[0]);
    if |bytes| < 256 {
      assert data[1..1 + |bytes|] == bytes;
    } else {
      assert |got| <= data[0] < 256;
    }
  }

  class Writer {
    var out: seq<byte>
    /** -1 when no nibble is pending, otherwise the pending low nibble. */
    var nibble: int

    ghost predicate Valid()
      reads this
    {
      -1 <= nibble < 16
    }

    constructor ()
      ensures Valid() && out == [] && nibble == -1
    {
      out := [];
      nibble := -1;
    }

    /** `WriteNibble`: mask to 4 bits; keep the first of a pair, write the
        second with the kept one as its low nibble. */
    method WriteNibble(val: int)
      requires Valid()
      modifies this
      ensures Valid()
      ensures out == old(out) + NibbleWrite(old(nibble), val).0 && nibble == NibbleWrite(old(nibble), val).1
    {
      var v := val % 16;
      if nibble == -1 {
        nibble := v;
      } else {
        out := out + [nibble + 16 * v];
        nibble := -1;
      }
    }

    /** `WriteString(encoding, str)` for the already encoded `bytes`. */
    method WriteString(bytes: seq<byte>)
      requires Valid()
      modifies this`out
      ensures Valid()
      ensures out == old(out) + LengthPrefixed(bytes)
    {
      out := out + [ToByte(|bytes|)];
      out := out + bytes;
    }
  }
}
