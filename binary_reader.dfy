/** `Cetera.IO.BinaryReaderX`: a reader over an in-memory byte stream with a
    one-slot pending-nibble cursor.  The stream is its bytes plus a position
    (which .NET lets a caller set past the end); reads that run out of bytes
    fail with `EndOfStream`, as `BinaryReader` throws. */
module BinaryReaderX {
  import opened Primitives

  /** `ReadBytes(n)`: at most `n` bytes from `p`, fewer at the end, none past it. */
  function Take(data: seq<byte>, p: int, n: nat): (r: seq<byte>)
    requires p >= 0
    ensures |r| <= n
    ensures p + n <= |data| ==> r == data[p..p + n]
    ensures p < |data| ==> |r| == (if p + n <= |data| then n else |data| - p)
    ensures p >= |data| ==> r == []
  {
    if p >= |data| then [] else if p + n <= |data| then data[p..p + n] else data[p..]
  }

  /** A fixed-size read (`ReadUInt16`, `ReadInt32`, ...): all `n` bytes or `EndOfStream`. */
  function ReadFixed(data: seq<byte>, p: int, n: nat): (r: Result<seq<byte>>)
    requires p >= 0
    ensures r.Ok? <==> p + n <= |data|
    ensures r.Ok? ==> |r.value| == n && r.value == data[p..p + n]
  {
    if p + n <= |data| then Ok(data[p..p + n]) else Fail(EndOfStream)
  }

  /** One `ReadNibble` call on the state (position, pending byte or -1):
      the value, the new position and the new pending slot. */
  function NibbleStep(data: seq<byte>, p: nat, nibbles: int): (r: Result<(int, int, int)>)
    ensures r.Ok? ==> r.value.1 >= p
  {
    if nibbles == -1 then
      if p < |data| then Ok((data[p] % 16, p + 1, data[p] as int)) else Fail(EndOfStream)
    else Ok((nibbles / 16, p, -1))
  }

  /** `n` successive `ReadNibble` calls: the values, the position and the slot. */
  function NibbleRun(data: seq<byte>, p: nat, nibbles: int, n: nat): Result<(seq<int>, int, int)>
    decreases n
  {
    if n == 0 then Ok(([], p, nibbles))
    else
      match NibbleStep(data, p, nibbles)
      case Fail(e) => Fail(e)
      case Ok((v, p1, nb1)) =>
        match NibbleRun(data, p1, nb1, n - 1)
        case Fail(e) => Fail(e)
        case Ok((vs, p2, nb2)) => Ok(([v] + vs, p2, nb2))
  }

  /** A run of nibble reads from a valid state returns `n` values in
      0..15, stays within the data, and makes progress: it reads a byte, or
      it empties a pending slot. */
  lemma {:induction false} NibbleRunAdvances(data: seq<byte>, p: nat, nibbles: int, n: nat)
    requires p <= |data| && -1 <= nibbles < 256
    ensures var r := NibbleRun(data, p, nibbles, n);
      r.Ok? ==>
        && |r.value.0| == n && (forall k :: 0 <= k < n ==> 0 <= r.value.0[k] < 16)
        && p <= r.value.1 <= |data| && -1 <= r.value.2 < 256
        && (n > 0 ==> r.value.1 > p || (nibbles != -1 && r.value.2 == -1))
    ensures NibbleRun(data, p, nibbles, n).Fail? ==> NibbleRun(data, p, nibbles, n).error == EndOfStream
    decreases n
  {
    if n > 0 {
      match NibbleStep(data, p, nibbles)
      case Fail(_) =>
      case Ok((v, p1, nb1)) =>
        NibbleRunAdvances(data, p1, nb1, n - 1);
    }
  }

  /** The k-th nibble of the bytes from `p`: low nibble first. */
  function NibbleAt(data: seq<byte>, p: nat, k: nat): int
    requires p + k / 2 < |data|
  {
    if k % 2 == 0 then data[p + k / 2] % 16 else data[p + k / 2] / 16
  }

  /** From the empty state, N calls consume ceil(N/2) bytes and return the
      nibbles low-first, each in 0..15; the slot is left holding the last byte
      when N is odd. */
  lemma {:induction false} NibbleRunFromEmpty(data: seq<byte>, p: nat, n: nat)
    requires p + (n + 1) / 2 <= |data|
    ensures NibbleRun(data, p, -1, n).Ok?
    ensures var (vs, p2, nb) := NibbleRun(data, p, -1, n).value;
      && |vs| == n
      && (forall k :: 0 <= k < n ==> vs[k] == NibbleAt(data, p, k) && 0 <= vs[k] < 16)
      && p2 == p + (n + 1) / 2
      && nb == (if n % 2 == 0 then -1 else data[p + n / 2] as int)
    decreases n
  {
    if n == 0 {
    } else if n == 1 {
      assert NibbleStep(data, p, -1) == Ok((data[p] % 16, p + 1, data[p] as int));
    } else {
      NibbleRunFromEmpty(data, p + 1, n - 2);
      var (vs, p2, nb) := NibbleRun(data, p + 1, -1, n - 2).value;
      assert NibbleRun(data, p + 1, data[p], n - 1) == Ok(([data[p] / 16] + vs, p2, nb));
      assert NibbleRun(data, p, -1, n) == Ok(([data[p] % 16] + ([data[p] / 16] + vs), p2, nb));
      ShiftNibbles(data, p, vs);
    }
  }

  lemma ShiftNibbles(data: seq<byte>, p: nat, vs: seq<int>)
    requires p + 1 + (|vs| + 1) / 2 <= |data|
    requires forall k :: 0 <= k < |vs| ==> vs[k] == NibbleAt(data, p + 1, k) && 0 <= vs[k] < 16
    ensures var all := [data[p] % 16] + ([data[p] / 16] + vs);
      forall k :: 0 <= k < |all| ==> all[k] == NibbleAt(data, p, k) && 0 <= all[k] < 16
  {
    var all := [data[p] % 16] + ([data[p] / 16] + vs);
    forall k | 0 <= k < |all|
      ensures all[k] == NibbleAt(data, p, k) && 0 <= all[k] < 16
    {
      if k >= 2 {
        assert all[k] == vs[k - 2];
        assert (k - 2) / 2 + 1 == k / 2 && (k - 2) % 2 == k % 2;
      }
    }
  }

  /** The byte offset of `k` code units of `width` (1 or 2) bytes. */
  function Units(width: nat, k: nat): nat
  {
    if width == 1 then k else k + k
  }

  /** The code unit of `width` bytes at `p`: `ReadByte` or `ReadInt16` cast to `char`. */
  function UnitAt(data: seq<byte>, p: nat, width: nat): nat
    requires (width == 1 || width == 2) && p + width <= |data|
  {
    if width == 1 then data[p] else U16At(data, p)
  }

  /** `ReadCStringA`/`ReadCStringW`: up to 999 code units of `width` bytes,
      stopping after (and consuming) the first zero.  Returns the units before
      it and the new position.  `count` units are already read. */
  function CString(data: seq<byte>, p: nat, width: nat, count: nat): (r: Result<(seq<int>, nat)>)
    requires (width == 1 || width == 2) && count <= 999
    ensures r.Ok? ==> |r.value.0| <= 999 - count
    decreases 999 - count
  {
    if count == 999 then Ok(([], p))
    else if p + width > |data| then Fail(EndOfStream)
    else if UnitAt(data, p, width) == 0 then Ok(([], p + width))
    else Prepend([UnitAt(data, p, width)], CString(data, p + width, width, count + 1))
  }

  /** Every unit returned is the non-zero unit at its offset. */
  lemma {:induction false} CStringUnits(data: seq<byte>, p: nat, width: nat, count: nat, cs: seq<int>, q: nat)
    requires (width == 1 || width == 2) && count <= 999
    requires CString(data, p, width, count) == Ok((cs, q))
    ensures cs != [] ==> p + Units(width, |cs|) <= |data|
    ensures forall k :: 0 <= k < |cs| ==> p + Units(width, k) + width <= |data| && cs[k] == UnitAt(data, p + Units(width, k), width) != 0
    decreases 999 - count
  {
    if count < 999 && p + width <= |data| && UnitAt(data, p, width) != 0 {
      var u := UnitAt(data, p, width);
      var r := CString(data, p + width, width, count + 1);
      assert CString(data, p, width, count) == Prepend([u], r);
      var rest := r.value.0;
      assert cs == [u] + rest;
      CStringUnits(data, p + width, width, count + 1, rest, q);
      ShiftUnits(data, p, width, u, rest);
    }
  }

  lemma ShiftUnits(data: seq<byte>, p: nat, width: nat, u: int, rest: seq<int>)
    requires width == 1 || width == 2
    requires p + width <= |data| && u == UnitAt(data, p, width) != 0
    requires rest != [] ==> p + width + Units(width, |rest|) <= |data|
    requires forall k :: 0 <= k < |rest| ==> p + width + Units(width, k) + width <= |data| && rest[k] == UnitAt(data, p + width + Units(width, k), width) != 0
    ensures p + Units(width, |rest| + 1) <= |data|
    ensures forall k :: 0 <= k < |rest| + 1 ==> p + Units(width, k) + width <= |data| && ([u] + rest)[k] == UnitAt(data, p + Units(width, k), width) != 0
  {
    forall k | 0 <= k < |rest| + 1
      ensures p + Units(width, k) + width <= |data| && ([u] + rest)[k] == UnitAt(data, p + Units(width, k), width) != 0
    {
      if k > 0 {
        assert p + width + Units(width, k - 1) == p + Units(width, k);
        assert ([u] + rest)[k] == rest[k - 1];
      }
    }
  }

  /** Unless the 999-unit budget ran out, the string ended at a zero unit,
      which was consumed. */
  lemma {:induction false} CStringEnd(data: seq<byte>, p: nat, width: nat, count: nat, cs: seq<int>, q: nat)
    requires (width == 1 || width == 2) && count <= 999
    requires CString(data, p, width, count) == Ok((cs, q))
    ensures |cs| < 999 - count ==> p + Units(width, |cs|) + width == q <= |data| && UnitAt(data, p + Units(width, |cs|), width) == 0
    ensures |cs| == 999 - count ==> q == p + Units(width, |cs|)
    decreases 999 - count
  {
    if count < 999 && p + width <= |data| && UnitAt(data, p, width) != 0 {
      var rest := CString(data, p + width, width, count + 1).value.0;
      CStringEnd(data, p + width, width, count + 1, rest, q);
      assert p + width + Units(width, |rest|) == p + Units(width, |cs|);
    }
  }

  /** One NW4C section (`NW4CSection`): the four bytes of its `String4`
      magic and its body.  `Magic()` is the string the section holds. */
  datatype Section = Section(magicBytes: seq<byte>, data: seq<byte>)
  {
    function Magic(): seq<char>
    {
      ToCString(magicBytes)
    }
  }

  /** `ToCString`: the bytes that are not zero, each as a `char`. */
  function ToCString(bytes: seq<byte>): seq<char>
  {
    if bytes == [] then [] else CharOf(bytes[0]) + ToCString(bytes[1..])
  }

  function CharOf(b: byte): seq<char>
  {
    if b == 0 then [] else [b as char]
  }

  /** `String4.ToString()` on the four bytes at `p`. */
  function String4At(data: seq<byte>, p: nat): seq<char>
    requires p + 4 <= |data|
  {
    CharOf(data[p]) + CharOf(data[p + 1]) + CharOf(data[p + 2]) + CharOf(data[p + 3])
  }

  /** `String4.ToString()` is `ToCString` of its four bytes, so it holds no
      NUL and at most four characters. */
  lemma String4IsCString(data: seq<byte>, p: nat)
    requires p + 4 <= |data|
    ensures String4At(data, p) == ToCString(data[p..p + 4])
    ensures |String4At(data, p)| <= 4 && forall k :: 0 <= k < |String4At(data, p)| ==> String4At(data, p)[k] != 0 as char
  {
    assert data[p + 3..p + 4][1..] == [];
    assert data[p + 2..p + 4][1..] == data[p + 3..p + 4];
    assert data[p + 1..p + 4][1..] == data[p + 2..p + 4];
    assert data[p..p + 4][1..] == data[p + 1..p + 4];
    assert ToCString(data[p + 3..p + 4]) == CharOf(data[p + 3]) + [];
    assert ToCString(data[p + 2..p + 4]) == CharOf(data[p + 2]) + CharOf(data[p + 3]);
    assert ToCString(data[p + 1..p + 4]) == CharOf(data[p + 1]) + (CharOf(data[p + 2]) + CharOf(data[p + 3]));
    assert ToCString(data[p..p + 4]) == CharOf(data[p]) + (CharOf(data[p + 1]) + (CharOf(data[p + 2]) + CharOf(data[p + 3])));
  }

  /** The bytes a list of sections occupies in the stream: magic, size, body. */
  function Footprint(ss: seq<Section>): nat
  {
    if ss == [] then 0 else 8 + |ss[0].data| + Footprint(ss[1..])
  }

  /** `size - 8` on a 32-bit `size`, wrapping below `int.MinValue`. */
  function BodySize(size: int): int
  {
    if size - 8 < -0x8000_0000 then size - 8 + UInt32Mod else size - 8
  }

  /** `BodySize` is C#'s unchecked `int` subtraction. */
  lemma BodySizeWraps(size: int)
    requires -0x8000_0000 <= size < 0x8000_0000
    ensures BodySize(size) == Int32(size - 8)
  {
  }

  /** A section's body length: its 32-bit size field minus the 8 header
      bytes, with C#'s wrap-around on `int`. */
  function DeclaredSize(data: seq<byte>, p: nat): int
    requires p + 8 <= |data|
  {
    BodySize(I32At(data, p + 4))
  }

  /** One section: a 4-byte magic, a 32-bit size and `size - 8` body bytes
      (`ReadBytes`: fewer at the end of the stream). */
  function SectionAt(data: seq<byte>, p: nat): (r: Result<(Section, nat)>)
    ensures r.Ok? ==> r.value.1 == p + 8 + |r.value.0.data|
    ensures p >= |data| ==> r == Fail(NullReference)
    ensures p < |data| < p + 4 ==> r == Fail(Undefined)
  {
    if p + 4 > |data| then Fail(StructFault(data, p))   // `ReadStruct<String4>()`
    else if p + 8 > |data| then Fail(EndOfStream)
    else if DeclaredSize(data, p) < 0 then Fail(ArgumentOutOfRange)
    else
      var size := DeclaredSize(data, p);
      var body := if p + 8 + size <= |data| then data[p + 8..p + 8 + size] else data[p + 8..];
      Ok((Section(data[p..p + 4], body), p + 8 + |body|))
  }

  function SectionReader(data: seq<byte>): nat -> Result<(Section, nat)>
  {
    (p: nat) => SectionAt(data, p)
  }

  /** The sections after the header: `count` of them, back to back. */
  function SectionsFrom(data: seq<byte>, p: nat, count: nat): (r: Result<(seq<Section>, nat)>)
    ensures r.Ok? ==> |r.value.0| == count
  {
    Repeat(SectionReader(data), p, count)
  }

  /** The read ends right after the sections it returns. */
  lemma {:induction false} SectionsFootprint(data: seq<byte>, p: nat, count: nat)
    ensures SectionsFrom(data, p, count).Ok? ==>
      SectionsFrom(data, p, count).value.1 == p + Footprint(SectionsFrom(data, p, count).value.0)
    decreases count
  {
    var r := SectionsFrom(data, p, count);
    if count > 0 && r.Ok? {
      var head := SectionAt(data, p);
      assert SectionReader(data)(p) == head;
      assert r == RepeatAfter(SectionReader(data), head, count);
      var p1 := head.value.1;
      SectionsFootprint(data, p1, count - 1);
      var rest := SectionsFrom(data, p1, count - 1);
      assert r == Prepend([head.value.0], rest);
      assert r.value.0[1..] == rest.value.0;
    }
  }

  /** `ReadSections`: the 20-byte NW4C header (section count at offset 16),
      then exactly that many sections.  Returns the header's magic too. */
  function Sections(data: seq<byte>, p: nat): (r: Result<(seq<char>, seq<Section>, nat)>)
    ensures r.Ok? ==> p + 20 <= |data| && |r.value.1| == I32At(data, p + 16)
    ensures r.Ok? ==> r.value.2 == p + 20 + Footprint(r.value.1)
    ensures p >= |data| ==> r == Fail(NullReference)
    ensures p < |data| < p + 20 ==> r == Fail(Undefined)
  {
    if p + 20 > |data| then Fail(StructFault(data, p))   // `ReadStruct<NW4CHeader>()`
    else
      var count := I32At(data, p + 16);
      if count < 0 then Fail(ArgumentOutOfRange)
      else
        SectionsFootprint(data, p + 20, count);
        match SectionsFrom(data, p + 20, count)
        case Fail(e) => Fail(e)
        case Ok((ss, q)) => Ok((String4At(data, p), ss, q))
  }

  /** `ReadMultiple(count, f)`: `f(0) .. f(count - 1)`, in index order. */
  function ReadMultiple<T>(count: int, f: int -> T): (r: Result<seq<T>>)
    ensures count < 0 <==> r == Fail(ArgumentOutOfRange)
    ensures r.Ok? ==> |r.value| == count && forall i :: 0 <= i < count ==> r.value[i] == f(i)
  {
    if count < 0 then Fail(ArgumentOutOfRange) else Ok(seq(count, i => f(i)))
  }

  /** How a struct read that does not fit fails.  At or past the end of the
      stream `ReadBytes` returns an empty array, `fixed` over it yields a
      null pointer, `PtrToStructure` answers null and unboxing that null
      throws NullReferenceException; a partial struct is overlaid on a
      buffer shorter than the struct, an unchecked read past its end. */
  function StructFault(data: seq<byte>, p: nat): Error
  {
    if p >= |data| then NullReference else Undefined
  }

  /** `ReadStruct<T>()` of a `size`-byte struct at `p` (`Marshal.SizeOf`
      is never 0). */
  function StructAt(data: seq<byte>, p: nat, size: nat): (r: Result<seq<byte>>)
    requires size > 0
    ensures r.Ok? <==> p + size <= |data|
    ensures r.Ok? ==> r.value == data[p..p + size]
    ensures p >= |data| ==> r == Fail(NullReference)
    ensures p < |data| < p + size ==> r == Fail(Undefined)
  {
    if p + size <= |data| then Ok(data[p..p + size]) else Fail(StructFault(data, p))
  }

  class Reader {
    const data: seq<byte>
    var pos: int
    /** -1 when no nibble is pending, otherwise the byte whose high nibble is next. */
    var nibbles: int

    ghost predicate Valid()
      reads this
    {
      pos >= 0 && -1 <= nibbles < 256
    }

    constructor (data: seq<byte>)
      ensures Valid() && this.data == data && pos == 0 && nibbles == -1
    {
      this.data := data;
      pos := 0;
      nibbles := -1;
    }

    /** `BaseStream.Position = p`; a negative position throws. */
    method Seek(p: int) returns (r: Result<()>)
      requires Valid()
      modifies this`pos
      ensures Valid()
      ensures p < 0 ==> r == Fail(ArgumentOutOfRange) && pos == old(pos)
      ensures p >= 0 ==> r == Ok(()) && pos == p
    {
      if p < 0 {
        return Fail(ArgumentOutOfRange);
      }
      pos := p;
      return Ok(());
    }

    method ReadByte() returns (r: Result<byte>)
      requires Valid()
      modifies this`pos
      ensures Valid()
      ensures old(pos) < |data| ==> r == Ok(data[old(pos)]) && pos == old(pos) + 1
      ensures old(pos) >= |data| ==> r == Fail(EndOfStream) && pos == old(pos)
    {
      if pos >= |data| {
        return Fail(EndOfStream);
      }
      r := Ok(data[pos]);
      pos := pos + 1;
    }

    /** A read of `n` bytes that must all be present. */
    method ReadExact(n: nat) returns (r: Result<seq<byte>>)
      requires Valid()
      modifies this`pos
      ensures Valid()
      ensures r == ReadFixed(data, old(pos), n)
      ensures pos == if r.Ok? then old(pos) + n else old(pos)
    {
      if pos + n > |data| {
        return Fail(EndOfStream);
      }
      r := Ok(data[pos..pos + n]);
      pos := pos + n;
    }

    method ReadStruct(size: nat) returns (r: Result<seq<byte>>)
      requires Valid() && size > 0
      modifies this`pos
      ensures Valid()
      ensures r == StructAt(data, old(pos), size)
      ensures r.Ok? ==> pos == old(pos) + size
    {
      if pos + size > |data| {
        return Fail(StructFault(data, pos));
      }
      r := Ok(data[pos..pos + size]);
      pos := pos + size;
    }

    method ReadBytes(count: int) returns (r: Result<seq<byte>>)
      requires Valid()
      modifies this`pos
      ensures Valid()
      ensures count < 0 ==> r == Fail(ArgumentOutOfRange) && pos == old(pos)
      ensures count >= 0 ==> r == Ok(Take(data, old(pos), count)) && pos == old(pos) + |r.value|
    {
      if count < 0 {
        return Fail(ArgumentOutOfRange);
      }
      var bytes := Take(data, pos, count);
      pos := pos + |bytes|;
      return Ok(bytes);
    }

    method ReadUInt16() returns (r: Result<int>)
      requires Valid()
      modifies this`pos
      ensures Valid()
      ensures old(pos) + 2 <= |data| ==> r == Ok(U16At(data, old(pos))) && pos == old(pos) + 2
      ensures old(pos) + 2 > |data| ==> r == Fail(EndOfStream)
    {
      var b :- ReadExact(2);
      return Ok(U16At(data, pos - 2));
    }

    method ReadInt32() returns (r: Result<int>)
      requires Valid()
      modifies this`pos
      ensures Valid()
      ensures old(pos) + 4 <= |data| ==> r == Ok(I32At(data, old(pos))) && pos == old(pos) + 4
      ensures old(pos) + 4 > |data| ==> r == Fail(EndOfStream)
    {
      var b :- ReadExact(4);
      return Ok(I32At(data, pos - 4));
    }

    method ReadUInt64() returns (r: Result<int>)
      requires Valid()
      modifies this`pos
      ensures Valid()
      ensures old(pos) + 8 <= |data| ==> r == Ok(LE(data, old(pos), 8)) && pos == old(pos) + 8
      ensures old(pos) + 8 > |data| ==> r == Fail(EndOfStream)
    {
      var b :- ReadExact(8);
      return Ok(LE(data, pos - 8, 8));
    }

    /** `ReadNibble`: from the empty slot, read a byte, keep it and return its
        low nibble; otherwise return the kept byte's high nibble and empty the
        slot without reading. */
    method ReadNibble() returns (r: Result<int>)
      requires Valid()
      modifies this`pos, this`nibbles
      ensures Valid()
      ensures NibbleStep(data, old(pos), old(nibbles)).Ok? <==> r.Ok?
      ensures r.Ok? ==> NibbleStep(data, old(pos), old(nibbles)).value == (r.value, pos, nibbles)
      ensures r.Ok? ==> 0 <= r.value < 16
      ensures r.Fail? ==> r == Fail(EndOfStream) && pos == old(pos) && nibbles == old(nibbles)
    {
      if nibbles == -1 {
        var b :- ReadByte();
        nibbles := b;
        return Ok(nibbles % 16);
      } else {
        var val := nibbles / 16;
        nibbles := -1;
        return Ok(val);
      }
    }

    /** `ReadByte()` (width 1) or `ReadInt16()` cast to `char` (width 2). */
    method ReadUnit(width: nat) returns (r: Result<int>)
      requires Valid() && (width == 1 || width == 2)
      modifies this`pos
      ensures Valid()
      ensures old(pos) + width <= |data| ==> r == Ok(UnitAt(data, old(pos), width)) && pos == old(pos) + width
      ensures old(pos) + width > |data| ==> r == Fail(EndOfStream)
    {
      if pos + width > |data| {
        return Fail(EndOfStream);
      }
      r := Ok(UnitAt(data, pos, width));
      pos := pos + width;
    }

    /** `ReadCStringA` (width 1) and `ReadCStringW` (width 2). */
    method ReadCString(width: nat) returns (r: Result<seq<int>>)
      requires Valid() && (width == 1 || width == 2)
      modifies this`pos
      ensures Valid()
      ensures CString(data, old(pos), width, 0) == if r.Ok? then Ok((r.value, pos)) else Fail(EndOfStream)
    {
      ghost var whole := CString(data, pos, width, 0);
      var acc: seq<int> := [];
      PrependEmpty(whole);
      var count := 0;
      while count < 999
        invariant 0 <= count <= 999 && Valid() && |acc| == count
        invariant whole == Prepend(acc, CString(data, pos, width, count))
        decreases 999 - count
      {
        var c :- ReadUnit(width);
        if c == 0 {
          assert acc + [] == acc;
          return Ok(acc);
        }
        PrependAppend(acc, c, CString(data, pos, width, count + 1));
        acc := acc + [c];
        count := count + 1;
      }
      assert acc + [] == acc;
      return Ok(acc);
    }

    /** One section of `ReadSections`: `ReadStruct<String4>()`, then
        `ReadBytes(ReadInt32() - 8)`. */
    method ReadSection() returns (r: Result<Section>)
      requires Valid()
      modifies this`pos
      ensures Valid()
      ensures SectionAt(data, old(pos)) == if r.Ok? then Ok((r.value, pos)) else Fail(r.error)
    {
      if pos + 4 > |data| {
        return Fail(StructFault(data, pos));
      }
      var magic := data[pos..pos + 4];
      pos := pos + 4;
      var size :- ReadInt32();
      var body :- ReadBytes(BodySize(size));
      return Ok(Section(magic, body));
    }

    /** The `count` sections after the header, read one after the other. */
    method ReadSectionList(count: nat) returns (r: Result<seq<Section>>)
      requires Valid()
      modifies this`pos
      ensures Valid()
      ensures SectionsFrom(data, old(pos), count) == if r.Ok? then Ok((r.value, pos)) else Fail(r.error)
    {
      ghost var step := SectionReader(data);
      ghost var whole := Repeat(step, pos, count);
      var ss: seq<Section> := [];
      PrependEmpty(whole);
      var i := 0;
      while i < count
        invariant 0 <= i <= count && |ss| == i && Valid()
        invariant whole == Prepend(ss, Repeat(step, pos, count - i))
      {
        ghost var p0 := pos;
        var sec := ReadSection();
        if sec.Fail? {
          RepeatFail(step, p0, count - i, ss, sec.error);
          return Fail(sec.error);
        }
        RepeatOk(step, p0, count - i, ss, sec.value, pos);
        ss := ss + [sec.value];
        i := i + 1;
      }
      assert ss + [] == ss;
      return Ok(ss);
    }

    /** `ReadSections(out magic)`; the overload without `magic` reads the same. */
    method ReadSections() returns (r: Result<(seq<char>, seq<Section>)>)
      requires Valid()
      modifies this`pos
      ensures Valid()
      ensures Sections(data, old(pos)) == if r.Ok? then Ok((r.value.0, r.value.1, pos)) else Fail(r.error)
    {
      if pos + 20 > |data| {
        return Fail(StructFault(data, pos));
      }
      var magic := String4At(data, pos);
      var count := I32At(data, pos + 16);
      pos := pos + 20;
      if count < 0 {
        return Fail(ArgumentOutOfRange);
      }
      var ss :- ReadSectionList(count);
      return Ok((magic, ss));
    }
  }
}
