/** MSBT message tables (Cetera/Text/MSBT.cs): a `MsgStdBn` header, then
    sections; LBL1 holds the labels, TXT2 the texts, and the items pair them.
    Strings are kept as their code units or bytes; decoding is not modelled. */
module Msbt {
  import opened Primitives
  import BinaryReaderX

  /** `Marshal.SizeOf` of the file header and of a section header. */
  const HeaderSize: nat := 32
  const SectionHeaderSize: nat := 16
  /** The slot count LBL1 must declare. */
  const HashSlots: nat := 101

  const NotMsbt: Error := Exception("Not MSBT")
  const UnknownSection: Error := Exception("Unknown section")
  /** `BinaryReader.ReadString`'s failures: a length prefix longer than five
      bytes, and a negative length. */
  const BadLength: Error := Exception("FormatException")
  const NegativeLength: Error := Exception("IOException")

  datatype Item = Item(name: seq<int>, text: seq<byte>)

  /** One LBL1 label: its name and the index of the text it names. */
  datatype LabelEntry = LabelEntry(name: seq<int>, index: int)

  /** The state the section loop fills: the magics seen, and the last LBL1,
      TXT2, ATR1 and TSY1 read (`null` until one is). */
  datatype Tables = Tables(
    sections: seq<seq<char>>,
    lbl1: Option<seq<LabelEntry>>,
    txt2: Option<seq<seq<byte>>>,
    atr1: Option<seq<byte>>,
    tsy1: Option<seq<int>>)

  /** The object `new MSBT(input)` builds: the list of items, the section
      state, and whether the header names UTF-16 (any encoding byte but 0). */
  datatype Table = Table(items: seq<Item>, tables: Tables, unicode: bool)

  const NoTables := Tables([], None, None, None, None)

  // ---------------------------------------------------------------------
  // Item.Hash

  /** `Aggregate(n, (n, c) => 1170 * n + c)` in `uint`. */
  function HashFold(n: int, units: seq<int>): (r: int)
    requires 0 <= n < UInt32Mod
    ensures 0 <= r < UInt32Mod
    decreases |units|
  {
    if units == [] then n else HashFold(ToUInt32(1170 * n + units[0]), units[1..])
  }

  /** `Item.Hash`: the fold from 0, modulo 101. */
  function Hash(units: seq<int>): (r: int)
    ensures 0 <= r <= 100
  {
    HashFold(0, units) % 101
  }

  /** The label read as a number in base 1170, without wrap-around. */
  function Poly(units: seq<int>): int
  {
    if units == [] then 0 else 1170 * Poly(units[..|units| - 1]) + units[|units| - 1]
  }

  /** The fold takes one more code unit as `1170 * n + c`, wrapping. */
  lemma {:induction false} HashFoldSnoc(n: int, units: seq<int>, c: int)
    requires 0 <= n < UInt32Mod
    ensures HashFold(n, units + [c]) == ToUInt32(1170 * HashFold(n, units) + c)
    decreases |units|
  {
    if units != [] {
      assert (units + [c])[1..] == units[1..] + [c];
      HashFoldSnoc(ToUInt32(1170 * n + units[0]), units[1..], c);
    }
  }

  /** The wrap-around inside the fold is the same as one reduction modulo
      2^32 at the end, so `Hash` is the base-1170 value mod 2^32 mod 101. */
  lemma {:induction false} HashIsPoly(units: seq<int>)
    ensures HashFold(0, units) == Poly(units) % UInt32Mod
    ensures Hash(units) == Poly(units) % UInt32Mod % 101
    decreases |units|
  {
    if units != [] {
      var init := units[..|units| - 1];
      var c := units[|units| - 1];
      assert units == init + [c];
      HashFoldSnoc(0, init, c);
      HashIsPoly(init);
      ModScale(Poly(init), c);
    }
  }

  lemma ModScale(x: int, c: int)
    ensures (1170 * (x % UInt32Mod) + c) % UInt32Mod == (1170 * x + c) % UInt32Mod
  {
    var q := x / UInt32Mod;
    assert x == UInt32Mod * q + x % UInt32Mod;
    assert 1170 * x + c == (1170 * (x % UInt32Mod) + c) + UInt32Mod * (1170 * q);
  }

  // ---------------------------------------------------------------------
  // BinaryReader reads

  /** `ReadInt32()` at `p`. */
  function Int32At(data: seq<byte>, p: nat): (r: Result<(int, nat)>)
    ensures r.Ok? <==> p + 4 <= |data|
    ensures r.Fail? ==> r.error == EndOfStream
    ensures r.Ok? ==> r.value.1 == p + 4
  {
    if p + 4 <= |data| then Ok((I32At(data, p), p + 4)) else Fail(EndOfStream)
  }

  function Int32Reader(data: seq<byte>): nat -> Result<(int, nat)>
  {
    (p: nat) => Int32At(data, p)
  }

  /** `(int)ReadInt64()` at `p`: the low 32 bits of the 8-byte value. */
  function SlotAt(data: seq<byte>, p: nat): (r: Result<(int, nat)>)
    ensures r.Ok? <==> p + 8 <= |data|
    ensures r.Ok? ==> r.value.1 == p + 8 && -0x8000_0000 <= r.value.0 < 0x8000_0000
  {
    if p + 8 <= |data| then Ok((Int32(LE(data, p, 8)), p + 8)) else Fail(EndOfStream)
  }

  function SlotReader(data: seq<byte>): nat -> Result<(int, nat)>
  {
    (p: nat) => SlotAt(data, p)
  }

  /** `Read7BitEncodedInt` from `p`, with `shift` bits already gathered in
      `acc`: seven bits per byte, low group first, while bit 7 is set; a
      sixth byte throws.  The value is the `int` the shifts leave. */
  function LengthPrefix(data: seq<byte>, p: nat, shift: nat, acc: int): (r: Result<(int, nat)>)
    requires shift <= 35 && shift % 7 == 0
    ensures r.Ok? ==> p < r.value.1 <= |data|
    decreases 35 - shift
  {
    if shift == 35 then Fail(BadLength)
    else if p >= |data| then Fail(EndOfStream)
    else
      var acc' := acc + data[p] % 128 * Pow2(shift);
      if data[p] < 128 then Ok((Int32(acc'), p + 1))
      else LengthPrefix(data, p + 1, shift + 7, acc')
  }

  /** `ReadString()`: a length prefix, then that many bytes. */
  function StringAt(data: seq<byte>, p: nat): (r: Result<(seq<byte>, nat)>)
    ensures r.Ok? ==> p < r.value.1 <= |data| && |r.value.0| < r.value.1 - p
  {
    var len :- LengthPrefix(data, p, 0, 0);
    if len.0 < 0 then Fail(NegativeLength)
    else if len.1 + len.0 > |data| then Fail(EndOfStream)
    else Ok((data[len.1..len.1 + len.0], len.1 + len.0))
  }

  /** The bytes of a label as its code units. */
  function Units(bytes: seq<byte>): (r: seq<int>)
    ensures |r| == |bytes| && forall k :: 0 <= k < |r| ==> r[k] == bytes[k] as int
  {
    seq(|bytes|, k requires 0 <= k < |bytes| => bytes[k] as int)
  }

  /** `Tuple.Create(br.ReadString(), br.ReadInt32())`. */
  function LabelAt(data: seq<byte>, p: nat): (r: Result<(LabelEntry, nat)>)
  {
    var name :- StringAt(data, p);
    var index :- Int32At(data, name.1);
    Ok((LabelEntry(Units(name.0), index.0), index.1))
  }

  function LabelReader(data: seq<byte>): nat -> Result<(LabelEntry, nat)>
  {
    (p: nat) => LabelAt(data, p)
  }

  // ---------------------------------------------------------------------
  // Sections

  function Sum(xs: seq<int>): int
  {
    if xs == [] then 0 else xs[0] + Sum(xs[1..])
  }

  /** `Enumerable.Sum` on `int`, which is checked: a running total outside
      the `int` range throws. */
  function CheckedSum(xs: seq<int>, acc: int): (r: Result<int>)
    ensures r.Ok? ==> r.value == acc + Sum(xs) && -0x8000_0000 <= r.value < 0x8000_0000
    ensures r.Fail? ==> r.error == Overflow
  {
    if xs == [] then (if -0x8000_0000 <= acc < 0x8000_0000 then Ok(acc) else Fail(Overflow))
    else if !(-0x8000_0000 <= acc + xs[0] < 0x8000_0000) then Fail(Overflow)
    else CheckedSum(xs[1..], acc + xs[0])
  }

  /** LBL1 after its header: the slot count, which must be 101, the 101
      eight-byte slots, whose low 32 bits sum to the label count, then the
      labels. */
  function Lbl1(data: seq<byte>, q: nat): (r: Result<(seq<LabelEntry>, nat)>)
    ensures q + 4 <= |data| && I32At(data, q) != 101 ==> r == Fail(InvalidData)
  {
    var size :- Int32At(data, q);
    if size.0 != HashSlots then Fail(InvalidData)
    else
      var slots :- Repeat(SlotReader(data), size.1, HashSlots);
      LabelsAfter(data, slots.1, CheckedSum(slots.0, 0))
  }

  /** `ReadMultiple(labelCount, …)`: a negative count throws. */
  function LabelsAfter(data: seq<byte>, p: nat, count: Result<int>): (r: Result<(seq<LabelEntry>, nat)>)
    ensures count.Ok? && count.value >= 0 && r.Ok? ==> |r.value.0| == count.value
  {
    var n :- count;
    if n < 0 then Fail(ArgumentOutOfRange) else Repeat(LabelReader(data), p, n)
  }

  /** ATR1: `ReadBytes(size)`. */
  function Atr1(data: seq<byte>, q: nat, size: int): (r: Result<(seq<byte>, nat)>)
  {
    if size < 0 then Fail(ArgumentOutOfRange)
    else
      var bytes := BinaryReaderX.Take(data, q, size);
      Ok((bytes, q + |bytes|))
  }

  /** TSY1: `size / 4` (truncating) `int`s. */
  function Tsy1(data: seq<byte>, q: nat, size: int): (r: Result<(seq<int>, nat)>)
  {
    var n := CsDiv(size, 4);
    if n < 0 then Fail(ArgumentOutOfRange) else Repeat(Int32Reader(data), q, n)
  }

  /** The text reads: text `i` is the next `offsets[i + 1] - offsets[i]`
      bytes (unchecked `int` subtraction); a negative length throws. */
  function Texts(data: seq<byte>, p: nat, offsets: seq<int>): (r: Result<(seq<seq<byte>>, nat)>)
    ensures r.Ok? && |offsets| >= 1 ==> |r.value.0| == |offsets| - 1
    decreases |offsets|
  {
    if |offsets| < 2 then Ok(([], p))
    else
      var n := Int32(offsets[1] - offsets[0]);
      if n < 0 then Fail(ArgumentOutOfRange)
      else
        var bytes := BinaryReaderX.Take(data, p, n);
        Prepend([bytes], Texts(data, p + |bytes|, offsets[1..]))
  }

  /** TXT2: the text count, that many offsets, then the texts, with the
      section size as the last bound. */
  function Txt2(data: seq<byte>, q: nat, size: int): (r: Result<(seq<seq<byte>>, nat)>)
    ensures r.Ok? ==> q + 4 <= |data| && |r.value.0| == I32At(data, q)
  {
    var count :- Int32At(data, q);
    if count.0 < 0 then Fail(ArgumentOutOfRange)
    else
      var offsets :- Repeat(Int32Reader(data), count.1, count.0);
      Texts(data, offsets.1, offsets.0 + [size])
  }

  /** The `switch` on the section magic: each known section updates its own
      slot; any other magic throws. */
  function SectionBody(data: seq<byte>, q: nat, magic: seq<char>, size: int, t: Tables): (r: Result<(Tables, nat)>)
    ensures magic !in {"LBL1", "ATR1", "TSY1", "TXT2"} ==> r == Fail(UnknownSection)
    ensures r.Ok? ==> r.value.0.sections == t.sections
  {
    if magic == "LBL1" then
      var l :- Lbl1(data, q);
      Ok((t.(lbl1 := Some(l.0)), l.1))
    else if magic == "ATR1" then
      var a :- Atr1(data, q, size);
      Ok((t.(atr1 := Some(a.0)), a.1))
    else if magic == "TSY1" then
      var s :- Tsy1(data, q, size);
      Ok((t.(tsy1 := Some(s.0)), s.1))
    else if magic == "TXT2" then
      var x :- Txt2(data, q, size);
      Ok((t.(txt2 := Some(x.0)), x.1))
    else Fail(UnknownSection)
  }

  /** The skip after a section: forward to a multiple of 16 or to the end of
      the stream.  Past the end, the first `ReadByte` throws. */
  function Align(data: seq<byte>, p: nat): (r: Result<nat>)
  {
    if p % 16 == 0 || p == |data| then Ok(p)
    else if p > |data| then Fail(EndOfStream)
    else if p + 16 - p % 16 <= |data| then Ok(p + 16 - p % 16)
    else Ok(|data|)
  }

  /** The skip stops at the first position at or after `p` that is a
      multiple of 16 or the end of the stream. */
  lemma AlignStops(data: seq<byte>, p: nat)
    requires p <= |data|
    ensures Align(data, p).Ok?
    ensures var r := Align(data, p).value;
      p <= r <= |data| && r - p < 16 && (r % 16 == 0 || r == |data|)
      && forall k :: p <= k < r ==> k % 16 != 0 && k != |data|
  {
    var r := Align(data, p).value;
    forall k | p <= k < r
      ensures k % 16 != 0
    {
      assert r <= p + 16 - p % 16;
      assert p / 16 * 16 < k < (p / 16 + 1) * 16;
    }
  }

  /** One turn of the section loop: the 16-byte section header, its magic
      recorded, the body, then the skip to the next boundary. */
  function SectionAt(data: seq<byte>, p: nat, t: Tables): (r: Result<(Tables, nat)>)
    ensures r.Ok? ==> p + SectionHeaderSize <= |data|
    ensures r.Ok? ==> r.value.0.sections == t.sections + [BinaryReaderX.ToCString(data[p..p + 4])]
    ensures p >= |data| ==> r == Fail(NullReference)
    ensures p < |data| < p + SectionHeaderSize ==> r == Fail(Undefined)
  {
    var h :- BinaryReaderX.StructAt(data, p, SectionHeaderSize);
    var magic := BinaryReaderX.ToCString(h[..4]);
    assert h[..4] == data[p..p + 4];
    var body :- SectionBody(data, p + SectionHeaderSize, magic, I32At(h, 4), t.(sections := t.sections + [magic]));
    var q :- Align(data, body.1);
    Ok((body.0, q))
  }

  /** `count` turns of the section loop. */
  function Sections(data: seq<byte>, p: nat, count: nat, t: Tables): (r: Result<(Tables, nat)>)
    ensures r.Ok? ==> |r.value.0.sections| == |t.sections| + count
    decreases count
  {
    if count == 0 then Ok((t, p))
    else
      var s :- SectionAt(data, p, t);
      Sections(data, s.1, count - 1, s.0)
  }

  // ---------------------------------------------------------------------
  // Labels and items

  predicate SortedBy<T>(xs: seq<T>, key: T -> int)
  {
    forall i, j :: 0 <= i < j < |xs| ==> key(xs[i]) <= key(xs[j])
  }

  /** Insertion before the first element whose key is not smaller. */
  function InsertBy<T>(x: T, xs: seq<T>, key: T -> int): (r: seq<T>)
    requires SortedBy(xs, key)
    ensures SortedBy(r, key)
    ensures multiset(r) == multiset(xs) + multiset{x}
    ensures |r| == |xs| + 1
    ensures r[0] == x || (xs != [] && r[0] == xs[0])
  {
    if xs == [] || key(x) <= key(xs[0]) then [x] + xs
    else
      var rest := InsertBy(x, xs[1..], key);
      assert xs == [xs[0]] + xs[1..];
      [xs[0]] + rest
  }

  /** `OrderBy(key)`: a stable sort on the key. */
  function SortBy<T>(xs: seq<T>, key: T -> int): (r: seq<T>)
    ensures SortedBy(r, key)
    ensures multiset(r) == multiset(xs)
  {
    if xs == [] then []
    else
      assert xs == [xs[0]] + xs[1..];
      InsertBy(xs[0], SortBy(xs[1..], key), key)
  }

  /** The key of `orderby z.Item2`. */
  function LabelIndex(l: LabelEntry): int { l.index }

  /** The key of `HashTest`, `item => item.Hash`. */
  function ItemHash(item: Item): int { Hash(item.name) }

  /** `HashTest`, `this.OrderBy(item => item.Hash)`: the same items, ordered
      by their label hashes. */
  function HashTest(items: seq<Item>): (r: seq<Item>)
    ensures forall i, j :: 0 <= i < j < |r| ==> Hash(r[i].name) <= Hash(r[j].name)
    ensures multiset(r) == multiset(items)
  {
    var r := SortBy(items, ItemHash);
    assert forall i, j :: 0 <= i < j < |r| ==> ItemHash(r[i]) <= ItemHash(r[j]);
    r
  }

  /** `$"Label_{i}"`. */
  function DefaultLabel(i: nat): seq<int>
  {
    [76, 97, 98, 101, 108, 95] + Decimal(i)
  }

  /** `labels.Zip(txt2, …)`: pairs up to the shorter list. */
  function Zip(labels: seq<seq<int>>, texts: seq<seq<byte>>): (r: seq<Item>)
    ensures |r| == if |labels| <= |texts| then |labels| else |texts|
    ensures forall i :: 0 <= i < |r| ==> r[i] == Item(labels[i], texts[i])
  {
    if labels == [] || texts == [] then [] else [Item(labels[0], texts[0])] + Zip(labels[1..], texts[1..])
  }

  /** The labels by stored index, or `Label_i` per text without LBL1; a
      missing TXT2 throws (`txt2.Count` on `null`, or `Zip` on `null`). */
  function Pair(lbl1: Option<seq<LabelEntry>>, txt2: Option<seq<seq<byte>>>): (r: Result<seq<Item>>)
    ensures txt2.None? ==> r.Fail?
  {
    if txt2.None? then (if lbl1.None? then Fail(NullReference) else Fail(Argument))
    else if lbl1.None? then Ok(Zip(seq(|txt2.value|, i requires 0 <= i => DefaultLabel(i)), txt2.value))
    else
      var sorted := SortBy(lbl1.value, LabelIndex);
      Ok(Zip(seq(|sorted|, i requires 0 <= i < |sorted| => sorted[i].name), txt2.value))
  }

  /** `header.sectionCount`: a negative count runs no turns. */
  function SectionCount(h: seq<byte>): nat
    requires 16 <= |h|
  {
    var count := I16At(h, 14);
    if count < 0 then 0 else count
  }

  /** The items once every section is read. */
  function Finish(t: Tables, unicode: bool): (r: Result<Table>)
    ensures r.Ok? ==> r.value.tables == t && r.value.unicode == unicode
  {
    var items :- Pair(t.lbl1, t.txt2);
    Ok(Table(items, t, unicode))
  }

  /** `new MSBT(input)`. */
  function Parse(data: seq<byte>): (r: Result<Table>)
    ensures |data| >= HeaderSize && BinaryReaderX.ToCString(data[..8]) != "MsgStdBn" ==> r == Fail(NotMsbt)
    ensures |data| == 0 ==> r == Fail(NullReference)
    ensures 0 < |data| < HeaderSize ==> r == Fail(Undefined)
  {
    var h :- BinaryReaderX.StructAt(data, 0, HeaderSize);
    assert h[..8] == data[..8];
    if BinaryReaderX.ToCString(h[..8]) != "MsgStdBn" then Fail(NotMsbt)
    else
      var s :- Sections(data, HeaderSize, SectionCount(h), NoTables);
      Finish(s.0, h[12] != 0)
  }
  /** With offsets that are in `int` range and do not decrease, and enough
      bytes, text `i` is the slice between offsets `i` and `i + 1`, measured
      from the first offset. */
  lemma {:induction false} TextSlices(data: seq<byte>, p: nat, offsets: seq<int>)
    requires |offsets| >= 1
    requires forall k :: 0 <= k < |offsets| ==> 0 <= offsets[k] < 0x8000_0000
    requires forall j, k :: 0 <= j <= k < |offsets| ==> offsets[j] <= offsets[k]
    requires p + offsets[|offsets| - 1] - offsets[0] <= |data|
    ensures Texts(data, p, offsets).Ok?
    ensures Texts(data, p, offsets).value.1 == p + offsets[|offsets| - 1] - offsets[0]
    ensures forall i :: 0 <= i < |offsets| - 1 ==>
      Texts(data, p, offsets).value.0[i] == data[p + offsets[i] - offsets[0]..p + offsets[i + 1] - offsets[0]]
    decreases |offsets|
  {
    if |offsets| >= 2 {
      var n := offsets[1] - offsets[0];
      assert Int32(n) == n;
      var bytes := BinaryReaderX.Take(data, p, n);
      assert bytes == data[p..p + n];
      var tail := offsets[1..];
      TextSlices(data, p + n, tail);
      var rest := Texts(data, p + n, tail);
      assert Texts(data, p, offsets) == Prepend([bytes], rest);
      forall i | 0 <= i < |offsets| - 1
        ensures Texts(data, p, offsets).value.0[i] == data[p + offsets[i] - offsets[0]..p + offsets[i + 1] - offsets[0]]
      {
        if i > 0 {
          assert tail[i - 1] == offsets[i] && tail[i] == offsets[i + 1];
        }
      }
    }
  }

  /** `Label_i` names index `i`: the digits after the prefix read back as
      `i`, so no two default labels are equal. */
  lemma DefaultLabelIndex(i: nat, j: nat)
    ensures DecimalValue(DefaultLabel(i)[6..]) == i
    ensures i != j ==> DefaultLabel(i) != DefaultLabel(j)
  {
    assert DefaultLabel(i)[6..] == Decimal(i);
    assert DefaultLabel(j)[6..] == Decimal(j);
    DecimalRoundTrip(i);
    DecimalRoundTrip(j);
  }

  // ---------------------------------------------------------------------
  // The constructor

  /** `new MSBT(input)`. */
  method Open(data: seq<byte>) returns (r: Result<Table>)
    ensures r == Parse(data)
  {
    var br := new BinaryReaderX.Reader(data);
    var h :- br.ReadStruct(HeaderSize);
    assert h[..8] == data[..8];
    if BinaryReaderX.ToCString(h[..8]) != "MsgStdBn" {
      return Fail(NotMsbt);
    }
    var t :- ReadSections(br, SectionCount(h));
    return Finish(t, h[12] != 0);
  }

  /** The section loop: `sectionCount` turns from the empty state. */
  method ReadSections(br: BinaryReaderX.Reader, n: nat) returns (r: Result<Tables>)
    requires br.Valid()
    modifies br`pos
    ensures br.Valid()
    ensures Sections(br.data, old(br.pos), n, NoTables) == if r.Ok? then Ok((r.value, br.pos as nat)) else Fail(r.error)
  {
    var t := NoTables;
    for i := 0 to n
      invariant br.Valid()
      invariant Sections(br.data, old(br.pos), n, NoTables) == Sections(br.data, br.pos, n - i, t)
    {
      var s := ReadSection(br, t);
      if s.Fail? {
        return Fail(s.error);
      }
      t := s.value;
    }
    return Ok(t);
  }

  /** One turn of the section loop. */
  method ReadSection(br: BinaryReaderX.Reader, t: Tables) returns (r: Result<Tables>)
    requires br.Valid()
    modifies br`pos
    ensures br.Valid()
    ensures SectionAt(br.data, old(br.pos), t) == if r.Ok? then Ok((r.value, br.pos as nat)) else Fail(r.error)
  {
    var h :- br.ReadStruct(SectionHeaderSize);
    var magic := BinaryReaderX.ToCString(h[..4]);
    var t1 := t.(sections := t.sections + [magic]);
    var body :- ReadSectionBody(br, magic, I32At(h, 4), t1);
    var skip :- SkipPadding(br);
    return Ok(body);
  }

  /** The `switch` on the section magic. */
  method ReadSectionBody(br: BinaryReaderX.Reader, magic: seq<char>, size: int, t: Tables) returns (r: Result<Tables>)
    requires br.Valid()
    modifies br`pos
    ensures br.Valid()
    ensures SectionBody(br.data, old(br.pos), magic, size, t) == if r.Ok? then Ok((r.value, br.pos as nat)) else Fail(r.error)
  {
    if magic == "LBL1" {
      var l :- ReadLbl1(br);
      return Ok(t.(lbl1 := Some(l)));
    } else if magic == "ATR1" {
      var a :- br.ReadBytes(size);
      return Ok(t.(atr1 := Some(a)));
    } else if magic == "TSY1" {
      var n := CsDiv(size, 4);
      if n < 0 {
        return Fail(ArgumentOutOfRange);
      }
      var s :- ReadInt32s(br, n);
      return Ok(t.(tsy1 := Some(s)));
    } else if magic == "TXT2" {
      var x :- ReadTxt2(br, size);
      return Ok(t.(txt2 := Some(x)));
    }
    return Fail(UnknownSection);
  }

  /** LBL1: the slot count, the slots, their checked sum, the labels. */
  method ReadLbl1(br: BinaryReaderX.Reader) returns (r: Result<seq<LabelEntry>>)
    requires br.Valid()
    modifies br`pos
    ensures br.Valid()
    ensures Lbl1(br.data, old(br.pos)) == if r.Ok? then Ok((r.value, br.pos as nat)) else Fail(r.error)
  {
    var size :- br.ReadInt32();
    if size != HashSlots {
      return Fail(InvalidData);
    }
    var slots :- ReadSlots(br, HashSlots);
    var labelCount :- CheckedSum(slots, 0);
    if labelCount < 0 {
      return Fail(ArgumentOutOfRange);
    }
    r := ReadLabels(br, labelCount);
  }

  /** TXT2: the count, the offsets, then the texts up to the section size. */
  method ReadTxt2(br: BinaryReaderX.Reader, size: int) returns (r: Result<seq<seq<byte>>>)
    requires br.Valid()
    modifies br`pos
    ensures br.Valid()
    ensures Txt2(br.data, old(br.pos), size) == if r.Ok? then Ok((r.value, br.pos as nat)) else Fail(r.error)
  {
    var textCount :- br.ReadInt32();
    if textCount < 0 {
      return Fail(ArgumentOutOfRange);
    }
    var offsets :- ReadInt32s(br, textCount);
    r := ReadTexts(br, offsets + [size]);
  }

  /** `Skip(1).Zip(offsets, (o1, o2) => ReadString(encoding, o1 - o2))`. */
  method ReadTexts(br: BinaryReaderX.Reader, offsets: seq<int>) returns (r: Result<seq<seq<byte>>>)
    requires br.Valid()
    modifies br`pos
    ensures br.Valid()
    ensures Texts(br.data, old(br.pos), offsets) == if r.Ok? then Ok((r.value, br.pos as nat)) else Fail(r.error)
  {
    ghost var whole := Texts(br.data, br.pos, offsets);
    var texts: seq<seq<byte>> := [];
    PrependEmpty(whole);
    var i := 0;
    while i + 1 < |offsets|
      invariant br.Valid() && i <= |offsets|
      invariant whole == Prepend(texts, Texts(br.data, br.pos, offsets[i..]))
    {
      ghost var p := br.pos;
      var n := Int32(offsets[i + 1] - offsets[i]);
      TextsStep(br.data, p, offsets, i);
      if n < 0 {
        return Fail(ArgumentOutOfRange);
      }
      var bytes := br.ReadBytes(n);
      PrependAppend(texts, bytes.value, Texts(br.data, br.pos, offsets[i + 1..]));
      texts := texts + [bytes.value];
      i := i + 1;
    }
    assert texts + [] == texts;
    return Ok(texts);
  }

  /** The text reads from offset `i` on: a negative length throws, any
      other reads its bytes and goes on from offset `i + 1`. */
  lemma TextsStep(data: seq<byte>, p: nat, offsets: seq<int>, i: nat)
    requires i + 1 < |offsets|
    ensures var n := Int32(offsets[i + 1] - offsets[i]);
      Texts(data, p, offsets[i..])
      == if n < 0 then Fail(ArgumentOutOfRange)
         else Prepend([BinaryReaderX.Take(data, p, n)],
                      Texts(data, p + |BinaryReaderX.Take(data, p, n)|, offsets[i + 1..]))
  {
    assert offsets[i..][1..] == offsets[i + 1..];
  }

  /** `ReadMultiple(count, _ => (int)ReadInt64())`. */
  method ReadSlots(br: BinaryReaderX.Reader, count: nat) returns (r: Result<seq<int>>)
    requires br.Valid()
    modifies br`pos
    ensures br.Valid()
    ensures Repeat(SlotReader(br.data), old(br.pos), count) == if r.Ok? then Ok((r.value, br.pos as nat)) else Fail(r.error)
  {
    ghost var step := SlotReader(br.data);
    ghost var whole := Repeat(step, br.pos, count);
    var slots: seq<int> := [];
    PrependEmpty(whole);
    for i := 0 to count
      invariant br.Valid()
      invariant whole == Prepend(slots, Repeat(step, br.pos, count - i))
    {
      ghost var p := br.pos;
      var x := ReadSlot(br);
      if x.Fail? {
        RepeatFail(step, p, count - i, slots, x.error);
        return Fail(x.error);
      }
      RepeatOk(step, p, count - i, slots, x.value, br.pos);
      slots := slots + [x.value];
    }
    assert slots + [] == slots;
    return Ok(slots);
  }

  /** `(int)ReadInt64()`. */
  method ReadSlot(br: BinaryReaderX.Reader) returns (r: Result<int>)
    requires br.Valid()
    modifies br`pos
    ensures br.Valid()
    ensures SlotAt(br.data, old(br.pos)) == if r.Ok? then Ok((r.value, br.pos as nat)) else Fail(r.error)
  {
    var v :- br.ReadUInt64();
    return Ok(Int32(v));
  }

  /** `ReadMultiple(count, _ => ReadInt32())`. */
  method ReadInt32s(br: BinaryReaderX.Reader, count: nat) returns (r: Result<seq<int>>)
    requires br.Valid()
    modifies br`pos
    ensures br.Valid()
    ensures Repeat(Int32Reader(br.data), old(br.pos), count) == if r.Ok? then Ok((r.value, br.pos as nat)) else Fail(r.error)
  {
    ghost var step := Int32Reader(br.data);
    ghost var whole := Repeat(step, br.pos, count);
    var xs: seq<int> := [];
    PrependEmpty(whole);
    for i := 0 to count
      invariant br.Valid()
      invariant whole == Prepend(xs, Repeat(step, br.pos, count - i))
    {
      ghost var p := br.pos;
      var v := br.ReadInt32();
      if v.Fail? {
        RepeatFail(step, p, count - i, xs, v.error);
        return Fail(v.error);
      }
      assert step(p) == Ok((v.value, br.pos as nat));
      RepeatOk(step, p, count - i, xs, v.value, br.pos);
      xs := xs + [v.value];
    }
    assert xs + [] == xs;
    return Ok(xs);
  }

  /** `ReadMultiple(labelCount, _ => Tuple.Create(ReadString(), ReadInt32()))`. */
  method ReadLabels(br: BinaryReaderX.Reader, count: nat) returns (r: Result<seq<LabelEntry>>)
    requires br.Valid()
    modifies br`pos
    ensures br.Valid()
    ensures Repeat(LabelReader(br.data), old(br.pos), count) == if r.Ok? then Ok((r.value, br.pos as nat)) else Fail(r.error)
  {
    ghost var step := LabelReader(br.data);
    ghost var whole := Repeat(step, br.pos, count);
    var labels: seq<LabelEntry> := [];
    PrependEmpty(whole);
    for i := 0 to count
      invariant br.Valid()
      invariant whole == Prepend(labels, Repeat(step, br.pos, count - i))
    {
      ghost var p := br.pos;
      var l := ReadLabel(br);
      if l.Fail? {
        RepeatFail(step, p, count - i, labels, l.error);
        return Fail(l.error);
      }
      RepeatOk(step, p, count - i, labels, l.value, br.pos);
      labels := labels + [l.value];
    }
    assert labels + [] == labels;
    return Ok(labels);
  }

  method ReadLabel(br: BinaryReaderX.Reader) returns (r: Result<LabelEntry>)
    requires br.Valid()
    modifies br`pos
    ensures br.Valid()
    ensures LabelAt(br.data, old(br.pos)) == if r.Ok? then Ok((r.value, br.pos as nat)) else Fail(r.error)
  {
    var name :- ReadString(br);
    var index :- br.ReadInt32();
    return Ok(LabelEntry(Units(name), index));
  }

  /** `BinaryReader.ReadString()`, keeping the bytes. */
  method ReadString(br: BinaryReaderX.Reader) returns (r: Result<seq<byte>>)
    requires br.Valid()
    modifies br`pos
    ensures br.Valid()
    ensures StringAt(br.data, old(br.pos)) == if r.Ok? then Ok((r.value, br.pos as nat)) else Fail(r.error)
  {
    var len :- Read7BitEncodedInt(br);
    if len < 0 {
      return Fail(NegativeLength);
    }
    r := br.ReadExact(len);
  }

  /** `Read7BitEncodedInt()`. */
  method Read7BitEncodedInt(br: BinaryReaderX.Reader) returns (r: Result<int>)
    requires br.Valid()
    modifies br`pos
    ensures br.Valid()
    ensures LengthPrefix(br.data, old(br.pos), 0, 0) == if r.Ok? then Ok((r.value, br.pos as nat)) else Fail(r.error)
  {
    var count := 0;
    var shift := 0;
    while true
      invariant br.Valid() && PrefixState(br.data, old(br.pos), br.pos, shift, count)
      decreases 35 - shift
    {
      ghost var p := br.pos;
      PrefixTurn(br.data, old(br.pos), p, shift, count);
      if shift == 35 {
        return Fail(BadLength);
      }
      var b :- br.ReadByte();
      count := count + b % 128 * Pow2(shift);
      shift := shift + 7;
      if b < 128 {
        return Ok(Int32(count));
      }
    }
  }

  /** The loop state of `Read7BitEncodedInt`: what is left to read from
      `pos` completes the read begun at `start`. */
  ghost predicate PrefixState(data: seq<byte>, start: nat, pos: int, shift: int, count: int)
  {
    0 <= pos && 0 <= shift <= 35 && shift % 7 == 0
    && LengthPrefix(data, start, 0, 0) == LengthPrefix(data, pos, shift, count)
  }

  /** One turn of `Read7BitEncodedInt`: a sixth byte throws, the end of the
      stream throws, a byte below 128 ends the read, any other continues it. */
  lemma PrefixTurn(data: seq<byte>, start: nat, p: int, shift: int, count: int)
    requires PrefixState(data, start, p, shift, count)
    ensures shift == 35 ==> LengthPrefix(data, start, 0, 0) == Fail(BadLength)
    ensures shift < 35 && p >= |data| ==> LengthPrefix(data, start, 0, 0) == Fail(EndOfStream)
    ensures shift < 35 && p < |data| ==>
      var count' := count + data[p] % 128 * Pow2(shift);
      if data[p] < 128 then LengthPrefix(data, start, 0, 0) == Ok((Int32(count'), p + 1))
      else PrefixState(data, start, p + 1, shift + 7, count')
  {
    if shift < 35 && p < |data| {
      var count' := count + data[p] % 128 * Pow2(shift);
      var next := LengthPrefix(data, p + 1, shift + 7, count');
      if data[p] < 128 {
        assert LengthPrefix(data, p, shift, count) == Ok((Int32(count'), p + 1));
      } else {
        assert LengthPrefix(data, p, shift, count) == next;
      }
    }
  }

  /** The skip after each section: `ReadByte` until the position is a
      multiple of 16 or the end of the stream. */
  method SkipPadding(br: BinaryReaderX.Reader) returns (r: Result<()>)
    requires br.Valid()
    modifies br`pos
    ensures br.Valid()
    ensures Align(br.data, old(br.pos)) == if r.Ok? then Ok(br.pos) else Fail(r.error)
  {
    while br.pos % 16 != 0 && br.pos != |br.data|
      invariant br.Valid()
      invariant Align(br.data, old(br.pos)) == Align(br.data, br.pos)
      decreases |br.data| - br.pos
    {
      var b :- br.ReadByte();
    }
    return Ok(());
  }
}
