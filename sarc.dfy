/** `Cetera.Archive.SARC`: a SARC archive is a header, an SFAT node table,
    an SFNT block of zero-padded ASCII names and the file data.  When the
    byte-order mark at offset 6 is missing, the file is read as the
    "simpler" variant instead: a node count, a table of (hash, start,
    length) entries and files named `File0`, `File1`, ... */
module Sarc {
  import opened Primitives
  import BinaryReaderX

  /** `Marshal.SizeOf` of the structs the constructor reads. */
  const SarcHeaderSize: nat := 20
  const SfatHeaderSize: nat := 12
  const SfatNodeSize: nat := 16
  const SfntHeaderSize: nat := 8
  const SimplerHeaderSize: nat := 16
  const SimplerNodeSize: nat := 16

  // ---------------------------------------------------------------------
  // The name hash

  /** The loop of `CalcNodeHash` run over `name` from hash `acc`: each step
      is `(uint)(name[i] + result * hashMultiplier)`, computed in 64 bits
      and truncated to 32. */
  function HashFrom(acc: int, name: seq<int>, mult: int): (h: int)
    requires 0 <= acc < UInt32Mod
    ensures 0 <= h < UInt32Mod
    decreases |name|
  {
    if name == [] then acc else HashFrom(ToUInt32(name[0] + acc * mult), name[1..], mult)
  }

  /** `CalcNodeHash(name, hashMultiplier)`. */
  function Hash(name: seq<int>, mult: int): (h: int)
    ensures 0 <= h < UInt32Mod
  {
    HashFrom(0, name, mult)
  }

  /** Running the loop one unit further is one more step on its result. */
  lemma {:induction false} HashFromSnoc(acc: int, name: seq<int>, c: int, mult: int)
    requires 0 <= acc < UInt32Mod
    ensures HashFrom(acc, name + [c], mult) == ToUInt32(c + HashFrom(acc, name, mult) * mult)
    decreases |name|
  {
    if name != [] {
      assert (name + [c])[1..] == name[1..] + [c];
      HashFromSnoc(ToUInt32(name[0] + acc * mult), name[1..], c, mult);
    }
  }

  /** The hash of the empty name is 0, and appending a unit `c` gives
      `c + hash * multiplier` modulo 2^32. */
  lemma HashSnoc(name: seq<int>, c: int, mult: int)
    ensures Hash([], mult) == 0
    ensures Hash(name + [c], mult) == ToUInt32(c + Hash(name, mult) * mult)
  {
    HashFromSnoc(0, name, c, mult);
  }

  /** `CalcNodeHash`: the loop over the name's UTF-16 units. */
  method CalcNodeHash(name: seq<int>, mult: int) returns (result: int)
    requires -0x8000_0000 <= mult < 0x8000_0000
    ensures result == Hash(name, mult)
  {
    result := 0;
    for i := 0 to |name|
      invariant result == Hash(name[..i], mult)
    {
      assert name[..i + 1] == name[..i] + [name[i]];
      HashSnoc(name[..i], name[i], mult);
      result := ToUInt32(name[i] + result * mult);
    }
    assert name[..|name|] == name;
  }

  // ---------------------------------------------------------------------
  // Names

  /** `Encoding.ASCII.GetString` of one byte: bytes above 0x7F become `?`. */
  function AsciiUnit(b: byte): int
  {
    if b < 0x80 then b else '?' as int
  }

  /** `readASCII` from `p`: the decoded bytes before the first zero, and the
      position of that zero (`Position -= 1` steps back onto it).  At the
      end of the stream `ReadBytes(1)` is empty and `character[0]` throws. */
  function Ascii(data: seq<byte>, p: nat): (r: Result<(seq<int>, nat)>)
    ensures r.Ok? ==> p <= r.value.1 < |data| && data[r.value.1] == 0 && |r.value.0| == r.value.1 - p
    ensures r.Ok? ==> forall k :: p <= k < r.value.1 ==> data[k] != 0 && r.value.0[k - p] == AsciiUnit(data[k])
    ensures r.Fail? ==> r.error == IndexOutOfRange && forall k :: p <= k < |data| ==> data[k] != 0
    decreases |data| - p
  {
    if p >= |data| then Fail(IndexOutOfRange)
    else if data[p] == 0 then Ok(([], p))
    else Prepend([AsciiUnit(data[p])], Ascii(data, p + 1))
  }

  /** The padding skip after a name: `ReadByte` until a non-zero byte, then
      one byte back.  Reading past the end throws. */
  function NextNonZero(data: seq<byte>, p: nat): (r: Result<nat>)
    ensures r.Ok? ==> p <= r.value < |data| && data[r.value] != 0
    ensures r.Ok? ==> forall k :: p <= k < r.value ==> data[k] == 0
    ensures r.Fail? ==> r.error == EndOfStream && forall k :: p <= k < |data| ==> data[k] == 0
    decreases |data| - p
  {
    if p >= |data| then Fail(EndOfStream)
    else if data[p] != 0 then Ok(p)
    else NextNonZero(data, p + 1)
  }

  /** One turn of the name loop: the name, then the skip over its
      terminator and the zero bytes after it. */
  function NameAt(data: seq<byte>, p: nat): Result<(seq<int>, nat)>
  {
    var (name, q) :- Ascii(data, p);
    var next :- NextNonZero(data, q);
    Ok((name, next))
  }

  function NameReader(data: seq<byte>): nat -> Result<(seq<int>, nat)>
  {
    (p: nat) => NameAt(data, p)
  }

  /** Each name read ends on the next non-zero byte, and every byte it
      skipped after the name is zero. */
  lemma NameFraming(data: seq<byte>, p: nat)
    requires NameAt(data, p).Ok?
    ensures var (name, next) := NameAt(data, p).value;
      && p + |name| < next < |data|
      && data[p + |name|] == 0 && data[next] != 0
      && (forall k :: p <= k < p + |name| ==> data[k] != 0 && name[k - p] == AsciiUnit(data[k]))
      && (forall k :: p + |name| <= k < next ==> data[k] == 0)
  {
  }

  // ---------------------------------------------------------------------
  // Nodes

  /** `SFATNode`: the name hash, the SFNT offset, an unknown field, and the
      data range relative to the header's `dataOffset`. */
  datatype SfatNode = SfatNode(nameHash: int, sfntOffset: int, unk1: int, dataStart: int, dataEnd: int)

  /** `SimplerSFATNode`: a hash, the data's absolute start and its length. */
  datatype SimplerNode = SimplerNode(hash: int, dataStart: nat, dataLength: int, unk1: int)

  /** `SARC.Node`; the constructor is its `state`. */
  datatype Node =
    | Normal(entry: SfatNode, fileName: seq<int>, fileData: seq<byte>)
    | Simpler(sEntry: SimplerNode, fileName: seq<int>, fileData: seq<byte>)

  function SfatNodeAt(data: seq<byte>, p: nat): (r: Result<(SfatNode, nat)>)
    ensures r.Ok? <==> p + SfatNodeSize <= |data|
    ensures r.Ok? ==> r.value.1 == p + SfatNodeSize
    ensures p >= |data| ==> r == Fail(NullReference)
    ensures p < |data| < p + SfatNodeSize ==> r == Fail(Undefined)
  {
    var b :- BinaryReaderX.StructAt(data, p, SfatNodeSize);
    Ok((SfatNode(U32At(b, 0), U16At(b, 4), U16At(b, 6), U32At(b, 8), U32At(b, 12)), p + SfatNodeSize))
  }

  function SfatReader(data: seq<byte>): nat -> Result<(SfatNode, nat)>
  {
    (p: nat) => SfatNodeAt(data, p)
  }

  function SimplerNodeAt(data: seq<byte>, p: nat): (r: Result<(SimplerNode, nat)>)
    ensures r.Ok? <==> p + SimplerNodeSize <= |data|
    ensures r.Ok? ==> r.value.1 == p + SimplerNodeSize
    ensures p >= |data| ==> r == Fail(NullReference)
    ensures p < |data| < p + SimplerNodeSize ==> r == Fail(Undefined)
  {
    var b :- BinaryReaderX.StructAt(data, p, SimplerNodeSize);
    Ok((SimplerNode(U32At(b, 0), U32At(b, 4), U32At(b, 8), U32At(b, 12)), p + SimplerNodeSize))
  }

  function SimplerReader(data: seq<byte>): nat -> Result<(SimplerNode, nat)>
  {
    (p: nat) => SimplerNodeAt(data, p)
  }

  /** A normal node's data: `Position = dataOffset + dataStart` (a `uint`
      sum), then `ReadBytes((int)(dataEnd - dataStart))` (a `uint`
      difference reinterpreted as `int`; a negative count throws). */
  function NodeData(data: seq<byte>, dataOffset: int, e: SfatNode): (r: Result<seq<byte>>)
  {
    var count := Int32(ToUInt32(e.dataEnd - e.dataStart));
    if count < 0 then Fail(ArgumentOutOfRange)
    else Ok(BinaryReaderX.Take(data, ToUInt32(dataOffset + e.dataStart), count))
  }

  /** A simpler node's data: `Position = dataStart`, then
      `ReadBytes((int)dataLength)`. */
  function SimplerData(data: seq<byte>, e: SimplerNode): (r: Result<seq<byte>>)
  {
    var count := Int32(e.dataLength);
    if count < 0 then Fail(ArgumentOutOfRange)
    else Ok(BinaryReaderX.Take(data, e.dataStart, count))
  }

  /** The data loop over the first `n` normal nodes. */
  function NodeDatas(data: seq<byte>, dataOffset: int, entries: seq<SfatNode>, n: nat): (r: Result<seq<seq<byte>>>)
    requires n <= |entries|
    ensures r.Ok? ==> |r.value| == n
  {
    if n == 0 then Ok([])
    else
      var prev :- NodeDatas(data, dataOffset, entries, n - 1);
      var d :- NodeData(data, dataOffset, entries[n - 1]);
      Ok(prev + [d])
  }

  /** The data loop over the first `n` simpler nodes. */
  function SimplerDatas(data: seq<byte>, entries: seq<SimplerNode>, n: nat): (r: Result<seq<seq<byte>>>)
    requires n <= |entries|
    ensures r.Ok? ==> |r.value| == n
  {
    if n == 0 then Ok([])
    else
      var prev :- SimplerDatas(data, entries, n - 1);
      var d :- SimplerData(data, entries[n - 1]);
      Ok(prev + [d])
  }

  /** `"File" + i.ToString()`. */
  function SimplerName(i: nat): seq<int>
  {
    ['F' as int, 'i' as int, 'l' as int, 'e' as int] + Decimal(i)
  }

  // ---------------------------------------------------------------------
  // The archive

  /** After the node table ending at `p`: the SFNT header, then the name loop. */
  function Names(data: seq<byte>, p: nat, count: nat): (r: Result<seq<seq<int>>>)
    ensures r.Ok? ==> |r.value| == count
    ensures p >= |data| ==> r == Fail(NullReference)
    ensures p < |data| < p + SfntHeaderSize ==> r == Fail(Undefined)
  {
    if p + SfntHeaderSize > |data| then Fail(BinaryReaderX.StructFault(data, p))
    else
      var names :- Repeat(NameReader(data), p + SfntHeaderSize, count);
      Ok(names.0)
  }

  function NormalNodes(entries: seq<SfatNode>, names: seq<seq<int>>, datas: seq<seq<byte>>): (r: seq<Node>)
    requires |names| == |entries| && |datas| == |entries|
    ensures |r| == |entries|
    ensures forall i :: 0 <= i < |r| ==> r[i] == Normal(entries[i], names[i], datas[i])
  {
    seq(|entries|, i requires 0 <= i < |entries| => Normal(entries[i], names[i], datas[i]))
  }

  function SimplerNodes(entries: seq<SimplerNode>, datas: seq<seq<byte>>): (r: seq<Node>)
    requires |datas| == |entries|
    ensures |r| == |entries|
    ensures forall i :: 0 <= i < |r| ==> r[i] == Simpler(entries[i], SimplerName(i), datas[i])
  {
    seq(|entries|, i requires 0 <= i < |entries| => Simpler(entries[i], SimplerName(i), datas[i]))
  }

  /** The normal layout: the SARC header (`dataOffset` at offset 12), the
      SFAT header (`nodeCount` at offset 26), the nodes, the SFNT header,
      the names, then each node's data. */
  function NormalArchive(data: seq<byte>): (r: Result<seq<Node>>)
    ensures |data| == 0 || |data| == SarcHeaderSize ==> r == Fail(NullReference)
    ensures 0 < |data| < SarcHeaderSize || SarcHeaderSize < |data| < SarcHeaderSize + SfatHeaderSize
      ==> r == Fail(Undefined)
  {
    if |data| < SarcHeaderSize then Fail(BinaryReaderX.StructFault(data, 0))
    else if |data| < SarcHeaderSize + SfatHeaderSize then Fail(BinaryReaderX.StructFault(data, SarcHeaderSize))
    else
      var count := U16At(data, 26);
      var table :- Repeat(SfatReader(data), SarcHeaderSize + SfatHeaderSize, count);
      var names :- Names(data, table.1, count);
      var datas :- NodeDatas(data, U32At(data, 12), table.0, count);
      Ok(NormalNodes(table.0, names, datas))
  }

  /** The simpler layout: a 16-byte header (`nodeCount` at offset 4), the
      nodes, then each node's data. */
  function SimplerArchive(data: seq<byte>): (r: Result<seq<Node>>)
    ensures |data| == 0 ==> r == Fail(NullReference)
    ensures 0 < |data| < SimplerHeaderSize ==> r == Fail(Undefined)
  {
    if |data| < SimplerHeaderSize then Fail(BinaryReaderX.StructFault(data, 0))
    else
      var count := U32At(data, 4);
      var table :- Repeat(SimplerReader(data), SimplerHeaderSize, count);
      var datas :- SimplerDatas(data, table.0, count);
      Ok(SimplerNodes(table.0, datas))
  }

  /** `new SARC(input)`: the `ushort` at offset 6 picks the layout. */
  function Archive(data: seq<byte>): (r: Result<seq<Node>>)
    ensures |data| < 8 ==> r == Fail(EndOfStream)
  {
    if |data| < 8 then Fail(EndOfStream)
    else
      var ind := U16At(data, 6);
      if ind != 0xFEFF && ind != 0xFFFE then SimplerArchive(data) else NormalArchive(data)
  }

  /** Without a byte-order mark at offset 6 the archive is the simpler
      layout, with one; the normal layout. */
  lemma Dispatch(data: seq<byte>)
    requires |data| >= 8
    ensures U16At(data, 6) != 0xFEFF && U16At(data, 6) != 0xFFFE ==> Archive(data) == SimplerArchive(data)
    ensures U16At(data, 6) == 0xFEFF || U16At(data, 6) == 0xFFFE ==> Archive(data) == NormalArchive(data)
    ensures Archive(data).Ok? ==> |data| >= 8
  {
  }

  /** Node `i` of a normal archive has the `i`-th table entry and
      `dataEnd - dataStart` bytes (modulo 2^32, below 2^31) at
      `dataOffset + dataStart`. */
  lemma NormalNode(data: seq<byte>, nodes: seq<Node>, i: nat)
    requires NormalArchive(data) == Ok(nodes) && i < |nodes|
    ensures SarcHeaderSize + SfatHeaderSize + SfatNodeSize * (i + 1) <= |data|
    ensures nodes[i].Normal?
    ensures SfatNodeAt(data, SarcHeaderSize + SfatHeaderSize + SfatNodeSize * i).Ok?
    ensures SfatNodeAt(data, SarcHeaderSize + SfatHeaderSize + SfatNodeSize * i).value.0 == nodes[i].entry
    ensures NodeData(data, U32At(data, 12), nodes[i].entry) == Ok(nodes[i].fileData)
  {
    var count := U16At(data, 26);
    var start := SarcHeaderSize + SfatHeaderSize;
    var table := Repeat(SfatReader(data), start, count);
    forall q: nat
      ensures SfatReader(data)(q).Ok? ==> SfatReader(data)(q).value.1 == q + 16
    {
    }
    Stride16(SfatReader(data), start, count, i);
    NodeDatasAt(data, U32At(data, 12), table.value.0, count, i);
  }

  /** Node `i` of a simpler archive is named `File` and `i` in decimal, has
      the `i`-th table entry, and `dataLength` bytes (below 2^31) at
      `dataStart`. */
  lemma SimplerFile(data: seq<byte>, nodes: seq<Node>, i: nat)
    requires SimplerArchive(data) == Ok(nodes) && i < |nodes|
    ensures SimplerHeaderSize + SimplerNodeSize * (i + 1) <= |data|
    ensures nodes[i].Simpler?
    ensures nodes[i].fileName == SimplerName(i)
    ensures SimplerNodeAt(data, SimplerHeaderSize + SimplerNodeSize * i).Ok?
    ensures SimplerNodeAt(data, SimplerHeaderSize + SimplerNodeSize * i).value.0 == nodes[i].sEntry
    ensures SimplerData(data, nodes[i].sEntry) == Ok(nodes[i].fileData)
  {
    assert |data| >= SimplerHeaderSize;
    var count := U32At(data, 4);
    var table := Repeat(SimplerReader(data), SimplerHeaderSize, count);
    forall q: nat
      ensures SimplerReader(data)(q).Ok? ==> SimplerReader(data)(q).value.1 == q + 16
    {
    }
    assert table.Ok?;
    var datas := SimplerDatas(data, table.value.0, count);
    assert datas.Ok?;
    assert nodes == SimplerNodes(table.value.0, datas.value);
    Stride16(SimplerReader(data), SimplerHeaderSize, count, i);
    SimplerDatasAt(data, table.value.0, count, i);
  }

  /** When every read advances 16 bytes, item `i` of a table read is the
      read at `16 * i` bytes further on. */
  lemma {:induction false} Stride16<T>(step: nat -> Result<(T, nat)>, p: nat, count: nat, i: nat)
    requires forall q: nat :: step(q).Ok? ==> step(q).value.1 == q + 16
    requires Repeat(step, p, count).Ok? && i < count
    ensures step(p + 16 * i).Ok?
    ensures Repeat(step, p, count).value.0[i] == step(p + 16 * i).value.0
    decreases count
  {
    var head := step(p);
    var rest := Repeat(step, p + 16, count - 1);
    assert Repeat(step, p, count) == Prepend([head.value.0], rest);
    if i > 0 {
      Stride16(step, p + 16, count - 1, i - 1);
      assert p + 16 + 16 * (i - 1) == p + 16 * i;
    }
  }

  /** Entry `i` of the data loop is node `i`'s own read. */
  lemma {:induction false} NodeDatasAt(data: seq<byte>, dataOffset: int, entries: seq<SfatNode>, n: nat, i: nat)
    requires n <= |entries| && NodeDatas(data, dataOffset, entries, n).Ok? && i < n
    ensures NodeData(data, dataOffset, entries[i]) == Ok(NodeDatas(data, dataOffset, entries, n).value[i])
    decreases n
  {
    if i < n - 1 {
      NodeDatasAt(data, dataOffset, entries, n - 1, i);
    }
  }

  /** Entry `i` of the simpler data loop is node `i`'s own read. */
  lemma {:induction false} SimplerDatasAt(data: seq<byte>, entries: seq<SimplerNode>, n: nat, i: nat)
    requires n <= |entries| && SimplerDatas(data, entries, n).Ok? && i < n
    ensures SimplerData(data, entries[i]) == Ok(SimplerDatas(data, entries, n).value[i])
    decreases n
  {
    if i < n - 1 {
      SimplerDatasAt(data, entries, n - 1, i);
    }
  }

  /** Once a data read has thrown, the rest of the loop does not run. */
  lemma {:induction false} NodeDatasFail(data: seq<byte>, dataOffset: int, entries: seq<SfatNode>, i: nat, n: nat)
    requires i <= n <= |entries| && NodeDatas(data, dataOffset, entries, i).Fail?
    ensures NodeDatas(data, dataOffset, entries, n) == NodeDatas(data, dataOffset, entries, i)
    decreases n
  {
    if n > i {
      NodeDatasFail(data, dataOffset, entries, i, n - 1);
    }
  }

  lemma {:induction false} SimplerDatasFail(data: seq<byte>, entries: seq<SimplerNode>, i: nat, n: nat)
    requires i <= n <= |entries| && SimplerDatas(data, entries, i).Fail?
    ensures SimplerDatas(data, entries, n) == SimplerDatas(data, entries, i)
    decreases n
  {
    if n > i {
      SimplerDatasFail(data, entries, i, n - 1);
    }
  }

  // ---------------------------------------------------------------------
  // The constructor

  /** `new SARC(input)`. */
  method Open(data: seq<byte>) returns (r: Result<seq<Node>>)
    ensures r == Archive(data)
  {
    var br := new BinaryReaderX.Reader(data);
    var moved := br.Seek(6);
    var ind :- br.ReadUInt16();
    moved := br.Seek(0);
    if ind != 0xFEFF && ind != 0xFFFE {
      r := ReadSimpler(br);
    } else {
      r := ReadNormal(br);
    }
  }

  /** The normal layout, read from the start of the stream. */
  method ReadNormal(br: BinaryReaderX.Reader) returns (r: Result<seq<Node>>)
    requires br.Valid() && br.pos == 0
    modifies br`pos
    ensures r == NormalArchive(br.data)
  {
    var header :- br.ReadStruct(SarcHeaderSize);
    var sfat :- br.ReadStruct(SfatHeaderSize);
    var dataOffset := U32At(header, 12);
    var count := U16At(sfat, 6);
    assert dataOffset == U32At(br.data, 12) && count == U16At(br.data, 26);
    var entries :- ReadSfatNodes(br, count);
    ghost var p := br.pos;
    var sfnt :- br.ReadStruct(SfntHeaderSize);
    var names :- ReadNames(br, count);
    var datas :- ReadNodeData(br, dataOffset, entries, count);
    return Ok(NormalNodes(entries, names, datas));
  }

  /** `SimplerSARC`: the simpler layout, read from the start of the stream. */
  method ReadSimpler(br: BinaryReaderX.Reader) returns (r: Result<seq<Node>>)
    requires br.Valid() && br.pos == 0
    modifies br`pos
    ensures r == SimplerArchive(br.data)
  {
    var header :- br.ReadStruct(SimplerHeaderSize);
    var count := U32At(header, 4);
    assert count == U32At(br.data, 4);
    var entries :- ReadSimplerNodes(br, count);
    var datas :- ReadSimplerData(br, entries, count);
    return Ok(SimplerNodes(entries, datas));
  }

  /** The SFAT node loop: one struct read per node. */
  method ReadSfatNodes(br: BinaryReaderX.Reader, count: nat) returns (r: Result<seq<SfatNode>>)
    requires br.Valid()
    modifies br`pos
    ensures br.Valid()
    ensures Repeat(SfatReader(br.data), old(br.pos), count) == if r.Ok? then Ok((r.value, br.pos)) else Fail(r.error)
  {
    ghost var step := SfatReader(br.data);
    ghost var whole := Repeat(step, br.pos, count);
    var nodes: seq<SfatNode> := [];
    PrependEmpty(whole);
    for i := 0 to count
      invariant br.Valid()
      invariant whole == Prepend(nodes, Repeat(step, br.pos, count - i))
    {
      ghost var p := br.pos;
      var b := br.ReadStruct(SfatNodeSize);
      if b.Fail? {
        RepeatFail(step, p, count - i, nodes, b.error);
        return Fail(b.error);
      }
      var e := SfatNode(U32At(b.value, 0), U16At(b.value, 4), U16At(b.value, 6), U32At(b.value, 8), U32At(b.value, 12));
      assert step(p) == Ok((e, br.pos as nat));
      RepeatOk(step, p, count - i, nodes, e, br.pos);
      nodes := nodes + [e];
    }
    assert nodes + [] == nodes;
    return Ok(nodes);
  }

  /** The simpler node loop: one struct read per node. */
  method ReadSimplerNodes(br: BinaryReaderX.Reader, count: nat) returns (r: Result<seq<SimplerNode>>)
    requires br.Valid()
    modifies br`pos
    ensures br.Valid()
    ensures Repeat(SimplerReader(br.data), old(br.pos), count) == if r.Ok? then Ok((r.value, br.pos)) else Fail(r.error)
  {
    ghost var step := SimplerReader(br.data);
    ghost var whole := Repeat(step, br.pos, count);
    var nodes: seq<SimplerNode> := [];
    PrependEmpty(whole);
    for i := 0 to count
      invariant br.Valid()
      invariant whole == Prepend(nodes, Repeat(step, br.pos, count - i))
    {
      ghost var p := br.pos;
      var b := br.ReadStruct(SimplerNodeSize);
      if b.Fail? {
        RepeatFail(step, p, count - i, nodes, b.error);
        return Fail(b.error);
      }
      var e := SimplerNode(U32At(b.value, 0), U32At(b.value, 4), U32At(b.value, 8), U32At(b.value, 12));
      assert step(p) == Ok((e, br.pos as nat));
      RepeatOk(step, p, count - i, nodes, e, br.pos);
      nodes := nodes + [e];
    }
    assert nodes + [] == nodes;
    return Ok(nodes);
  }

  /** `readASCII(br)`. */
  method ReadAscii(br: BinaryReaderX.Reader) returns (r: Result<seq<int>>)
    requires br.Valid()
    modifies br`pos
    ensures br.Valid()
    ensures Ascii(br.data, old(br.pos)) == if r.Ok? then Ok((r.value, br.pos)) else Fail(r.error)
  {
    ghost var start: nat := br.pos;
    var result: seq<int> := [];
    var character := br.ReadBytes(1);
    PrependEmpty(Ascii(br.data, start));
    while character.value != [] && character.value[0] != 0
      invariant br.Valid() && character.Ok?
      invariant AsciiState(br.data, start, result, character.value, br.pos)
      decreases |br.data| - start - |result|
    {
      ghost var before := br.pos;
      var unit := AsciiUnit(character.value[0]);
      character := br.ReadBytes(1);
      AsciiTurn(br.data, start, result, before, character.value, br.pos);
      result := result + [unit];
    }
    if character.value == [] {
      return Fail(IndexOutOfRange);
    }
    assert result + [] == result;
    var back := br.Seek(br.pos - 1);
    return Ok(result);
  }

  /** The loop state of `readASCII`: `result` decoded so far, `character`
      the one byte read after it (none at the end of the stream). */
  ghost predicate AsciiState(data: seq<byte>, start: nat, result: seq<int>, character: seq<byte>, pos: int)
  {
    var q := start + |result|;
    && pos == q + |character|
    && character == (if q < |data| then [data[q]] else [])
    && Ascii(data, start) == Prepend(result, Ascii(data, q))
  }

  /** A non-zero byte extends the decoded name by one unit, and the next
      one-byte read follows it. */
  lemma AsciiTurn(data: seq<byte>, start: nat, result: seq<int>, pos: int, next: seq<byte>, pos': int)
    requires AsciiState(data, start, result, if start + |result| < |data| then [data[start + |result|]] else [], pos)
    requires start + |result| < |data| && data[start + |result|] != 0
    requires next == BinaryReaderX.Take(data, pos, 1) && pos' == pos + |next|
    ensures AsciiState(data, start, result + [AsciiUnit(data[start + |result|])], next, pos')
  {
    var q := start + |result|;
    assert Ascii(data, q) == Prepend([AsciiUnit(data[q])], Ascii(data, q + 1));
    PrependAppend(result, AsciiUnit(data[q]), Ascii(data, q + 1));
  }

  /** The skip after a name: `do tmp = ReadByte(); while (tmp == 0)`, then
      `Position -= 1`. */
  method SkipZeros(br: BinaryReaderX.Reader) returns (r: Result<()>)
    requires br.Valid()
    modifies br`pos
    ensures br.Valid()
    ensures NextNonZero(br.data, old(br.pos)) == if r.Ok? then Ok(br.pos) else Fail(r.error)
  {
    var tmp :- br.ReadByte();
    while tmp == 0
      invariant br.Valid() && old(br.pos) < br.pos <= |br.data| && br.data[br.pos - 1] == tmp
      invariant NextNonZero(br.data, old(br.pos)) == NextNonZero(br.data, br.pos - 1)
      decreases |br.data| - br.pos
    {
      tmp :- br.ReadByte();
    }
    var back := br.Seek(br.pos - 1);
    return Ok(());
  }

  /** The name loop: each name, then the skip to the next one. */
  method ReadNames(br: BinaryReaderX.Reader, count: nat) returns (r: Result<seq<seq<int>>>)
    requires br.Valid()
    modifies br`pos
    ensures br.Valid()
    ensures Repeat(NameReader(br.data), old(br.pos), count) == if r.Ok? then Ok((r.value, br.pos)) else Fail(r.error)
  {
    ghost var step := NameReader(br.data);
    ghost var whole := Repeat(step, br.pos, count);
    var names: seq<seq<int>> := [];
    PrependEmpty(whole);
    for i := 0 to count
      invariant br.Valid()
      invariant whole == Prepend(names, Repeat(step, br.pos, count - i))
    {
      ghost var p := br.pos;
      var name := ReadAscii(br);
      if name.Fail? {
        RepeatFail(step, p, count - i, names, name.error);
        return Fail(name.error);
      }
      var skip := SkipZeros(br);
      if skip.Fail? {
        RepeatFail(step, p, count - i, names, skip.error);
        return Fail(skip.error);
      }
      assert step(p) == Ok((name.value, br.pos));
      RepeatOk(step, p, count - i, names, name.value, br.pos);
      names := names + [name.value];
    }
    assert names + [] == names;
    return Ok(names);
  }

  /** The normal data loop: seek to `dataOffset + dataStart`, read
      `dataEnd - dataStart` bytes. */
  method ReadNodeData(br: BinaryReaderX.Reader, dataOffset: int, entries: seq<SfatNode>, count: nat)
    returns (r: Result<seq<seq<byte>>>)
    requires br.Valid() && count <= |entries|
    modifies br`pos
    ensures r == NodeDatas(br.data, dataOffset, entries, count)
  {
    var datas: seq<seq<byte>> := [];
    for i := 0 to count
      invariant br.Valid()
      invariant NodeDatas(br.data, dataOffset, entries, i) == Ok(datas)
    {
      var moved := br.Seek(ToUInt32(dataOffset + entries[i].dataStart));
      var bytes := br.ReadBytes(Int32(ToUInt32(entries[i].dataEnd - entries[i].dataStart)));
      if bytes.Fail? {
        NodeDatasFail(br.data, dataOffset, entries, i + 1, count);
        return Fail(bytes.error);
      }
      datas := datas + [bytes.value];
    }
    return Ok(datas);
  }

  /** The simpler data loop: seek to `dataStart`, read `dataLength` bytes. */
  method ReadSimplerData(br: BinaryReaderX.Reader, entries: seq<SimplerNode>, count: nat)
    returns (r: Result<seq<seq<byte>>>)
    requires br.Valid() && count <= |entries|
    modifies br`pos
    ensures r == SimplerDatas(br.data, entries, count)
  {
    var datas: seq<seq<byte>> := [];
    for i := 0 to count
      invariant br.Valid()
      invariant SimplerDatas(br.data, entries, i) == Ok(datas)
    {
      var moved := br.Seek(entries[i].dataStart);
      var bytes := br.ReadBytes(Int32(entries[i].dataLength));
      if bytes.Fail? {
        SimplerDatasFail(br.data, entries, i + 1, count);
        return Fail(bytes.error);
      }
      datas := datas + [bytes.value];
    }
    return Ok(datas);
  }
}
