/** `Cetera.DARC`: a DARC archive lists its folders and files in one flat
    table.  A folder entry covers the entries from itself up to (not
    including) the index in its `size` field; the constructor gives every
    covered entry the folder's name and a `/`, gives every file its own
    name and its bytes, and finally drops the items whose path ends in `/`.
    Names are UTF-16 code units (`Encoding.Unicode`), read as C strings. */
module Darc {
  import opened Primitives
  import BinaryReaderX

  /** `/` as a UTF-16 code unit. */
  const Slash: int := 0x2F

  /** `Marshal.SizeOf<Header>()` and `Marshal.SizeOf<TableEntry>()`. */
  const HeaderSize: nat := 28
  const EntrySize: nat := 12

  /** `TableEntry`: the raw name-offset word, the file offset and the size
      (a file's length, a folder's end index). */
  datatype TableEntry = TableEntry(raw: int, fileOffset: int, size: int)
  {
    /** `(filenameOffset >> 24) == 1`, an arithmetic shift of the signed word. */
    predicate IsFolder()
    {
      raw / 0x100_0000 == 1
    }

    /** `filenameOffset & 0xFFFFFF`. */
    function FilenameOffset(): nat
    {
      raw % 0x100_0000
    }
  }

  /** The entry word is a folder flag in the top byte over a 24-bit name
      offset: a word built from flag and offset gives both back, and only
      the words from 0x1000000 to 0x1FFFFFF are folders. */
  lemma EntryWord(flag: int, offset: nat, fileOffset: int, size: int)
    requires -0x80 <= flag < 0x80 && offset < 0x100_0000
    ensures TableEntry(flag * 0x100_0000 + offset, fileOffset, size).IsFolder() <==> flag == 1
    ensures TableEntry(flag * 0x100_0000 + offset, fileOffset, size).FilenameOffset() == offset
  {
    var raw := flag * 0x100_0000 + offset;
    assert raw / 0x100_0000 == flag && raw % 0x100_0000 == offset by {
      Quotient(raw, 0x100_0000, flag);
    }
  }

  /** Only the words from 0x1000000 to 0x1FFFFFF are folders. */
  lemma FolderWords(e: TableEntry)
    ensures e.IsFolder() <==> 0x100_0000 <= e.raw < 0x200_0000
  {
  }

  /** `ReadStruct<TableEntry>()` at `p`: three little-endian `int`s.  At
      the end of the stream the read throws NullReferenceException; a
      partial entry is read past its buffer. */
  function EntryAt(data: seq<byte>, p: nat): (r: Result<(TableEntry, nat)>)
    ensures r.Ok? <==> p + EntrySize <= |data|
    ensures r.Ok? ==> r.value.1 == p + EntrySize
    ensures p >= |data| ==> r == Fail(NullReference)
    ensures p < |data| < p + EntrySize ==> r == Fail(Undefined)
  {
    if p + EntrySize <= |data| then Ok((TableEntry(I32At(data, p), I32At(data, p + 4), I32At(data, p + 8)), p + EntrySize))
    else Fail(BinaryReaderX.StructFault(data, p))
  }

  function EntryReader(data: seq<byte>): nat -> Result<(TableEntry, nat)>
  {
    (p: nat) => EntryAt(data, p)
  }

  /** `lst[0].size - 1` in 32-bit arithmetic: the entries read after the root. */
  function MoreEntries(root: TableEntry): nat
  {
    var more := Int32(root.size - 1);
    if more > 0 then more else 0
  }

  /** The table after the header: the root entry, then `lst[0].size - 1`
      more; and the position after it, `basePos`, where the names start. */
  function Table(data: seq<byte>): (r: Result<(seq<TableEntry>, nat)>)
    ensures |data| == 0 || |data| == HeaderSize ==> r == Fail(NullReference)
    ensures 0 < |data| < HeaderSize || HeaderSize < |data| < HeaderSize + EntrySize ==> r == Fail(Undefined)
  {
    if |data| < HeaderSize then Fail(BinaryReaderX.StructFault(data, 0))
    else
      var first :- EntryAt(data, HeaderSize);
      var rest :- Repeat(EntryReader(data), first.1, MoreEntries(first.0));
      Ok(([first.0] + rest.0, rest.1))
  }

  /** The entry count is the root's `size` field (a root whose size is
      below 2 still gives one entry), and the names start right after the
      table. */
  lemma TableCount(data: seq<byte>)
    requires Table(data).Ok?
    ensures var (entries, base) := Table(data).value;
      && |entries| >= 1
      && (-0x7FFF_FFFF <= entries[0].size ==> |entries| == if entries[0].size >= 1 then entries[0].size else 1)
      && base == HeaderSize + EntrySize * |entries|
      && EntryAt(data, HeaderSize).Ok? && EntryAt(data, HeaderSize).value.0 == entries[0]
  {
    var first := EntryAt(data, HeaderSize).value;
    var n := MoreEntries(first.0);
    RepeatAdvances(data, first.1, n);
    if -0x7FFF_FFFF <= first.0.size && first.0.size <= 0x8000_0000 {
      assert Int32(first.0.size - 1) == first.0.size - 1;
    }
  }

  /** `count` entries from `p` end `12 * count` bytes further on. */
  lemma {:induction false} RepeatAdvances(data: seq<byte>, p: nat, count: nat)
    requires Repeat(EntryReader(data), p, count).Ok?
    ensures Repeat(EntryReader(data), p, count).value.1 == p + EntrySize * count
    decreases count
  {
    if count > 0 {
      RepeatAdvances(data, p + EntrySize, count - 1);
    }
  }

  /** The name and the data an entry resolves to; `None` for a folder,
      whose `Data` stays null. */
  datatype Info = Info(name: seq<int>, content: Option<seq<byte>>)

  /** One turn of the main loop for entry `e` of `count`: the name is the
      C string at `basePos + FilenameOffset`; a folder whose end index is
      past the list throws on `this[count]`; a file seeks to `fileOffset`
      (a negative position throws) and reads `size` bytes (a negative
      count throws). */
  function EntryInfo(data: seq<byte>, base: nat, e: TableEntry, count: nat): (r: Result<Info>)
    ensures r.Ok? ==> (r.value.content.None? <==> e.IsFolder())
    ensures e.IsFolder() && e.size > count ==> r.Fail?
    ensures !e.IsFolder() && (e.fileOffset < 0 || e.size < 0) ==> r.Fail?
    ensures r.Ok? && !e.IsFolder() ==> r.value.content == Some(BinaryReaderX.Take(data, e.fileOffset, e.size))
  {
    var name :- BinaryReaderX.CString(data, base + e.FilenameOffset(), 2, 0);
    if e.IsFolder() then
      if e.size > count then Fail(ArgumentOutOfRange) else Ok(Info(name.0, None))
    else if e.fileOffset < 0 || e.size < 0 then Fail(ArgumentOutOfRange)
    else Ok(Info(name.0, Some(BinaryReaderX.Take(data, e.fileOffset, e.size))))
  }

  /** The first `n` turns of the main loop, or the first exception. */
  function Infos(data: seq<byte>, base: nat, entries: seq<TableEntry>, n: nat): (r: Result<seq<Info>>)
    requires n <= |entries|
    ensures r.Ok? ==> |r.value| == n
  {
    if n == 0 then Ok([])
    else
      var prev :- Infos(data, base, entries, n - 1);
      var info :- EntryInfo(data, base, entries[n - 1], |entries|);
      Ok(prev + [info])
  }

  /** What entry `k` appends to the path of item `j`: a folder its name and
      `/` to every item from `k` up to its end index, a file its name to
      itself. */
  function Contribution(entries: seq<TableEntry>, infos: seq<Info>, k: nat, j: nat): seq<int>
    requires k < |entries| && k < |infos|
  {
    if entries[k].IsFolder() then
      if k <= j < entries[k].size then infos[k].name + [Slash] else []
    else if k == j then infos[k].name
    else []
  }

  /** The path of item `j` once the first `n` entries are processed. */
  function PathAfter(entries: seq<TableEntry>, infos: seq<Info>, j: nat, n: nat): seq<int>
    requires n <= |entries| && n <= |infos|
  {
    if n == 0 then [] else PathAfter(entries, infos, j, n - 1) + Contribution(entries, infos, n - 1, j)
  }

  /** The item list of a DARC archive. */
  datatype Item = Item(path: seq<int>, data: Option<seq<byte>>, entry: TableEntry)

  /** `item.Path.Last() == '/'`. */
  predicate Dropped(item: Item)
    requires item.path != []
  {
    item.path[|item.path| - 1] == Slash
  }

  /** `RemoveAll`'s survivors, in order. */
  function Kept(items: seq<Item>): seq<Item>
    requires forall j :: 0 <= j < |items| ==> items[j].path != []
  {
    if items == [] then []
    else
      var last := items[|items| - 1];
      var front := items[..|items| - 1];
      assert items == front + [last];
      Kept(front) + (if Dropped(last) then [] else [last])
  }

  /** The survivors are exactly the items whose path does not end in `/`. */
  lemma {:induction false} KeptMembers(items: seq<Item>, x: Item)
    requires forall j :: 0 <= j < |items| ==> items[j].path != []
    ensures x in Kept(items) <==> x in items && !Dropped(x)
  {
    if items != [] {
      var front := items[..|items| - 1];
      assert items == front + [items[|items| - 1]];
      KeptMembers(front, x);
    }
  }

  /** The items once the first `n` entries are processed: each has the
      path those entries give it, and the processed files their data. */
  function ItemsAfter(entries: seq<TableEntry>, infos: seq<Info>, n: nat): (r: seq<Item>)
    requires n <= |entries| && n <= |infos|
    ensures |r| == |entries|
  {
    seq(|entries|, j requires 0 <= j < |entries| =>
      Item(PathAfter(entries, infos, j, n), if j < n then infos[j].content else None, entries[j]))
  }

  /** The items after all entries are processed, before `RemoveAll`. */
  function AllItems(entries: seq<TableEntry>, infos: seq<Info>): (r: seq<Item>)
    requires |infos| == |entries|
    ensures |r| == |entries|
  {
    ItemsAfter(entries, infos, |entries|)
  }

  /** The items once every entry of the table is processed, names
      starting at `base`; the first exception otherwise. */
  function Resolve(data: seq<byte>, entries: seq<TableEntry>, base: nat): (r: Result<seq<Item>>)
    ensures r.Ok? ==> |r.value| == |entries|
  {
    var infos :- Infos(data, base, entries, |entries|);
    Ok(AllItems(entries, infos))
  }

  /** The items of the archive before `RemoveAll`. */
  function Resolved(data: seq<byte>): Result<seq<Item>>
  {
    var table :- Table(data);
    Resolve(data, table.0, table.1)
  }

  /** `new DARC(input)`: the resolved items, then `RemoveAll`. */
  function Archive(data: seq<byte>): (r: Result<seq<Item>>)
    ensures |data| == 0 ==> r == Fail(NullReference)
    ensures 0 < |data| < HeaderSize ==> r == Fail(Undefined)
  {
    var all :- Resolved(data);
    RemoveAll(all)
  }

  /** `RemoveAll(item => item.Path.Last() == '/')`, where `Last()` on an
      empty path throws. */
  function RemoveAll(items: seq<Item>): (r: Result<seq<Item>>)
    ensures r.Ok? <==> forall j :: 0 <= j < |items| ==> items[j].path != []
    ensures r.Fail? ==> r.error == InvalidOperation
  {
    if exists j :: 0 <= j < |items| && items[j].path == [] then Fail(InvalidOperation)
    else Ok(Kept(items))
  }

  // ---------------------------------------------------------------------
  // The constructor

  /** `new DARC(input)` on the whole stream. */
  method Open(data: seq<byte>) returns (r: Result<seq<Item>>)
    ensures r == Archive(data)
  {
    var table := ReadTable(data);
    if table.Fail? {
      return Fail(table.error);
    }
    var all := ResolveItems(data, table.value.0, table.value.1);
    if all.Fail? {
      return Fail(all.error);
    }
    r := RemoveFolders(all.value);
  }

  /** The header and the entry list: the root entry, then `lst[0].size - 1`
      more, one struct read each. */
  method ReadTable(data: seq<byte>) returns (r: Result<(seq<TableEntry>, nat)>)
    ensures r == Table(data)
  {
    if |data| < HeaderSize {
      return Fail(BinaryReaderX.StructFault(data, 0));
    }
    var first :- EntryAt(data, HeaderSize);
    var p := first.1;
    var lst := [first.0];
    ghost var step := EntryReader(data);
    var count := MoreEntries(first.0);
    ghost var whole := Repeat(step, p, count);
    var rest: seq<TableEntry> := [];
    PrependEmpty(whole);
    var i := 0;
    while i < count
      invariant 0 <= i <= count
      invariant whole == Prepend(rest, Repeat(step, p, count - i))
    {
      var e := EntryAt(data, p);
      if e.Fail? {
        RepeatFail(step, p, count - i, rest, e.error);
        return Fail(e.error);
      }
      RepeatOk(step, p, count - i, rest, e.value.0, e.value.1);
      rest := rest + [e.value.0];
      p := e.value.1;
      i := i + 1;
    }
    assert rest + [] == rest;
    return Ok((lst + rest, p));
  }

  /** Only the first `n` infos matter to a path after `n` entries. */
  lemma {:induction false} PathAfterPrefix(entries: seq<TableEntry>, infos: seq<Info>, more: seq<Info>, j: nat, n: nat)
    requires n <= |entries| && n <= |infos|
    ensures PathAfter(entries, infos + more, j, n) == PathAfter(entries, infos, j, n)
    decreases n
  {
    if n > 0 {
      PathAfterPrefix(entries, infos, more, j, n - 1);
      assert (infos + more)[n - 1] == infos[n - 1];
    }
  }

  /** Once a turn has thrown, the rest of the loop does not run. */
  lemma {:induction false} InfosFailureStays(data: seq<byte>, base: nat, entries: seq<TableEntry>, i: nat, n: nat)
    requires i <= n <= |entries| && Infos(data, base, entries, i).Fail?
    ensures Infos(data, base, entries, n) == Infos(data, base, entries, i)
    decreases n
  {
    if n > i {
      InfosFailureStays(data, base, entries, i, n - 1);
    }
  }

  /** The main loop: for each entry, read its name, then append the folder
      name and `/` to the covered items, or the file name to the file's own
      item and read its data. */
  method ResolveItems(data: seq<byte>, entries: seq<TableEntry>, base: nat) returns (r: Result<seq<Item>>)
    ensures r == Resolve(data, entries, base)
  {
    var n := |entries|;
    var items := seq(n, j requires 0 <= j < n => Item([], None, entries[j]));
    ghost var infos: seq<Info> := [];
    var i := 0;
    while i < n
      invariant 0 <= i <= n
      invariant Infos(data, base, entries, i) == Ok(infos)
      invariant items == ItemsAfter(entries, infos, i)
    {
      var next;
      ghost var info;
      next, info := Turn(data, entries, base, items, infos, i);
      if next.Fail? {
        InfosFailureStays(data, base, entries, i + 1, n);
        return Fail(next.error);
      }
      items := next.value;
      infos := infos + [info];
      i := i + 1;
    }
    return Ok(items);
  }

  /** Turn `i` of the main loop: read the entry's name, then append the
      folder name and `/` to the covered items, or the file name to the
      file's own item and read its data. */
  method Turn(data: seq<byte>, entries: seq<TableEntry>, base: nat, items: seq<Item>, ghost infos: seq<Info>, i: nat)
    returns (r: Result<seq<Item>>, ghost info: Info)
    requires i < |entries| && Infos(data, base, entries, i) == Ok(infos) && items == ItemsAfter(entries, infos, i)
    ensures r.Fail? ==> Infos(data, base, entries, i + 1) == Fail(r.error)
    ensures r.Ok? ==> Infos(data, base, entries, i + 1) == Ok(infos + [info])
                      && r.value == ItemsAfter(entries, infos + [info], i + 1)
  {
    info := Info([], None);
    var e := entries[i];
    var name := BinaryReaderX.CString(data, base + e.FilenameOffset(), 2, 0);
    if name.Fail? {
      return Fail(name.error), info;
    }
    if e.IsFolder() {
      r := AddFolder(items, i, e.size, name.value.0 + [Slash]);
      if r.Ok? {
        info := Info(name.value.0, None);
        AfterTurn(items, r.value, entries, infos, info, i);
      }
    } else {
      r := AddFile(items, i, e, name.value.0, data);
      if r.Ok? {
        info := Info(name.value.0, Some(BinaryReaderX.Take(data, e.fileOffset, e.size)));
        AfterTurn(items, r.value, entries, infos, info, i);
      }
    }
  }

  /** `items` with `arcPath` appended to the paths of items `i` up to (not
      including) `end`. */
  function Appended(items: seq<Item>, i: nat, end: int, arcPath: seq<int>): (r: seq<Item>)
    ensures |r| == |items|
  {
    seq(|items|, j requires 0 <= j < |items| =>
      if i <= j < end then items[j].(path := items[j].path + arcPath) else items[j])
  }

  /** A folder's turn: `arcPath` is appended to items `i` up to its end
      index; an end index past the list throws once the loop reaches it. */
  method AddFolder(items: seq<Item>, i: nat, size: int, arcPath: seq<int>) returns (r: Result<seq<Item>>)
    requires i < |items|
    ensures r.Ok? <==> size <= |items|
    ensures r.Fail? ==> r.error == ArgumentOutOfRange
    ensures r.Ok? ==> r.value == Appended(items, i, size, arcPath)
  {
    var out := items;
    var k := i;
    while k < size
      invariant i <= k && (k == i || k <= size) && k <= |items| && |out| == |items|
      invariant forall j :: 0 <= j < |items| ==>
        out[j] == if i <= j < k then items[j].(path := items[j].path + arcPath) else items[j]
    {
      if k >= |items| {
        return Fail(ArgumentOutOfRange);
      }
      out := out[k := out[k].(path := out[k].path + arcPath)];
      k := k + 1;
    }
    assert out == Appended(items, i, size, arcPath);
    return Ok(out);
  }

  /** A file's turn: its name is appended to its own item, then the stream
      seeks to `fileOffset` and `size` bytes become its data. */
  method AddFile(items: seq<Item>, i: nat, e: TableEntry, name: seq<int>, data: seq<byte>) returns (r: Result<seq<Item>>)
    requires i < |items|
    ensures r.Ok? <==> e.fileOffset >= 0 && e.size >= 0
    ensures r.Fail? ==> r.error == ArgumentOutOfRange
    ensures r.Ok? ==> r.value == items[i := items[i].(path := items[i].path + name,
                                                     data := Some(BinaryReaderX.Take(data, e.fileOffset, e.size)))]
  {
    var out := items[i := items[i].(path := items[i].path + name)];
    if e.fileOffset < 0 || e.size < 0 {
      return Fail(ArgumentOutOfRange);
    }
    var bytes := BinaryReaderX.Take(data, e.fileOffset, e.size);
    return Ok(out[i := out[i].(data := Some(bytes))]);
  }

  /** A turn that succeeded extends the matching by one entry. */
  lemma AfterTurn(items: seq<Item>, next: seq<Item>, entries: seq<TableEntry>, infos: seq<Info>, info: Info, i: nat)
    requires i < |entries| && |infos| == i && items == ItemsAfter(entries, infos, i)
    requires entries[i].IsFolder() ==> info.content == None && next == Appended(items, i, entries[i].size, info.name + [Slash])
    requires !entries[i].IsFolder() ==> next == items[i := items[i].(path := items[i].path + info.name, data := info.content)]
    ensures next == ItemsAfter(entries, infos + [info], i + 1)
  {
    var infos' := infos + [info];
    forall j | 0 <= j < |next|
      ensures next[j] == Item(PathAfter(entries, infos', j, i + 1), if j < i + 1 then infos'[j].content else None, entries[j])
    {
      PathAfterPrefix(entries, infos, [info], j, i);
      if j < i {
        assert infos'[j] == infos[j];
      }
    }
  }

  /** `RemoveAll(item => item.Path.Last() == '/')`. */
  method RemoveFolders(items: seq<Item>) returns (r: Result<seq<Item>>)
    ensures r == RemoveAll(items)
  {
    var kept: seq<Item> := [];
    var k := 0;
    while k < |items|
      invariant 0 <= k <= |items|
      invariant forall j :: 0 <= j < k ==> items[j].path != []
      invariant kept == Kept(items[..k])
    {
      if items[k].path == [] {
        return Fail(InvalidOperation);
      }
      assert items[..k + 1][..k] == items[..k];
      if !Dropped(items[k]) {
        kept := kept + [items[k]];
      }
      k := k + 1;
    }
    assert items[..k] == items;
    return Ok(kept);
  }

  // ---------------------------------------------------------------------
  // What the archive holds

  /** The survivors are the resolved items whose path does not end in `/`. */
  lemma NoFolderSurvives(data: seq<byte>)
    requires Archive(data).Ok?
    ensures Resolved(data).Ok?
    ensures forall x :: x in Archive(data).value <==>
      x in Resolved(data).value && x.path != [] && x.path[|x.path| - 1] != Slash
  {
    forall x {
      KeptMembers(Resolved(data).value, x);
    }
  }

  /** A file entry's item carries the `size` bytes at its `fileOffset`, and
      its path ends with its own name. */
  lemma FileItem(entries: seq<TableEntry>, infos: seq<Info>, data: seq<byte>, base: nat, i: nat)
    requires Infos(data, base, entries, |entries|) == Ok(infos) && i < |entries| && !entries[i].IsFolder()
    ensures entries[i].fileOffset >= 0 && entries[i].size >= 0
    ensures AllItems(entries, infos)[i].data == Some(BinaryReaderX.Take(data, entries[i].fileOffset, entries[i].size))
    ensures AllItems(entries, infos)[i].path == PathAfter(entries, infos, i, i) + infos[i].name
  {
    InfosAt(data, base, entries, |entries|, i);
    var n := |entries|;
    LaterFilesSilent(entries, infos, i, n);
  }

  /** Entry `i` of the infos is its own turn's result. */
  lemma {:induction false} InfosAt(data: seq<byte>, base: nat, entries: seq<TableEntry>, n: nat, i: nat)
    requires n <= |entries| && Infos(data, base, entries, n).Ok? && i < n
    ensures EntryInfo(data, base, entries[i], |entries|) == Ok(Infos(data, base, entries, n).value[i])
    decreases n
  {
    if i < n - 1 {
      InfosAt(data, base, entries, n - 1, i);
    }
  }

  /** A file's path after its own turn ends with its name, and entries
      after it add nothing to it. */
  lemma {:induction false} LaterFilesSilent(entries: seq<TableEntry>, infos: seq<Info>, i: nat, n: nat)
    requires |infos| == |entries| && i < n <= |entries| && !entries[i].IsFolder()
    ensures PathAfter(entries, infos, i, n) == PathAfter(entries, infos, i, i) + infos[i].name
    decreases n
  {
    if n > i + 1 {
      LaterFilesSilent(entries, infos, i, n - 1);
      assert Contribution(entries, infos, n - 1, i) == [];
    }
  }

  /** A folder entry that covers itself ends with its own name and `/`
      once its turn is over, so `RemoveAll` drops its item. */
  lemma {:induction false} FolderPath(entries: seq<TableEntry>, infos: seq<Info>, i: nat, n: nat)
    requires |infos| == |entries| && i < n <= |entries| && entries[i].IsFolder() && i < entries[i].size
    ensures PathAfter(entries, infos, i, n) == PathAfter(entries, infos, i, i) + infos[i].name + [Slash]
    decreases n
  {
    if n - 1 > i {
      FolderPath(entries, infos, i, n - 1);
      assert Contribution(entries, infos, n - 1, i) == [];
    }
  }

  /** In a well-nested table, a file's path is its innermost folder's path
      followed by its own name: folder `i` covers file `j`, no folder
      between them covers `j`, and every earlier folder covering `i` also
      covers `j`. */
  lemma ChildPath(entries: seq<TableEntry>, infos: seq<Info>, i: nat, j: nat)
    requires |infos| == |entries| && i < j < |entries|
    requires entries[i].IsFolder() && j < entries[i].size && !entries[j].IsFolder()
    requires forall k :: i < k < j && entries[k].IsFolder() ==> entries[k].size <= j
    requires forall k :: 0 <= k < i && entries[k].IsFolder() && i < entries[k].size ==> j < entries[k].size
    ensures PathAfter(entries, infos, j, |entries|) == PathAfter(entries, infos, i, |entries|) + infos[j].name
  {
    var n := |entries|;
    LaterFilesSilent(entries, infos, j, n);
    JoinsFolder(entries, infos, i, j, j);
    FolderPath(entries, infos, i, n);
  }

  /** After folder `i`'s turn and before its own, file `j` has the path the
      folder gives its own item. */
  lemma {:induction false} JoinsFolder(entries: seq<TableEntry>, infos: seq<Info>, i: nat, j: nat, n: nat)
    requires |infos| == |entries| && i < n <= j < |entries|
    requires entries[i].IsFolder() && j < entries[i].size
    requires forall k :: i < k < j && entries[k].IsFolder() ==> entries[k].size <= j
    requires forall k :: 0 <= k < i && entries[k].IsFolder() && i < entries[k].size ==> j < entries[k].size
    ensures PathAfter(entries, infos, j, n) == PathAfter(entries, infos, i, i) + infos[i].name + [Slash]
    decreases n
  {
    if n - 1 > i {
      JoinsFolder(entries, infos, i, j, n - 1);
      assert Contribution(entries, infos, n - 1, j) == [];
    } else {
      SamePrefix(entries, infos, i, j, i);
    }
  }

  /** Before folder `i`'s turn, the two items have the same path. */
  lemma {:induction false} SamePrefix(entries: seq<TableEntry>, infos: seq<Info>, i: nat, j: nat, n: nat)
    requires |infos| == |entries| && i < j < |entries| && n <= i
    requires forall k :: 0 <= k < i && entries[k].IsFolder() && i < entries[k].size ==> j < entries[k].size
    ensures PathAfter(entries, infos, j, n) == PathAfter(entries, infos, i, n)
    decreases n
  {
    if n > 0 {
      SamePrefix(entries, infos, i, j, n - 1);
    }
  }
}
