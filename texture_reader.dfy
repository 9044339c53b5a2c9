/** The loop of `Common.GetColorsFromTexture` over a `BinaryReaderX`: one
    colour per turn, read with the reader's own methods in the order the
    source reads them, proved equal to the decoder `ImageCommon.Decode`. */
module TextureReader {
  import opened Primitives
  import opened Etc1
  import opened BinaryReaderX
  import opened ImageCommon

  /** Nibble values `vs` put in front of the values of a run of reads. */
  function Prefixed(vs: seq<int>, r: Result<(seq<int>, int, int)>): Result<(seq<int>, int, int)>
  {
    match r
    case Fail(e) => Fail(e)
    case Ok((ws, p, nb)) => Ok((vs + ws, p, nb))
  }

  /** A run of nibble reads is its first read followed by the rest. */
  lemma RunStep(data: seq<byte>, p: nat, nb: int, n: nat, v: int, p1: nat, nb1: int)
    requires n > 0 && NibbleStep(data, p, nb) == Ok((v, p1, nb1))
    ensures NibbleRun(data, p, nb, n) == Prefixed([v], NibbleRun(data, p1, nb1, n - 1))
  {
  }

  /** A run of nibble reads fails as soon as its first read does. */
  lemma RunStops(data: seq<byte>, p: nat, nb: int, n: nat)
    requires n > 0 && NibbleStep(data, p, nb).Fail?
    ensures NibbleRun(data, p, nb, n) == Fail(NibbleStep(data, p, nb).error)
  {
  }

  /** Prefixing twice is prefixing with the concatenation. */
  lemma PrefixedTwice(vs: seq<int>, ws: seq<int>, r: Result<(seq<int>, int, int)>)
    ensures Prefixed(vs, Prefixed(ws, r)) == Prefixed(vs + ws, r)
  {
    match r
    case Fail(_) =>
    case Ok((us, p, nb)) => assert vs + (ws + us) == (vs + ws) + us;
  }

  /** One `ReadNibble` call as the first of a run of `n` reads. */
  method NextNibble(br: Reader, ghost n: nat) returns (r: Result<int>)
    requires br.Valid() && n > 0
    modifies br`pos, br`nibbles
    ensures br.Valid()
    ensures r.Ok? <==> NibbleStep(br.data, old(br.pos), old(br.nibbles)).Ok?
    ensures r.Ok? ==> NibbleStep(br.data, old(br.pos), old(br.nibbles)).value == (r.value, br.pos, br.nibbles)
    ensures r.Ok? ==> 0 <= r.value < 16
    ensures r.Ok? ==> (NibbleRun(br.data, old(br.pos), old(br.nibbles), n)
      == Prefixed([r.value], NibbleRun(br.data, br.pos, br.nibbles, n - 1)))
    ensures r.Fail? ==> NibbleRun(br.data, old(br.pos), old(br.nibbles), n) == Fail(r.error)
  {
    ghost var p0, nb0 := br.pos, br.nibbles;
    r := br.ReadNibble();
    if r.Ok? {
      RunStep(br.data, p0, nb0, n, r.value, br.pos, br.nibbles);
    } else {
      RunStops(br.data, p0, nb0, n);
    }
  }

  /** One colour of a nibble format: `ReadNibble() * 17` per channel the
      format stores, the others 255.  The first two reads take one byte
      and its pending nibble, in either order, and the position is within
      the data, so they cannot fail. */
  method ReadNibbleColor(br: Reader, fmt: Format, ghost queue: seq<Color>) returns (r: Result<Color>)
    requires br.Valid() && br.pos < |br.data| && NibbleCount(fmt) > 0
    modifies br`pos, br`nibbles
    ensures br.Valid()
    ensures NibbleColor(fmt, br.data, Cursor(old(br.pos), old(br.nibbles), queue))
      == if r.Ok? then Ok((r.value, Cursor(br.pos, br.nibbles, queue))) else Fail(r.error)
  {
    if fmt == RGBA4444 {
      r := ReadRgba4444(br, queue);
      return;
    }
    ghost var data, p0, nb0 := br.data, br.pos, br.nibbles;
    ghost var n := NibbleCount(fmt);
    NibbleRunAdvances(data, p0, nb0, n);
    var v0 := NextNibble(br, n);
    var a := v0.value;
    if fmt == L4 {
      return Ok(Color(255, Expand4(a), Expand4(a), Expand4(a)));
    } else if fmt == A4 {
      return Ok(Color(Expand4(a), 255, 255, 255));
    }
    var v1 := NextNibble(br, 1);
    var b := v1.value;
    assert [a] + [b] == [a, b];
    return Ok(Color(Expand4(a), Expand4(b), Expand4(b), Expand4(b)));
  }

  /** `RGBA4444`: alpha, blue, green and red nibbles, in that order. */
  method ReadRgba4444(br: Reader, ghost queue: seq<Color>) returns (r: Result<Color>)
    requires br.Valid() && br.pos < |br.data|
    modifies br`pos, br`nibbles
    ensures br.Valid()
    ensures NibbleColor(RGBA4444, br.data, Cursor(old(br.pos), old(br.nibbles), queue))
      == if r.Ok? then Ok((r.value, Cursor(br.pos, br.nibbles, queue))) else Fail(r.error)
  {
    ghost var data, p0, nb0 := br.data, br.pos, br.nibbles;
    NibbleRunAdvances(data, p0, nb0, 4);
    var v0 := NextNibble(br, 4);
    var a := v0.value;
    var v1 := NextNibble(br, 3);
    var b := v1.value;
    PrefixedTwice([a], [b], NibbleRun(data, br.pos, br.nibbles, 2));
    var v2 := NextNibble(br, 2);
    if v2.Fail? {
      return Fail(v2.error);
    }
    var g := v2.value;
    PrefixedTwice([a, b], [g], NibbleRun(data, br.pos, br.nibbles, 1));
    var v3 := NextNibble(br, 1);
    if v3.Fail? {
      return Fail(v3.error);
    }
    var red := v3.value;
    PrefixedTwice([a, b, g], [red], NibbleRun(data, br.pos, br.nibbles, 0));
    assert [a, b, g] + [red] + [] == [a, b, g, red];
    return Ok(Color(Expand4(a), Expand4(red), Expand4(g), Expand4(b)));
  }

  /** One colour of a byte-aligned format, read field by field as the
      source reads it: `ReadByte` per 8-bit channel, `ReadUInt16` for the
      16-bit formats.  The first read cannot fail, the position being
      within the data. */
  method ReadByteColor(br: Reader, fmt: Format, ghost queue: seq<Color>) returns (r: Result<Color>)
    requires br.Valid() && br.pos < |br.data| && Width(fmt) > 0 && NibbleCount(fmt) == 0
    modifies br`pos
    ensures br.Valid()
    ensures ByteColor(fmt, br.data, Cursor(old(br.pos), br.nibbles, queue))
      == if r.Ok? then Ok((r.value, Cursor(br.pos, br.nibbles, queue))) else Fail(r.error)
  {
    match fmt
    case L8 =>
      var l := br.ReadByte();
      return Ok(Color(255, l.value, l.value, l.value));
    case A8 =>
      var a := br.ReadByte();
      return Ok(Color(a.value, 255, 255, 255));
    case LA88 =>
      var a := br.ReadByte();
      var l :- br.ReadByte();
      return Ok(Color(a.value, l, l, l));
    case HL88 =>
      var g := br.ReadByte();
      var red :- br.ReadByte();
      return Ok(Color(255, red, g.value, 255));
    case RGB565 =>
      var s :- br.ReadUInt16();
      return Ok(Rgb565(s));
    case RGB888 =>
      var b := br.ReadByte();
      var g :- br.ReadByte();
      var red :- br.ReadByte();
      return Ok(Color(255, red, g, b.value));
    case RGBA5551 =>
      var s :- br.ReadUInt16();
      return Ok(Rgba5551(s));
    case RGBA8888 =>
      var a := br.ReadByte();
      var b :- br.ReadByte();
      var g :- br.ReadByte();
      var red :- br.ReadByte();
      return Ok(Color(a.value, red, g, b));
  }

  /** A colour of `ETC1` (`a4` false) or `ETC1A4` (`a4` true): with an
      empty queue, read the alpha word (`ReadUInt64` for `ETC1A4`,
      `ulong.MaxValue` otherwise) and `ReadBytes(8)`, and queue the colours
      unpacked from them; then `Dequeue`, which throws on an empty queue. */
  method ReadEtcColor(br: Reader, a4: bool, queue: seq<Color>, unpack: Unpacker) returns (r: Result<(Color, seq<Color>)>)
    requires br.Valid() && br.pos < |br.data|
    modifies br`pos
    ensures br.Valid()
    ensures EtcColor(a4, br.data, unpack, Cursor(old(br.pos), br.nibbles, queue))
      == if r.Ok? then Ok((r.value.0, Cursor(br.pos, br.nibbles, r.value.1))) else Fail(r.error)
  {
    var colors := queue;
    if colors == [] {
      var alpha: nat := Opaque;
      if a4 {
        var word :- br.ReadUInt64();
        alpha := word;
      }
      var bytes := br.ReadBytes(8);
      colors := unpack(bytes.value, alpha);
    }
    if colors == [] {
      return Fail(InvalidOperation);
    }
    return Ok((colors[0], colors[1..]));
  }

  /** One turn of the `GetColorsFromTexture` loop, the position not being
      at the end: the colour yielded and the ETC1 queue after it, or the
      exception thrown; an unknown format throws `NotSupportedException`. */
  method ReadColor(br: Reader, fmt: Format, queue: seq<Color>, unpack: Unpacker) returns (r: Result<(Color, seq<Color>)>)
    requires br.Valid() && br.pos < |br.data|
    modifies br`pos, br`nibbles
    ensures br.Valid()
    ensures NextColor(fmt, br.data, unpack, Cursor(old(br.pos), old(br.nibbles), queue))
      == if r.Ok? then Ok((r.value.0, Cursor(br.pos, br.nibbles, r.value.1))) else Fail(r.error)
  {
    ghost var c := Cursor(br.pos, br.nibbles, queue);
    if fmt == ETC1 || fmt == ETC1A4 {
      EtcDispatch(fmt == ETC1A4, br.data, unpack, c);
      r := ReadEtcColor(br, fmt == ETC1A4, queue, unpack);
    } else if fmt.Undefined? {
      r := Fail(NotSupported);
    } else if NibbleCount(fmt) > 0 {
      NibbleDispatch(fmt, br.data, unpack, c);
      var color :- ReadNibbleColor(br, fmt, queue);
      r := Ok((color, queue));
    } else {
      ByteDispatch(fmt, br.data, unpack, c);
      var color :- ReadByteColor(br, fmt, queue);
      r := Ok((color, queue));
    }
  }

  /** The colours already yielded followed by the rest of a decoding. */
  function Continued(colors: seq<Color>, rest: (seq<Color>, Option<Error>)): (seq<Color>, Option<Error>)
  {
    (colors + rest.0, rest.1)
  }

  /** Yielding one more colour moves it from the rest to the prefix. */
  lemma ContinuedCons(colors: seq<Color>, x: Color, rest: (seq<Color>, Option<Error>))
    ensures Continued(colors, ([x] + rest.0, rest.1)) == Continued(colors + [x], rest)
  {
    assert colors + ([x] + rest.0) == (colors + [x]) + rest.0;
  }

  /** Nothing yielded yet: the rest is the whole decoding. */
  lemma ContinuedStart(rest: (seq<Color>, Option<Error>))
    ensures Continued([], rest) == rest
  {
    assert [] + rest.0 == rest.0;
  }

  /** A rest with no colours adds only its exception. */
  lemma ContinuedEnd(colors: seq<Color>, failure: Option<Error>)
    ensures Continued(colors, ([], failure)) == (colors, failure)
  {
    assert colors + [] == colors;
  }

  /** `GetColorsFromTexture(tex, format)`: the colours yielded until the
      position reaches the end of `tex`, and the exception that ends the
      enumeration early, if any. */
  method GetColorsFromTexture(tex: seq<byte>, fmt: Format, unpack: Unpacker) returns (colors: seq<Color>, failure: Option<Error>)
    ensures (colors, failure) == Decode(fmt, tex, unpack, Start)
  {
    var br := new Reader(tex);
    var etc1colors: seq<Color> := [];
    colors := [];
    ContinuedStart(Decode(fmt, tex, unpack, Start));
    while br.pos != |tex|
      invariant br.Valid() && br.data == tex && br.pos <= |tex|
      invariant Decode(fmt, tex, unpack, Start)
        == Continued(colors, Decode(fmt, tex, unpack, Cursor(br.pos, br.nibbles, etc1colors)))
      decreases |tex| - br.pos, if br.nibbles == -1 then 0 else 1, |etc1colors|
    {
      ghost var c := Cursor(br.pos, br.nibbles, etc1colors);
      var r := ReadColor(br, fmt, etc1colors, unpack);
      if r.Fail? {
        ContinuedEnd(colors, Some(r.error));
        return colors, Some(r.error);
      }
      DecodeStep(fmt, tex, unpack, c, r.value.0, Cursor(br.pos, br.nibbles, r.value.1));
      ContinuedCons(colors, r.value.0, Decode(fmt, tex, unpack, Cursor(br.pos, br.nibbles, r.value.1)));
      colors := colors + [r.value.0];
      etc1colors := r.value.1;
    }
    ContinuedEnd(colors, None);
    return colors, None;
  }
}
