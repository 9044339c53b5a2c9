/** `Etc1.Optimizer.PackSolidColor`, the `inverseLookup` table it reads,
    the `MinBy` extension it selects with, and `Encode`, which falls back on
    a solid white block when `Check` finds no exact block. */
module Etc1Solid {
  import opened Primitives
  import opened Etc1
  import opened Etc1Optimizer
  import Etc1Check

  /** `int.MaxValue`, the starting minimum of `MinBy`. */
  const IntMax := 0x7FFF_FFFF

  // ---------------------------------------------------------------------
  // MinBy

  /** The index of the first item whose key is 0, or `|src|` when none is. */
  function FirstZero<T>(src: seq<T>, f: T -> int): (k: nat)
    ensures k <= |src|
    ensures k < |src| ==> f(src[k]) == 0
    ensures forall j :: 0 <= j < k ==> f(src[j]) != 0
  {
    if src == [] then 0 else if f(src[0]) == 0 then 0 else 1 + FirstZero(src[1..], f)
  }

  /** The index of the first item with the least key among the first `n`. */
  function LeastIndex<T>(src: seq<T>, f: T -> int, n: nat): (k: nat)
    requires 0 < n <= |src|
    ensures k < n
    ensures forall j :: 0 <= j < n ==> f(src[k]) <= f(src[j])
    ensures forall j :: 0 <= j < k ==> f(src[k]) < f(src[j])
  {
    if n == 1 then 0
    else
      var k := LeastIndex(src, f, n - 1);
      if f(src[n - 1]) < f(src[k]) then n - 1 else k
  }

  /** What `MinBy` returns: the first item whose key is 0 if there is one,
      otherwise the first item of least key provided that key is below
      `int.MaxValue`, and otherwise nothing (`default(T)`). */
  function MinByOf<T>(src: seq<T>, f: T -> int): (r: Option<T>)
  {
    var z := FirstZero(src, f);
    if z < |src| then Some(src[z])
    else if src == [] then None
    else
      var k := LeastIndex(src, f, |src|);
      if f(src[k]) < IntMax then Some(src[k]) else None
  }

  /** `MinBy`: one pass that returns early on a key of 0 and otherwise keeps
      the first item whose key is strictly below every earlier one. */
  method MinBy<T>(src: seq<T>, f: T -> int) returns (r: Option<T>)
    ensures r == MinByOf(src, f)
  {
    var minArg: Option<T> := None;
    var minValue := IntMax;
    for i := 0 to |src|
      invariant forall j :: 0 <= j < i ==> f(src[j]) != 0
      invariant i == 0 ==> minArg == None && minValue == IntMax
      invariant 0 < i ==>
        var k := LeastIndex(src, f, i);
        && (f(src[k]) < IntMax ==> minArg == Some(src[k]) && minValue == f(src[k]))
        && (f(src[k]) >= IntMax ==> minArg == None && minValue == IntMax)
    {
      var value := f(src[i]);
      if value == 0 {
        return Some(src[i]);
      }
      if value < minValue {
        minArg := Some(src[i]);
        minValue := value;
      }
    }
    return minArg;
  }

  /** Every key below `int.MaxValue` on a non-empty input: `MinBy` finds an
      item whose key is 0, or else one whose key is the least. */
  lemma MinByOfLeast<T>(src: seq<T>, f: T -> int)
    requires src != [] && forall j :: 0 <= j < |src| ==> 0 <= f(src[j]) < IntMax
    ensures MinByOf(src, f).Some?
    ensures exists k ::
      && 0 <= k < |src| && MinByOf(src, f) == Some(src[k])
      && forall j :: 0 <= j < |src| ==> f(src[k]) <= f(src[j])
  {
    var z := FirstZero(src, f);
    if z < |src| {
      assert MinByOf(src, f) == Some(src[z]);
    } else {
      var k := LeastIndex(src, f, |src|);
      assert MinByOf(src, f) == Some(src[k]);
    }
  }

  // ---------------------------------------------------------------------
  // inverseLookup

  /** `Math.Abs`. */
  function Abs(x: int): nat { if x < 0 then -x else x }

  /** The eight-bit level of packed value `p`: `(p << 3) | (p >> 2)` at 32
      levels, `p * 17` at 16. */
  function Widened(limit: int, p: nat): nat
  {
    if limit == 32 then Extend5to8(p) else p * 17
  }

  /** How far `color` is from packed value `p` once the modifier `(t, sel)`
      is added and the sum clamped. */
  function Distance(limit: int, t: nat, sel: nat, color: byte, p: nat): (d: nat)
    requires t < 8 && sel < 4
    ensures d < 256
  {
    Abs(Clamp(Widened(limit, p) + Modifier(t, sel)) - color)
  }

  /** `(Math.Abs(Clamp(c + selector) - color) << 8) | packed_c`. */
  function Key(limit: int, t: nat, sel: nat, color: byte, p: nat): nat
    requires t < 8 && sel < 4 && p < 256
  {
    Or(Distance(limit, t, sel, color, p) * 256, p)
  }

  /** The key holds the distance above its low byte and `p` in it. */
  lemma KeyParts(limit: int, t: nat, sel: nat, color: byte, p: nat)
    requires t < 8 && sel < 4 && p < 256
    ensures var k := Key(limit, t, sel, color, p);
      && k == Distance(limit, t, sel, color, p) * 256 + p
      && k % 256 == p
      && k / 256 == Distance(limit, t, sel, color, p)
  {
    var d := Distance(limit, t, sel, color, p);
    assert Pow2(8) == 256;
    OrDisjoint(d, p, 8);
    Quotient(d * 256 + p, 256, d);
  }

  /** `Enumerable.Range(0, n).Min(key)`. */
  function MinKey(limit: int, t: nat, sel: nat, color: byte, n: nat): nat
    requires t < 8 && sel < 4 && 0 < n <= 256
  {
    if n == 1 then Key(limit, t, sel, color, 0)
    else
      var m := MinKey(limit, t, sel, color, n - 1);
      var k := Key(limit, t, sel, color, n - 1);
      if k < m then k else m
  }

  /** The least key over `p < n` is the key of some `p < n`, its low
      byte. */
  lemma {:induction false} MinKeyIsKey(limit: int, t: nat, sel: nat, color: byte, n: nat)
    requires t < 8 && sel < 4 && 0 < n <= 256
    ensures var m := MinKey(limit, t, sel, color, n);
      m % 256 < n && m == Key(limit, t, sel, color, m % 256)
  {
    KeyParts(limit, t, sel, color, n - 1);
    if n > 1 {
      MinKeyIsKey(limit, t, sel, color, n - 1);
    }
  }

  /** No key over `p < n` is below the least. */
  lemma {:induction false} MinKeyBelow(limit: int, t: nat, sel: nat, color: byte, n: nat)
    requires t < 8 && sel < 4 && 0 < n <= 256
    ensures forall p :: 0 <= p < n ==> MinKey(limit, t, sel, color, n) <= Key(limit, t, sel, color, p)
  {
    if n > 1 {
      MinKeyBelow(limit, t, sel, color, n - 1);
      var m := MinKey(limit, t, sel, color, n);
      assert m <= Key(limit, t, sel, color, n - 1) && m <= MinKey(limit, t, sel, color, n - 1);
    }
  }

  /** The packed value in the least key's low byte has the least distance,
      and is the first such one on a tie. */
  lemma MinKeyNearest(limit: int, t: nat, sel: nat, color: byte, n: nat)
    requires t < 8 && sel < 4 && 0 < n <= 256
    ensures var m := MinKey(limit, t, sel, color, n);
      && m % 256 < n
      && m / 256 == Distance(limit, t, sel, color, m % 256)
      && (forall p :: 0 <= p < n ==>
            Distance(limit, t, sel, color, m % 256) <= Distance(limit, t, sel, color, p))
      && (forall p :: 0 <= p < m % 256 ==>
            Distance(limit, t, sel, color, m % 256) < Distance(limit, t, sel, color, p))
  {
    var m := MinKey(limit, t, sel, color, n);
    MinKeyIsKey(limit, t, sel, color, n);
    MinKeyBelow(limit, t, sel, color, n);
    var q := m % 256;
    var d := Distance(limit, t, sel, color, q);
    KeyParts(limit, t, sel, color, q);
    forall p | 0 <= p < n
      ensures d <= Distance(limit, t, sel, color, p)
      ensures p < q ==> d < Distance(limit, t, sel, color, p)
    {
      KeyParts(limit, t, sel, color, p);
    }
  }

  /** `inverseLookup[index]`, for the index
      `((limitIdx * 8 + t) * 4 + sel) * 256 + color` that the query
      expression enumerates: limit 16 then 32, each table of `modifiers`,
      each of its four modifiers, each colour. */
  function InverseLookup(index: nat): nat
    requires index < 2 * 8 * 4 * 256
  {
    var q := index / 256;
    var limit := if q / 32 == 0 then 16 else 32;
    MinKey(limit, q / 4 % 8, q % 4, index % 256, limit)
  }

  /** `inverseLookup[i * 256 + color]`: the entry of candidate `i` for one
      channel value. */
  function Entry(i: nat, color: byte): nat
    requires i < 64
  {
    InverseLookup(i * 256 + color)
  }

  /** The number of levels of candidate `i`: 16 below 32, 32 from 32 on. */
  function Levels(i: nat): int { if i < 32 then 16 else 32 }

  /** The colour a solid block with base colour `q` shows at candidate `i`'s
      depth, with table `(i / 4) % 8` and selector `i % 4`. */
  function SolidColour(i: nat, q: RGB): RGB
    requires i < 64
  {
    AddModifier(Scale(q, Levels(i)), Modifier(i / 4 % 8, i % 4))
  }

  /** Entry `i * 256 + color` holds, in its low byte, the first packed value
      whose solid colour channel lies nearest `color`, and that distance
      above it. */
  lemma InverseLookupNearest(i: nat, color: byte)
    requires i < 64
    ensures var v := Entry(i, color);
      && v % 256 < Levels(i)
      && v / 256 == Distance(Levels(i), i / 4 % 8, i % 4, color, v % 256)
      && (forall p :: 0 <= p < Levels(i) ==>
            Distance(Levels(i), i / 4 % 8, i % 4, color, v % 256) <= Distance(Levels(i), i / 4 % 8, i % 4, color, p))
      && (forall p :: 0 <= p < v % 256 ==>
            Distance(Levels(i), i / 4 % 8, i % 4, color, v % 256) < Distance(Levels(i), i / 4 % 8, i % 4, color, p))
  {
    EntryIsMinKey(i, color);
    MinKeyNearest(Levels(i), i / 4 % 8, i % 4, color, Levels(i));
  }

  /** Entry `i * 256 + color` is the least key of candidate `i`'s levels,
      table and selector. */
  lemma EntryIsMinKey(i: nat, color: byte)
    requires i < 64
    ensures Entry(i, color) == MinKey(Levels(i), i / 4 % 8, i % 4, color, Levels(i))
  {
    var index := i * 256 + color;
    Quotient(index, 256, i);
    assert index % 256 == color;
    assert (if i / 32 == 0 then 16 else 32) == Levels(i);
  }

  // ---------------------------------------------------------------------
  // PackSolidColor

  /** Candidate `i` of `PackSolidColor`: the error of the three nearest
      channels, the packed colour `new RGB(r, g, b)` keeps in its low bytes,
      and `(byte)i` as the MSB plane.  The unused `table` of the query is
      not modelled. */
  function Candidate(c: RGB, i: nat): Solution
    requires i < 64
  {
    var r := Entry(i, c.r);
    var g := Entry(i, c.g);
    var b := Entry(i, c.b);
    Solution(ErrorRGB(r / 256, g / 256, b / 256), MakeRGB(r, g, b), -1, i as bv8, 0)
  }

  /** The 64 candidates in `Enumerable.Range(0, 64)` order. */
  function Candidates(c: RGB): (cs: seq<Solution>)
    ensures |cs| == 64 && forall i :: 0 <= i < 64 ==> cs[i] == Candidate(c, i)
  {
    seq(64, i requires 0 <= i < 64 => Candidate(c, i))
  }

  /** The key `s => s.error` of the `MinBy` call. */
  function ErrorOf(s: Solution): int { s.error }

  /** `Scale` of a colour below the limit is `Widened` in each channel. */
  lemma ScaleWidened(q: RGB, limit: int)
    requires limit == 16 || limit == 32
    requires Below(q, limit)
    ensures Scale(q, limit).r == Widened(limit, q.r)
    ensures Scale(q, limit).g == Widened(limit, q.g)
    ensures Scale(q, limit).b == Widened(limit, q.b)
  {
    if limit == 32 {
      Extend5to8Sum(q.r);
      Extend5to8Sum(q.g);
      Extend5to8Sum(q.b);
    }
  }

  lemma {:induction false} SquareGrows(a: nat, b: nat)
    requires a <= b
    ensures Square(a) <= Square(b)
    decreases b
  {
    if a < b {
      SquareGrows(a, b - 1);
    }
  }

  lemma SquareAbs(x: int)
    ensures Square(Abs(x)) == Square(x)
  {
  }

  /** One channel of candidate `i`'s solid colour on packed value `x`. */
  function SolidChannel(i: nat, x: nat): byte
    requires i < 64
  {
    Clamp(Widened(Levels(i), x) + Modifier(i / 4 % 8, i % 4))
  }

  /** The squared distance of a solid channel from `color`. */
  function ChannelError(i: nat, x: nat, color: byte): nat
    requires i < 64
  {
    Square(SolidChannel(i, x) - color)
  }

  /** A solid colour below its levels, channel by channel. */
  lemma SolidChannels(i: nat, q: RGB)
    requires i < 64 && Below(q, Levels(i))
    ensures SolidColour(i, q) == RGB(SolidChannel(i, q.r), SolidChannel(i, q.g), SolidChannel(i, q.b))
  {
    ScaleWidened(q, Levels(i));
  }

  /** A distance in the table of candidate `i` squares to the channel's
      error. */
  lemma ChannelDistance(i: nat, color: byte, x: nat)
    requires i < 64
    ensures Square(Distance(Levels(i), i / 4 % 8, i % 4, color, x)) == ChannelError(i, x, color)
  {
    SquareAbs(SolidChannel(i, x) - color);
  }

  /** One channel of candidate `i`: the entry's high bits square to the
      squared distance of the solid channel from `color`. */
  lemma ChannelExact(i: nat, color: byte)
    requires i < 64
    ensures var v := Entry(i, color);
      && v % 256 < Levels(i)
      && Square(v / 256) == ChannelError(i, v % 256, color)
  {
    InverseLookupNearest(i, color);
    ChannelDistance(i, color, Entry(i, color) % 256);
  }

  /** No packed value `x` of the same levels puts the solid channel nearer
      `color` than candidate `i`'s entry does. */
  lemma ChannelBeats(i: nat, color: byte, x: nat)
    requires i < 64 && x < Levels(i)
    ensures Square(Entry(i, color) / 256) <= ChannelError(i, x, color)
  {
    InverseLookupNearest(i, color);
    ChannelDistance(i, color, x);
    SquareGrows(Entry(i, color) / 256, Distance(Levels(i), i / 4 % 8, i % 4, color, x));
  }

  /** The error of a solid colour, channel by channel. */
  lemma SolidDiff(c: RGB, i: nat, q: RGB)
    requires i < 64 && Below(q, Levels(i))
    ensures Diff(SolidColour(i, q), c)
      == 2 * ChannelError(i, q.r, c.r) + 4 * ChannelError(i, q.g, c.g) + 3 * ChannelError(i, q.b, c.b)
  {
    SolidChannels(i, q);
  }

  /** Candidate `i` keeps a colour below its levels and its error is that
      of its solid colour against `c`. */
  lemma CandidateError(c: RGB, i: nat)
    requires i < 64
    ensures var s := Candidate(c, i);
      && Below(s.blockColour, Levels(i)) && s.error == Diff(SolidColour(i, s.blockColour), c)
  {
    var s := Candidate(c, i);
    var r := Entry(i, c.r);
    var g := Entry(i, c.g);
    var b := Entry(i, c.b);
    assert s.blockColour == RGB(r % 256, g % 256, b % 256);
    assert s.error == 2 * Square(r / 256) + 4 * Square(g / 256) + 3 * Square(b / 256);
    assert r % 256 < Levels(i) && Square(r / 256) == ChannelError(i, r % 256, c.r) by { ChannelExact(i, c.r); }
    assert g % 256 < Levels(i) && Square(g / 256) == ChannelError(i, g % 256, c.g) by { ChannelExact(i, c.g); }
    assert b % 256 < Levels(i) && Square(b / 256) == ChannelError(i, b % 256, c.b) by { ChannelExact(i, c.b); }
    SolidDiff(c, i, s.blockColour);
  }

  /** No colour of candidate `i`'s levels, at its table and selector, comes
      nearer `c` than the candidate. */
  lemma CandidateBeats(c: RGB, i: nat, q: RGB)
    requires i < 64 && Below(q, Levels(i))
    ensures Candidate(c, i).error <= Diff(SolidColour(i, q), c)
  {
    var r := Entry(i, c.r);
    var g := Entry(i, c.g);
    var b := Entry(i, c.b);
    assert Candidate(c, i).error == 2 * Square(r / 256) + 4 * Square(g / 256) + 3 * Square(b / 256);
    assert Square(r / 256) <= ChannelError(i, q.r, c.r) by { ChannelBeats(i, c.r, q.r); }
    assert Square(g / 256) <= ChannelError(i, q.g, c.g) by { ChannelBeats(i, c.g, q.g); }
    assert Square(b / 256) <= ChannelError(i, q.b, c.b) by { ChannelBeats(i, c.b, q.b); }
    SolidDiff(c, i, q);
  }

  /** Candidate `i` keeps a colour below its levels, its error is that of
      its solid colour against `c`, and no other colour of those levels at
      the same table and selector comes nearer. */
  lemma CandidateNearest(c: RGB, i: nat)
    requires i < 64
    ensures var s := Candidate(c, i);
      && Below(s.blockColour, Levels(i))
      && s.error == Diff(SolidColour(i, s.blockColour), c)
      && forall q :: Below(q, Levels(i)) ==> s.error <= Diff(SolidColour(i, q), c)
  {
    CandidateError(c, i);
    forall q | Below(q, Levels(i))
      ensures Candidate(c, i).error <= Diff(SolidColour(i, q), c)
    {
      CandidateBeats(c, i, q);
    }
  }

  /** The block of the object initializer: `val` is the chosen solution's
      MSB byte, whose bit 5 selects differential mode (and the multiplier
      8, else 17), bits 2 to 4 both tables, and bits 1 and 0 whether each
      selector plane is all ones. */
  function SolidBlock(soln: Solution): Block
  {
    var val := soln.selectorMSB;
    var multiplier := if val & 32 == 32 then 8 else 17;
    var t := ((val >> 2) & 7) as int;
    Block(0, 0, 0, 0, 0, 0).WithDiffBit(val & 32 == 32).WithTable0(t).WithTable1(t).(
      msb := if val & 2 != 0 then 0xFFFF else 0,
      lsb := if val & 1 != 0 then 0xFFFF else 0,
      r := ToByte(soln.blockColour.r * multiplier),
      g := ToByte(soln.blockColour.g * multiplier),
      b := ToByte(soln.blockColour.b * multiplier))
  }

  /** `PackSolidColor`: the candidate `MinBy` picks by error, packed. */
  function PackSolidColor(c: RGB): Block
  {
    var cands := Candidates(c);
    CandidatesFound(c);
    SolidBlock(MinByOf(cands, ErrorOf).value)
  }

  /** Every candidate error is below `int.MaxValue`, so `MinBy` finds one. */
  lemma CandidatesFound(c: RGB)
    ensures MinByOf(Candidates(c), ErrorOf).Some?
    ensures exists k ::
      && 0 <= k < 64 && MinByOf(Candidates(c), ErrorOf) == Some(Candidate(c, k))
      && forall j :: 0 <= j < 64 ==> Candidate(c, k).error <= Candidate(c, j).error
  {
    var cs := Candidates(c);
    forall j | 0 <= j < 64
      ensures 0 <= ErrorOf(cs[j]) < IntMax
    {
      CandidateNearest(c, j);
    }
    MinByOfLeast(cs, ErrorOf);
  }

  /** The bits of `(byte)i` the block reads, for `i < 64`. */
  lemma SelectorByte(i: nat)
    requires i < 64
    ensures var v := i as bv8;
      && (v & 32 == 32 <==> 32 <= i)
      && ((v >> 2) & 7) as int == i / 4 % 8
      && (v & 2 != 0 <==> 2 <= i % 4)
      && (v & 1 != 0 <==> i % 2 == 1)
  {
    SelectorModeBit(i);
    SelectorTableBits(i / 4, i % 4);
    SelectorPlaneBits(i);
  }

  lemma SelectorModeBit(i: nat)
    requires i < 64
    ensures var v := i as bv8; v & 32 == 32 <==> 32 <= i
  {
  }

  lemma SelectorTableBits(j: nat, s: nat)
    requires j < 16 && s < 4
    ensures var v := (4 * j + s) as bv8; ((v >> 2) & 7) as int == j % 8
  {
    assert j == 0 || j == 1 || j == 2 || j == 3 || j == 4 || j == 5 || j == 6 || j == 7
      || j == 8 || j == 9 || j == 10 || j == 11 || j == 12 || j == 13 || j == 14 || j == 15;
  }

  lemma SelectorPlaneBits(i: nat)
    requires i < 64
    ensures var v := i as bv8; (v & 2 != 0 <==> 2 <= i % 4) && (v & 1 != 0 <==> i % 2 == 1)
  {
  }

  /** The flags of the solid block: no flip, and the given mode and table
      in both halves. */
  lemma SolidFlags(diff: bool, t: int)
    requires 0 <= t < 8
    ensures var b := Block(0, 0, 0, 0, 0, 0).WithDiffBit(diff).WithTable0(t).WithTable1(t);
      !b.FlipBit() && b.DiffBit() == diff && b.Table0() == t && b.Table1() == t
  {
    var b0 := Block(0, 0, 0, 0, 0, 0);
    var b1 := b0.WithDiffBit(diff);
    var b2 := b1.WithTable0(t);
    var b3 := b2.WithTable1(t);
    DiffBitSetter(b0, diff);
    Table0Setter(b1, t);
    Table1Setter(b2, t);
    assert b1.flags & 1 == 0 by { assert b1.flags & !2 == 0; }
    assert b2.flags & 3 == b1.flags & 3 by { assert b2.flags & 0x1F == b1.flags & 0x1F; }
    assert b3.flags & 0xE3 == b2.flags & 0xE3;
  }

  /** Every bit of `0xFF` is 1 and every bit of 0 is 0. */
  lemma UniformByte(s: nat)
    requires s < 8
    ensures BitAt(0xFF, s) == 1 && BitAt(0, s) == 0
  {
    assert BitAt(0, 0) == 0 && BitAt(0xFF, 0) == 1;
    assert BitAt(0, 1) == BitAt(0, 0) && BitAt(0x01, 0) == 1;
    assert BitAt(0, 2) == BitAt(0, 1) && BitAt(0x03, 1) == BitAt(0x01, 0);
    assert BitAt(0, 3) == BitAt(0, 2) && BitAt(0x07, 2) == BitAt(0x03, 1);
    assert BitAt(0, 4) == BitAt(0, 3) && BitAt(0x0F, 3) == BitAt(0x07, 2);
    assert BitAt(0, 5) == BitAt(0, 4) && BitAt(0x1F, 4) == BitAt(0x0F, 3);
    assert BitAt(0, 6) == BitAt(0, 5) && BitAt(0x3F, 5) == BitAt(0x1F, 4);
    assert BitAt(0, 7) == BitAt(0, 6) && BitAt(0x7F, 6) == BitAt(0x3F, 5);
    assert BitAt(0xFF, 7) == BitAt(0x7F, 6);
    assert BitAt(0xFF, 1) == BitAt(0x7F, 0) == 1;
    assert BitAt(0xFF, 2) == BitAt(0x7F, 1) == BitAt(0x3F, 0) == 1;
    assert BitAt(0xFF, 3) == BitAt(0x7F, 2) && BitAt(0x3F, 1) == BitAt(0x1F, 0) == 1;
    assert BitAt(0xFF, 4) == BitAt(0x7F, 3) && BitAt(0x3F, 2) == BitAt(0x1F, 1) == BitAt(0x0F, 0) == 1;
    assert BitAt(0xFF, 5) == BitAt(0x7F, 4) && BitAt(0x3F, 3) == BitAt(0x1F, 2) == BitAt(0x0F, 1) == 1;
    assert BitAt(0xFF, 6) == BitAt(0x7F, 5) && BitAt(0x3F, 4) == BitAt(0x1F, 3) == BitAt(0x0F, 2) == 1;
  }

  /** A selector plane that is all ones or all zeros gives every pixel the
      same bit. */
  lemma UniformPlane(w: bv16, p: nat)
    requires w == 0xFFFF || w == 0
    requires p < 16
    ensures PlaneBit(w, p) == if w == 0xFFFF then 1 else 0
  {
    PlaneBitHalves(w, p);
    assert Low(w) == High(w) == if w == 0xFFFF then 0xFF else 0;
    UniformByte(if p < 8 then p else p - 8);
  }

  /** A block that shows colour `x` at all sixteen pixels. */
  predicate Shows(blk: Block, x: RGB)
  {
    forall p :: 0 <= p < 16 ==> PixelRgb(blk, p) == x
  }

  /** The flags of candidate `i`'s block: no flip, the mode of its levels
      and its table in both halves. */
  lemma SolidBlockFlags(soln: Solution, i: nat)
    requires i < 64 && soln.selectorMSB == i as bv8
    ensures var blk := SolidBlock(soln);
      && !blk.FlipBit()
      && blk.ColorDepth() == Levels(i)
      && blk.Table0() == i / 4 % 8 && blk.Table1() == i / 4 % 8
  {
    SelectorByte(i);
    SolidFlags(32 <= i, i / 4 % 8);
  }

  /** Every pixel of candidate `i`'s block has selector `i % 4`. */
  lemma SolidBlockSelectors(soln: Solution, i: nat)
    requires i < 64 && soln.selectorMSB == i as bv8
    ensures forall p :: 0 <= p < 16 ==> SolidBlock(soln).Selector(p) == i % 4
  {
    var blk := SolidBlock(soln);
    SolidBlockPlanes(soln, i);
    forall p | 0 <= p < 16
      ensures blk.Selector(p) == i % 4
    {
      UniformSelector(blk, i % 4, p);
    }
  }

  /** Both selector planes of candidate `i`'s block are uniform: all ones
      where selector `i % 4` has that bit. */
  lemma SolidBlockPlanes(soln: Solution, i: nat)
    requires i < 64 && soln.selectorMSB == i as bv8
    ensures SolidBlock(soln).msb == if 2 <= i % 4 then 0xFFFF else 0
    ensures SolidBlock(soln).lsb == if i % 2 == 1 then 0xFFFF else 0
  {
    SelectorPlaneBits(i);
  }

  /** Uniform planes give every pixel the same selector `s`. */
  lemma UniformSelector(blk: Block, s: nat, p: nat)
    requires s < 4 && p < 16
    requires blk.msb == (if 2 <= s then 0xFFFF else 0) && blk.lsb == (if s % 2 == 1 then 0xFFFF else 0)
    ensures blk.Selector(p) == s
  {
    UniformPlane(blk.msb, p);
    UniformPlane(blk.lsb, p);
  }

  /** Both base colours of candidate `i`'s block are its packed colour. */
  lemma SolidBlockColours(soln: Solution, i: nat)
    requires i < 64 && soln.selectorMSB == i as bv8 && Below(soln.blockColour, Levels(i))
    ensures var blk := SolidBlock(soln);
      blk.Color0() == soln.blockColour && blk.Color1() == soln.blockColour
  {
    var blk := SolidBlock(soln);
    var q := soln.blockColour;
    SelectorByte(i);
    SolidFlags(32 <= i, i / 4 % 8);
    if i < 32 {
      IndividualPacking(blk, q, q);
    } else {
      assert CsRem(8, 8) == 0;
      DifferentialPacking(blk, q, q);
    }
  }

  /** The block of candidate `i` shows its solid colour at all sixteen
      pixels. */
  lemma SolidBlockDecodes(soln: Solution, i: nat)
    requires i < 64 && soln.selectorMSB == i as bv8 && Below(soln.blockColour, Levels(i))
    ensures Shows(SolidBlock(soln), SolidColour(i, soln.blockColour))
    ensures PixelRgb(SolidBlock(soln), 0) == SolidColour(i, soln.blockColour)
  {
    SolidBlockFlags(soln, i);
    SolidBlockSelectors(soln, i);
    SolidBlockColours(soln, i);
  }

  /** The candidate `MinBy` picks for `c`: its block is `PackSolidColor(c)`
      and its error is no larger than that of candidate `j`. */
  lemma PackSolidColorPick(c: RGB, j: nat) returns (k: nat)
    requires j < 64
    ensures k < 64 && PackSolidColor(c) == SolidBlock(Candidate(c, k))
    ensures Candidate(c, k).error <= Candidate(c, j).error
  {
    CandidatesFound(c);
    k :| 0 <= k < 64 && MinByOf(Candidates(c), ErrorOf) == Some(Candidate(c, k))
      && forall j :: 0 <= j < 64 ==> Candidate(c, k).error <= Candidate(c, j).error;
  }

  /** `PackSolidColor` builds a block of one colour. */
  lemma PackSolidColorSolid(c: RGB)
    ensures Shows(PackSolidColor(c), PixelRgb(PackSolidColor(c), 0))
  {
    var k := PackSolidColorPick(c, 0);
    CandidateError(c, k);
    SolidBlockDecodes(Candidate(c, k), k);
  }

  /** The solid colour of candidate `i` on base colour `q` is no nearer `c`
      than the colour of `PackSolidColor(c)`. */
  lemma PackSolidColorBeats(c: RGB, i: nat, q: RGB)
    requires i < 64 && Below(q, Levels(i))
    ensures Diff(PixelRgb(PackSolidColor(c), 0), c) <= Diff(SolidColour(i, q), c)
  {
    var k := PackSolidColorPick(c, i);
    CandidateError(c, k);
    CandidateBeats(c, i, q);
    SolidBlockDecodes(Candidate(c, k), k);
  }

  /** `PackSolidColor` builds a block of one colour, and of all the colours a
      solid block can show (each depth, table, selector and base colour)
      none is nearer `c`. */
  lemma PackSolidColorNearest(c: RGB)
    ensures var blk := PackSolidColor(c);
      && Shows(blk, PixelRgb(blk, 0))
      && forall i, q :: 0 <= i < 64 && Below(q, Levels(i)) ==>
        Diff(PixelRgb(blk, 0), c) <= Diff(SolidColour(i, q), c)
  {
    PackSolidColorSolid(c);
    forall i, q | 0 <= i < 64 && Below(q, Levels(i))
      ensures Diff(PixelRgb(PackSolidColor(c), 0), c) <= Diff(SolidColour(i, q), c)
    {
      PackSolidColorBeats(c, i, q);
    }
  }

  // ---------------------------------------------------------------------
  // Encode

  const White := RGB(255, 255, 255)

  /** Candidate 0 (16 levels, table 0, modifier +2) on base colour 15
      shows white. */
  lemma WhiteReachable(i: nat, q: RGB)
    requires i == 0 && q == RGB(15, 15, 15)
    ensures Below(q, Levels(i)) && SolidColour(i, q) == White
  {
    assert Scale(RGB(15, 15, 15), 16) == RGB(255, 255, 255);
    assert Modifier(0, 0) == 2;
  }

  /** A colour no solid colour beats is `c` itself when some solid colour
      is `c`. */
  lemma NearestExact(x: RGB, c: RGB, i: nat, q: RGB)
    requires i < 64 && Below(q, Levels(i)) && Diff(SolidColour(i, q), c) == 0
    requires Diff(x, c) <= Diff(SolidColour(i, q), c)
    ensures x == c
  {
  }

  /** When some solid colour is `c` itself, the candidate `MinBy` picks
      has error 0, so its solid colour is `c`. */
  lemma PackSolidColorPickExact(c: RGB, i: nat, q: RGB) returns (k: nat)
    requires i < 64 && Below(q, Levels(i)) && Diff(SolidColour(i, q), c) == 0
    ensures k < 64 && PackSolidColor(c) == SolidBlock(Candidate(c, k))
    ensures Below(Candidate(c, k).blockColour, Levels(k))
    ensures SolidColour(k, Candidate(c, k).blockColour) == c
  {
    k := PackSolidColorPick(c, i);
    CandidateError(c, k);
    CandidateBeats(c, i, q);
  }

  /** Equal blocks show equal colours. */
  lemma ShowsSame(blk: Block, x: RGB, blk': Block, x': RGB)
    requires Shows(blk, x) && blk == blk' && x == x'
    ensures Shows(blk', x')
  {
  }

  /** A colour some solid block shows exactly is what `PackSolidColor`
      shows at all sixteen pixels. */
  lemma PackSolidColorExact(c: RGB, i: nat, q: RGB)
    requires i < 64 && Below(q, Levels(i)) && Diff(SolidColour(i, q), c) == 0
    ensures Shows(PackSolidColor(c), c)
  {
    var k := PackSolidColorPickExact(c, i, q);
    var soln := Candidate(c, k);
    SolidBlockDecodes(soln, k);
    ShowsSame(SolidBlock(soln), SolidColour(k, soln.blockColour), PackSolidColor(c), c);
  }

  /** The solid white block shows white at all sixteen pixels. */
  lemma WhiteBlock(w: RGB)
    requires w == White
    ensures Shows(PackSolidColor(w), White)
  {
    var k, q := 0, RGB(15, 15, 15);
    WhiteReachable(k, q);
    assert Diff(SolidColour(k, q), w) == 0;
    PackSolidColorExact(w, k, q);
  }

  /** `Encode`: the block `Check` finds, and otherwise the solid white
      block. */
  method Encode(colors: seq<RGB>) returns (blk: Block)
    requires |colors| == 16
    ensures DecodesTo(blk, colors) || Shows(blk, White)
  {
    var chk := Etc1Check.Check(colors);
    if chk.Some? {
      return chk.value;
    }
    var w := White;
    WhiteBlock(w);
    return PackSolidColor(w);
  }
}
