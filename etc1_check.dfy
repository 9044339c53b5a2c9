/** `Optimizer.Check`: the search for a block that reproduces sixteen
    colours exactly.  For each flip it splits the colours into two
    sub-blocks of eight, gives up on the flip when either has more than
    four distinct colours, and then tries the individual mode (two 4-bit
    base colours) and the differential mode (a 5-bit base colour and a
    second one within -4..3 of it), narrowing the tables and base colours
    with the lookup tables before asking `FindExactMatches`. */
module Etc1Check {
  import opened Primitives
  import opened Etc1
  import opened Etc1Optimizer
  import opened Etc1Packing

  // ---------------------------------------------------------------------
  // Distinct

  /** LINQ's `Distinct`: the first occurrence of each value, in order. */
  function Distinct<T(==,!new)>(s: seq<T>): (d: seq<T>)
    ensures forall x :: x in d <==> x in s
    ensures forall i, j :: 0 <= i < j < |d| ==> d[i] != d[j]
    ensures |d| <= |s|
  {
    if s == [] then []
    else
      var init := Distinct(s[..|s| - 1]);
      assert s == s[..|s| - 1] + [s[|s| - 1]];
      if s[|s| - 1] in init then init else init + [s[|s| - 1]]
  }

  // ---------------------------------------------------------------------
  // Lookup tables

  /** The 8-bit level of base value `a`: `a * 17` at 4 bits and
      `a * 8 + a / 4` at 5 bits. */
  function Level(limit: int, a: nat): int
  {
    if limit == 16 then a * 17 else a * 8 + a / 4
  }

  /** `modifiers[t].Select(mod => (byte)Clamp(level + mod)).Distinct()`
      over the first `m` modifiers: the distinct clamped values, in order. */
  function Reach(l: int, t: nat, m: nat): seq<byte>
    requires t < 8 && m <= 4
  {
    if m == 0 then []
    else
      var prev := Reach(l, t, m - 1);
      var v := Clamp(l + Modifier(t, m - 1));
      if v in prev then prev else prev + [v]
  }

  /** `lookup16big[t][a]` (`limit == 16`) or `lookup32big[t][a]`
      (`limit == 32`): the distinct channel values base value `a` reaches
      with table `t`. */
  function Big(limit: int, t: nat, a: nat): seq<byte>
    requires t < 8
  {
    Reach(Level(limit, a), t, 4)
  }

  /** The values in `Reach` are the clamped sums of the level and one of
      the first `m` modifiers, each once. */
  lemma {:induction false} ReachValues(l: int, t: nat, m: nat)
    requires t < 8 && m <= 4
    ensures forall k :: k in Reach(l, t, m) <==> exists j :: 0 <= j < m && k == Clamp(l + Modifier(t, j))
    ensures forall i, j :: 0 <= i < j < |Reach(l, t, m)| ==> Reach(l, t, m)[i] != Reach(l, t, m)[j]
  {
    if m > 0 {
      ReachValues(l, t, m - 1);
    }
  }

  /** `lookup16[t][k]` / `lookup32[t][k]` as the static constructor fills
      it: after the first `n` base values, `k` is set when one of them
      reaches it with table `t`. */
  predicate Reached(limit: int, t: nat, k: byte, n: nat)
    requires t < 8
  {
    n > 0 && (k in Big(limit, t, n - 1) || Reached(limit, t, k, n - 1))
  }

  /** `lookup16[t][k]` / `lookup32[t][k]` once filled. */
  predicate InLookup(limit: int, t: nat, k: byte)
    requires t < 8
  {
    Reached(limit, t, k, if limit == 16 then 16 else 32)
  }

  /** The flag is set exactly when some base value reaches `k`. */
  lemma {:induction false} ReachedSome(limit: int, t: nat, k: byte, n: nat)
    requires t < 8
    ensures Reached(limit, t, k, n) <==> exists a :: 0 <= a < n && k in Big(limit, t, a)
  {
    if n > 0 {
      ReachedSome(limit, t, k, n - 1);
    }
  }

  /** `pixels.All(c => lookup[t][c.R] && lookup[t][c.G] && lookup[t][c.B])`. */
  predicate Fits(pixels: seq<RGB>, limit: int, t: nat)
    requires t < 8
  {
    pixels == [] ||
    (var c := pixels[|pixels| - 1];
     InLookup(limit, t, c.r) && InLookup(limit, t, c.g) && InLookup(limit, t, c.b) && Fits(pixels[..|pixels| - 1], limit, t))
  }

  /** `tables0`/`tables1`: the tables below `n`, in order, that fit the
      distinct colours. */
  function Tables(pixels: seq<RGB>, limit: int, n: nat): (ts: seq<nat>)
    requires n <= 8
    ensures forall t: nat :: t in ts ==> t < n && Fits(pixels, limit, t)
    ensures forall t: nat :: t < n && Fits(pixels, limit, t) ==> t in ts
  {
    if n == 0 then []
    else Tables(pixels, limit, n - 1) + (if Fits(pixels, limit, n - 1) then [n - 1] else [])
  }

  /** `pixels.All(c => lookupbig[t][a].Contains(channel ch of c))`. */
  predicate Reaches(pixels: seq<RGB>, limit: int, t: nat, ch: nat, a: nat)
    requires t < 8
  {
    pixels == [] ||
    (Channel(pixels[|pixels| - 1], ch) in Big(limit, t, a) && Reaches(pixels[..|pixels| - 1], limit, t, ch, a))
  }

  /** `rs`, `gs` or `bs`: the base values below `n`, in order, that reach
      channel `ch` of every colour. */
  function Candidates(pixels: seq<RGB>, limit: int, t: nat, ch: nat, n: nat): (vs: seq<byte>)
    requires t < 8 && n <= 256
    ensures forall v: byte :: v in vs <==> v < n && Reaches(pixels, limit, t, ch, v)
  {
    if n == 0 then []
    else Candidates(pixels, limit, t, ch, n - 1) + (if Reaches(pixels, limit, t, ch, n - 1) then [(n - 1) as byte] else [])
  }

  // ---------------------------------------------------------------------
  // Candidate colours

  /** `from r in rs from g in gs from b in bs select new RGB(r, g, b)`. */
  function Product(rs: seq<byte>, gs: seq<byte>, bs: seq<byte>): (ps: seq<RGB>)
    ensures forall c :: c in ps <==> c.r in rs && c.g in gs && c.b in bs
  {
    if rs == [] then []
    else
      assert rs == [rs[0]] + rs[1..];
      Row(rs[0], gs, bs) + Product(rs[1..], gs, bs)
  }

  function Row(r: byte, gs: seq<byte>, bs: seq<byte>): (ps: seq<RGB>)
    ensures forall c :: c in ps <==> c.r == r && c.g in gs && c.b in bs
  {
    if gs == [] then []
    else
      assert gs == [gs[0]] + gs[1..];
      Column(r, gs[0], bs) + Row(r, gs[1..], bs)
  }

  function Column(r: byte, g: byte, bs: seq<byte>): (ps: seq<RGB>)
    ensures forall c :: c in ps <==> c.r == r && c.g == g && c.b in bs
  {
    if bs == [] then []
    else
      assert bs == [bs[0]] + bs[1..];
      [RGB(r, g, bs[0])] + Column(r, g, bs[1..])
  }

  /** The `where dr >= -4 && dr < 4` filters: the values within -4..3 of `v`. */
  function NearBy(vs: seq<byte>, v: byte): (ns: seq<byte>)
    ensures forall x :: x in ns <==> x in vs && -4 <= x - v < 4
  {
    if vs == [] then []
    else
      assert vs == [vs[0]] + vs[1..];
      (if -4 <= vs[0] - v < 4 then [vs[0]] else []) + NearBy(vs[1..], v)
  }

  /** The differential query for a first solution `s0`: the candidates
      whose channels lie within -4..3 of its base colour. */
  lemma NearProduct(rs: seq<byte>, gs: seq<byte>, bs: seq<byte>, c0: RGB, c: RGB)
    requires c in Product(NearBy(rs, c0.r), NearBy(gs, c0.g), NearBy(bs, c0.b))
    ensures c in Product(rs, gs, bs) && Near(c0, c)
  {
  }

  // ---------------------------------------------------------------------
  // The search

  /** A pair of solutions for the two sub-blocks of one split that
      `FromSet` can pack and that reproduce the sub-blocks exactly. */
  predicate Solves(all0: seq<RGB>, all1: seq<RGB>, solns: SolutionSet)
  {
    var limit := if solns.diff then 32 else 16;
    Packable(solns) && Exact(all0, limit, solns.soln0) && Exact(all1, limit, solns.soln1)
  }

  /** The search over `tables` for one sub-block: for each table in turn,
      the candidate colours whose channels every distinct colour allows,
      until `FindExactMatches(...).FirstOrDefault()` finds one. */
  method FirstMatch(opt: Optimizer, pixels: seq<RGB>, tables: seq<nat>) returns (r: Option<Solution>)
    requires |opt.pixels| >= 8 && (opt.limit == 16 || opt.limit == 32)
    requires forall t :: t in tables ==> t < 8
    modifies opt`best
    ensures r.Some? ==> Exact(opt.pixels, opt.limit, r.value) && Below(r.value.blockColour, opt.limit)
  {
    for k := 0 to |tables| {
      var t := tables[k];
      assert t in tables;
      var rs := Candidates(pixels, opt.limit, t, 0, opt.limit);
      var gs := Candidates(pixels, opt.limit, t, 1, opt.limit);
      var bs := Candidates(pixels, opt.limit, t, 2, opt.limit);
      var cands := Product(rs, gs, bs);
      var s := opt.FirstExactMatch(cands, t);
      if s.Some? {
        ExactMatchesExact(opt.pixels, opt.limit, cands, t);
        return s;
      }
    }
    return None;
  }

  /** The `!diff` branch: a table and base colour at 4 bits per channel for
      each sub-block, the first found for each. */
  method Individual(flip: bool, all0: seq<RGB>, pixels0: seq<RGB>, all1: seq<RGB>, pixels1: seq<RGB>)
    returns (r: Option<SolutionSet>)
    requires |all0| == 8 && |all1| == 8
    ensures r.Some? ==> r.value.flip == flip && !r.value.diff && Solves(all0, all1, r.value)
  {
    var tables0 := Tables(pixels0, 16, 8);
    if tables0 == [] {
      return None;
    }
    var tables1 := Tables(pixels1, 16, 8);
    if tables1 == [] {
      return None;
    }
    var opt0 := new Optimizer(all0, 16, 1);
    var soln0 := FirstMatch(opt0, pixels0, tables0);
    if soln0.None? {
      return None;
    }
    var opt1 := new Optimizer(all1, 16, 1);
    var soln1 := FirstMatch(opt1, pixels1, tables1);
    if soln1.None? {
      return None;
    }
    return Some(SolutionSet(flip, false, soln0.value, soln1.value));
  }

  /** `solns0.AddRange(opt0.FindExactMatches(...))` over `tables`: every
      exact solution of the sub-block, table by table. */
  method AllMatches(opt: Optimizer, pixels: seq<RGB>, tables: seq<nat>) returns (solns: seq<Solution>)
    requires |opt.pixels| >= 8 && (opt.limit == 16 || opt.limit == 32)
    requires forall t :: t in tables ==> t < 8
    modifies opt`best
    ensures forall s :: s in solns ==> Exact(opt.pixels, opt.limit, s) && Below(s.blockColour, opt.limit)
  {
    solns := [];
    for k := 0 to |tables|
      invariant forall s :: s in solns ==> Exact(opt.pixels, opt.limit, s) && Below(s.blockColour, opt.limit)
    {
      var t := tables[k];
      assert t in tables;
      var rs := Candidates(pixels, opt.limit, t, 0, opt.limit);
      var gs := Candidates(pixels, opt.limit, t, 1, opt.limit);
      var bs := Candidates(pixels, opt.limit, t, 2, opt.limit);
      var cands := Product(rs, gs, bs);
      var matches := opt.FindExactMatches(cands, t);
      ExactMatchesExact(opt.pixels, opt.limit, cands, t);
      solns := solns + matches;
    }
  }

  /** The second half of the `diff` branch: table by table, and first
      solution by first solution, the first solution of the second
      sub-block whose base colour lies within -4..3 of the first's. */
  method NearMatch(opt: Optimizer, pixels: seq<RGB>, tables: seq<nat>, solns0: seq<Solution>)
    returns (r: Option<(Solution, Solution)>)
    requires |opt.pixels| >= 8 && opt.limit == 32
    requires forall t :: t in tables ==> t < 8
    modifies opt`best
    ensures r.Some? ==>
      && r.value.0 in solns0 && Exact(opt.pixels, 32, r.value.1)
      && Below(r.value.1.blockColour, 32) && Near(r.value.0.blockColour, r.value.1.blockColour)
  {
    for k := 0 to |tables| {
      var t := tables[k];
      assert t in tables;
      var rs := Candidates(pixels, 32, t, 0, 32);
      var gs := Candidates(pixels, 32, t, 1, 32);
      var bs := Candidates(pixels, 32, t, 2, 32);
      for m := 0 to |solns0| {
        var s0 := solns0[m];
        var c0 := s0.blockColour;
        var q := Product(NearBy(rs, c0.r), NearBy(gs, c0.g), NearBy(bs, c0.b));
        var soln1 := opt.FirstExactMatch(q, t);
        if soln1.Some? {
          ExactMatchesExact(opt.pixels, 32, q, t);
          NearProduct(rs, gs, bs, c0, soln1.value.blockColour);
          return Some((s0, soln1.value));
        }
      }
    }
    return None;
  }

  /** The `diff` branch: every exact 5-bit solution of the first sub-block,
      then the first solution of the second that lies near one of them. */
  method Differential(flip: bool, all0: seq<RGB>, pixels0: seq<RGB>, all1: seq<RGB>, pixels1: seq<RGB>)
    returns (r: Option<SolutionSet>)
    requires |all0| == 8 && |all1| == 8
    ensures r.Some? ==> r.value.flip == flip && r.value.diff && Solves(all0, all1, r.value)
  {
    var tables0 := Tables(pixels0, 32, 8);
    if tables0 == [] {
      return None;
    }
    var tables1 := Tables(pixels1, 32, 8);
    if tables1 == [] {
      return None;
    }
    var opt0 := new Optimizer(all0, 32, 1);
    var solns0 := AllMatches(opt0, pixels0, tables0);
    if solns0 == [] {
      return None;
    }
    var opt1 := new Optimizer(all1, 32, 1);
    var pair := NearMatch(opt1, pixels1, tables1, solns0);
    if pair.None? {
      return None;
    }
    return Some(SolutionSet(flip, true, pair.value.0, pair.value.1));
  }

  /** `Check`: a block that decodes to the sixteen colours, found with the
      first flip whose sub-blocks have at most four distinct colours each
      and the first mode that succeeds for it, or none. */
  method Check(colors: seq<RGB>) returns (r: Option<Block>)
    requires |colors| == 16
    ensures r.Some? ==> DecodesTo(r.value, colors)
    ensures r.Some? ==> var flip := r.value.FlipBit();
      |Distinct(SubBlock(colors, flip, 0))| <= 4 && |Distinct(SubBlock(colors, flip, 1))| <= 4
  {
    var flips := [false, true];
    for k := 0 to 2 {
      var flip := flips[k];
      var all0 := SubBlock(colors, flip, 0);
      var pixels0 := Distinct(all0);
      if |pixels0| > 4 {
        continue;
      }
      var all1 := SubBlock(colors, flip, 1);
      var pixels1 := Distinct(all1);
      if |pixels1| > 4 {
        continue;
      }
      SubBlockPixels(colors, flip, 0);
      SubBlockPixels(colors, flip, 1);
      var diffs := [false, true];
      for m := 0 to 2 {
        var solns: Option<SolutionSet>;
        if !diffs[m] {
          solns := Individual(flip, all0, pixels0, all1, pixels1);
        } else {
          solns := Differential(flip, all0, pixels0, all1, pixels1);
        }
        if solns.Some? {
          FromSetDecodes(colors, solns.value);
          FromSetFlags(solns.value);
          return Some(FromSet(solns.value));
        }
      }
    }
    return None;
  }
}
