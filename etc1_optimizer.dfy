/** `Etc1.Optimizer`: the search for an ETC1 block that reproduces sixteen
    colours exactly (`Check`), the packing of the chosen pair of sub-block
    solutions into a block (`FromSet`), the single-colour fallback
    (`PackSolidColor`) and `Encode`, which tries the first and falls back
    on the second. */
module Etc1Optimizer {
  import opened Primitives
  import opened Etc1

  const MaxError := 99999999

  /** `Solution`.  `table` is the index of `intenTable` in `Modifiers`, as
      `Array.IndexOf` finds it, and -1 while it is unset.  The selector
      planes are built one bit per pixel, so they fit a byte. */
  datatype Solution = Solution(error: int, blockColour: RGB, table: int, selectorMSB: bv8, selectorLSB: bv8)

  /** `new Solution { error = e }`. */
  function Unsolved(e: int): Solution
  {
    Solution(e, RGB(0, 0, 0), -1, 0, 0)
  }

  /** `newTable`: the four colours a base colour and an intensity table give. */
  function Entries(c: RGB, limit: int, table: nat): (e: seq<RGB>)
    requires table < 8
    ensures |e| == 4
  {
    seq(4, j requires 0 <= j < 4 => AddModifier(Scale(c, limit), Modifier(table, j)))
  }

  /** The errors of the entries against pixel `p`, one per entry. */
  function Errors(p: RGB, entries: seq<RGB>): (errs: seq<int>)
    ensures |errs| == |entries|
    ensures forall k :: 0 <= k < |errs| ==> 0 <= errs[k] < MaxError && (errs[k] == 0 <==> p == entries[k])
  {
    if entries == [] then []
    else Errors(p, entries[..|entries| - 1]) + [Diff(p, entries[|entries| - 1])]
  }

  /** Entry `k`'s error is `pixel - newTable[k]`. */
  lemma {:induction false} ErrorsAt(p: RGB, entries: seq<RGB>, k: nat)
    requires k < |entries|
    ensures Errors(p, entries)[k] == Diff(p, entries[k])
  {
    if k < |entries| - 1 {
      ErrorsAt(p, entries[..|entries| - 1], k);
    }
  }

  /** The inner `for (j ...)` loop from `best_j`, `best_error`: the index
      of the first strictly smaller error wins. */
  function MinFrom(errs: seq<int>, j: nat, bestJ: nat, bestError: int): (r: nat)
    requires |errs| == 4 && j <= 4 && bestJ < 4
    ensures r < 4
    decreases 4 - j
  {
    if j == 4 then bestJ
    else if errs[j] < bestError then MinFrom(errs, j + 1, j, errs[j])
    else MinFrom(errs, j + 1, bestJ, bestError)
  }

  /** `r` holds the least error, and no earlier index does. */
  predicate FirstMinimum(errs: seq<int>, r: nat)
  {
    && r < |errs|
    && (forall k :: 0 <= k < |errs| ==> errs[r] <= errs[k])
    && (forall k :: 0 <= k < r ==> errs[k] > errs[r])
  }

  lemma {:induction false} MinFromFirstMinimum(errs: seq<int>, j: nat, bestJ: nat, bestError: int)
    requires |errs| == 4 && j <= 4 && bestJ < 4
    requires forall k :: 0 <= k < 4 ==> errs[k] < MaxError
    requires j == 0 ==> bestJ == 0 && bestError == MaxError
    requires j > 0 ==> bestJ < j && bestError == errs[bestJ]
    requires forall k :: 0 <= k < j ==> errs[k] >= bestError
    requires forall k :: 0 <= k < bestJ ==> errs[k] > bestError
    ensures FirstMinimum(errs, MinFrom(errs, j, bestJ, bestError))
    decreases 4 - j
  {
    if j < 4 {
      if errs[j] < bestError {
        MinFromFirstMinimum(errs, j + 1, j, errs[j]);
      } else {
        MinFromFirstMinimum(errs, j + 1, bestJ, bestError);
      }
    }
  }

  /** The entry the inner loop picks for pixel `p`. */
  function Best(p: RGB, entries: seq<RGB>): (j: nat)
    requires |entries| == 4
    ensures j < 4
  {
    MinFrom(Errors(p, entries), 0, 0, MaxError)
  }

  /** The loop picks the first of the entries nearest the pixel. */
  lemma BestIsFirstMinimum(p: RGB, entries: seq<RGB>)
    requires |entries| == 4
    ensures FirstMinimum(Errors(p, entries), Best(p, entries))
  {
    MinFromFirstMinimum(Errors(p, entries), 0, 0, MaxError);
  }

  /** The picked entry has no error exactly when the pixel is one of the
      entries, and then it is the pixel. */
  lemma BestExact(p: RGB, entries: seq<RGB>)
    requires |entries| == 4
    ensures var j := Best(p, entries);
      (Errors(p, entries)[j] == 0 <==> p in entries)
      && (Errors(p, entries)[j] == 0 ==> entries[j] == p)
  {
    BestIsFirstMinimum(p, entries);
    var errs := Errors(p, entries);
    if p in entries {
      var k :| 0 <= k < 4 && entries[k] == p;
      assert errs[k] == 0;
    }
  }

  /** The error of the entry picked for pixel `p`: `best_error` after
      the inner loop. */
  function PickError(p: RGB, entries: seq<RGB>): (e: nat)
    requires |entries| == 4
  {
    Errors(p, entries)[Best(p, entries)]
  }

  /** The picked errors of a sub-block's eight pixels. */
  function Costs(pixels: seq<RGB>, entries: seq<RGB>): (costs: seq<nat>)
    requires |pixels| >= 8 && |entries| == 4
    ensures |costs| == 8
  {
    seq(8, i requires 0 <= i < 8 => PickError(pixels[i], entries))
  }

  /** `soln.error` after the first `n` pixels. */
  function ErrorSum(costs: seq<nat>, n: nat): nat
    requires n <= |costs|
  {
    if n == 0 then 0 else ErrorSum(costs, n - 1) + costs[n - 1]
  }

  /** The running error never falls, so the loop may stop at the first
      prefix that reaches the bound. */
  lemma {:induction false} ErrorSumGrows(costs: seq<nat>, m: nat, n: nat)
    requires m <= n <= |costs|
    ensures ErrorSum(costs, m) <= ErrorSum(costs, n)
    decreases n - m
  {
    if m < n {
      ErrorSumGrows(costs, m, n - 1);
    }
  }

  /** No error over a prefix means no error at any of its pixels. */
  lemma {:induction false} ErrorSumZero(costs: seq<nat>, n: nat)
    requires n <= |costs| && ErrorSum(costs, n) == 0
    ensures forall p :: 0 <= p < n ==> costs[p] == 0
  {
    if n > 0 {
      ErrorSumZero(costs, n - 1);
    }
  }

  /** The eight one-bit masks, `1 << i`. */
  const Masks8: seq<bv8> := [1, 2, 4, 8, 16, 32, 64, 128]

  /** `(byte)(bit << i)` for a bit of 0 or 1. */
  function Shifted(bit: nat, i: nat): bv8
    requires bit < 2 && i < 8
  {
    if bit == 1 then Masks8[i] else 0
  }

  /** Bit `p` of a selector plane. */
  function Bit8(w: bv8, p: nat): (bit: nat)
    requires p < 8
    ensures bit < 2
  {
    if w & Masks8[p] != 0 then 1 else 0
  }

  /** The high (`j / 2`) or low (`j % 2`) bit of a selector. */
  function Half(j: nat, high: bool): (bit: nat)
    ensures j < 4 ==> bit < 2
  {
    if high then j / 2 else j % 2
  }

  /** A selector plane after the first `n` pixels:
      `selectorMSB |= (byte)(best_j / 2 << i)` (or `% 2` for the LSB). */
  function Plane(sels: seq<nat>, n: nat, high: bool): bv8
    requires n <= |sels| <= 8 && Selectors(sels)
  {
    if n == 0 then 0 else Plane(sels, n - 1, high) | Shifted(Half(sels[n - 1], high), n - 1)
  }

  lemma MasksDisjoint(i: nat, p: nat)
    requires i < 8 && p < 8 && i != p
    ensures Masks8[i] & Masks8[p] == 0
  {
  }

  /** Setting bit `i` leaves bit `p` alone. */
  lemma SetBit(w: bv8, v: nat, i: nat, p: nat)
    requires v < 2 && i < 8 && p < 8
    ensures Bit8(w | Shifted(v, i), p) == if p == i then (if v == 1 then 1 else Bit8(w, p)) else Bit8(w, p)
  {
    if p != i {
      MasksDisjoint(i, p);
    }
  }

  /** Each pixel's bit lands in its own place of the plane. */
  lemma {:induction false} PlaneBits(sels: seq<nat>, n: nat, high: bool, p: nat)
    requires n <= |sels| <= 8 && Selectors(sels)
    requires p < 8
    ensures Bit8(Plane(sels, n, high), p) == if p < n then Half(sels[p], high) else 0
  {
    if n > 0 {
      PlaneBits(sels, n - 1, high, p);
      SetBit(Plane(sels, n - 1, high), Half(sels[n - 1], high), n - 1, p);
    }
  }

  /** The selectors of a sub-block's eight pixels. */
  function Picks(pixels: seq<RGB>, entries: seq<RGB>): (sels: seq<nat>)
    requires |pixels| >= 8 && |entries| == 4
    ensures |sels| == 8 && Selectors(sels)
  {
    seq(8, i requires 0 <= i < 8 => Best(pixels[i], entries))
  }

  /** Selectors below 4, as `Plane` and `Run` need them. */
  predicate Selectors(sels: seq<nat>)
  {
    forall i :: 0 <= i < |sels| ==> sels[i] < 4
  }

  /** The second loop of `EvaluateSolution` after `n` pixels, given each
      pixel's picked error `costs[i]` and entry `sels[i]`: each pixel adds
      its error and, unless the running error has reached `bound`, its
      selector bits; `None` once the loop has given up. */
  function Run(costs: seq<nat>, sels: seq<nat>, c: RGB, table: nat, bound: int, n: nat): Option<Solution>
    requires n <= |costs| == |sels| <= 8 && Selectors(sels)
  {
    if n == 0 then Some(Solution(0, c, table, 0, 0))
    else match Run(costs, sels, c, table, bound, n - 1)
      case None => None
      case Some(s) =>
        var error := s.error + costs[n - 1];
        if error >= bound then None
        else Some(s.(error := error, selectorMSB := s.selectorMSB | Shifted(Half(sels[n - 1], true), n - 1),
                                     selectorLSB := s.selectorLSB | Shifted(Half(sels[n - 1], false), n - 1)))
  }

  /** One more pixel, from a loop that has not given up, with its entry
      `j` and error `e`. */
  lemma RunStep(costs: seq<nat>, sels: seq<nat>, c: RGB, table: nat, bound: int, n: nat, s: Solution, j: nat, e: nat)
    requires n < |costs| == |sels| <= 8 && Selectors(sels)
    requires Run(costs, sels, c, table, bound, n) == Some(s) && j == sels[n] && e == costs[n]
    ensures s.error + e >= bound ==> Run(costs, sels, c, table, bound, n + 1) == None
    ensures s.error + e < bound ==>
      Run(costs, sels, c, table, bound, n + 1)
        == Some(s.(error := s.error + e, selectorMSB := s.selectorMSB | Shifted(j / 2, n),
                                         selectorLSB := s.selectorLSB | Shifted(j % 2, n)))
  {
  }

  /** `EvaluateSolution(c, intenTable)` against a best error of `bound`. */
  function Evaluate(pixels: seq<RGB>, limit: int, c: RGB, table: nat, bound: int): Option<Solution>
    requires |pixels| >= 8 && table < 8
  {
    var entries := Entries(c, limit, table);
    Run(Costs(pixels, entries), Picks(pixels, entries), c, table, bound, 8)
  }

  /** What the loop computes, stated without it: the solution that gives
      each pixel its entry, unless the total error reaches the bound. */
  function Outcome(costs: seq<nat>, sels: seq<nat>, c: RGB, table: nat, bound: int, n: nat): Option<Solution>
    requires n <= |costs| == |sels| <= 8 && Selectors(sels)
  {
    var error := ErrorSum(costs, n);
    if error >= bound then None
    else Some(Solution(error, c, table, Plane(sels, n, true), Plane(sels, n, false)))
  }

  /** Stopping early loses nothing: once some prefix of the pixels has
      reached the bound, so has every longer one, so the loop's answer is
      the closed form's. */
  lemma {:induction false} RunOutcome(costs: seq<nat>, sels: seq<nat>, c: RGB, table: nat, bound: int, n: nat)
    requires 0 < n <= |costs| == |sels| <= 8 && Selectors(sels)
    ensures Run(costs, sels, c, table, bound, n) == Outcome(costs, sels, c, table, bound, n)
  {
    ErrorSumGrows(costs, n - 1, n);
    if n > 1 {
      RunOutcome(costs, sels, c, table, bound, n - 1);
    }
    var prev := Run(costs, sels, c, table, bound, n - 1);
    assert prev.Some? ==> prev.value.error == ErrorSum(costs, n - 1);
    if prev.Some? {
      assert prev.value.selectorMSB == Plane(sels, n - 1, true);
      assert prev.value.selectorLSB == Plane(sels, n - 1, false);
    }
  }

  /** A loop that has given up stays given up. */
  lemma {:induction false} RunStops(costs: seq<nat>, sels: seq<nat>, c: RGB, table: nat, bound: int, m: nat, n: nat)
    requires m <= n <= |costs| == |sels| <= 8 && Selectors(sels)
    requires Run(costs, sels, c, table, bound, m).None?
    ensures Run(costs, sels, c, table, bound, n).None?
    decreases n - m
  {
    if m < n {
      RunStops(costs, sels, c, table, bound, m, n - 1);
    }
  }

  /** The selector a solution holds for pixel `p` of its sub-block. */
  function SelectorOf(s: Solution, p: nat): (sel: nat)
    requires p < 8
    ensures sel < 4
  {
    2 * Bit8(s.selectorMSB, p) + Bit8(s.selectorLSB, p)
  }

  /** A solution that the search accepts gives each pixel the first of
      the entries nearest it. */
  lemma EvaluateSelectors(pixels: seq<RGB>, limit: int, c: RGB, table: nat, bound: int, p: nat)
    requires |pixels| >= 8 && table < 8 && p < 8
    requires Evaluate(pixels, limit, c, table, bound).Some?
    ensures var s := Evaluate(pixels, limit, c, table, bound).value;
      var entries := Entries(c, limit, table);
      && SelectorOf(s, p) == Best(pixels[p], entries)
      && FirstMinimum(Errors(pixels[p], entries), SelectorOf(s, p))
      && 0 <= s.error < bound
  {
    var entries := Entries(c, limit, table);
    var sels := Picks(pixels, entries);
    RunOutcome(Costs(pixels, entries), sels, c, table, bound, 8);
    PlaneBits(sels, 8, true, p);
    PlaneBits(sels, 8, false, p);
    BestIsFirstMinimum(pixels[p], entries);
  }

  /** A solution that reproduces its eight pixels exactly. */
  predicate Exact(pixels: seq<RGB>, limit: int, s: Solution)
  {
    && |pixels| >= 8 && 0 <= s.table < 8
    && forall p :: 0 <= p < 8 ==>
         pixels[p] == AddModifier(Scale(s.blockColour, limit), Modifier(s.table, SelectorOf(s, p)))
  }

  /** `EvaluateSolution` against a best error of 1 succeeds only with a
      solution that reproduces every pixel. */
  lemma EvaluateExact(pixels: seq<RGB>, limit: int, c: RGB, table: nat)
    requires |pixels| >= 8 && table < 8
    requires Evaluate(pixels, limit, c, table, 1).Some?
    ensures var s := Evaluate(pixels, limit, c, table, 1).value;
      Exact(pixels, limit, s) && s.blockColour == c && s.table == table && s.error == 0
  {
    var entries := Entries(c, limit, table);
    var s := Evaluate(pixels, limit, c, table, 1).value;
    RunOutcome(Costs(pixels, entries), Picks(pixels, entries), c, table, 1, 8);
    ErrorSumZero(Costs(pixels, entries), 8);
    forall p | 0 <= p < 8
      ensures pixels[p] == AddModifier(Scale(c, limit), Modifier(table, SelectorOf(s, p)))
    {
      EvaluateSelectors(pixels, limit, c, table, 1, p);
      NoCostExact(pixels, entries, p);
    }
  }

  /** A pixel whose picked error is zero is its picked entry. */
  lemma NoCostExact(pixels: seq<RGB>, entries: seq<RGB>, p: nat)
    requires |pixels| >= 8 && |entries| == 4 && p < 8
    requires Costs(pixels, entries)[p] == 0
    ensures pixels[p] == entries[Best(pixels[p], entries)]
  {
    BestExact(pixels[p], entries);
  }

  /** `FindExactMatches`: the solutions of the candidates that reproduce the
      pixels exactly, in candidate order. */
  function ExactMatches(pixels: seq<RGB>, limit: int, colors: seq<RGB>, table: nat): (r: seq<Solution>)
    requires |pixels| >= 8 && table < 8
    ensures |r| <= |colors|
  {
    if colors == [] then []
    else
      var rest := ExactMatches(pixels, limit, colors[1..], table);
      match Evaluate(pixels, limit, colors[0], table, 1)
      case Some(s) => [s] + rest
      case None => rest
  }

  /** Every match is exact and comes from one of the candidates. */
  lemma {:induction false} ExactMatchesExact(pixels: seq<RGB>, limit: int, colors: seq<RGB>, table: nat)
    requires |pixels| >= 8 && table < 8
    ensures forall s :: s in ExactMatches(pixels, limit, colors, table) ==>
      Exact(pixels, limit, s) && s.table == table && s.blockColour in colors && s.error == 0
  {
    if colors != [] {
      var tail := colors[1..];
      ExactMatchesExact(pixels, limit, tail, table);
      if Evaluate(pixels, limit, colors[0], table, 1).Some? {
        EvaluateExact(pixels, limit, colors[0], table);
      }
      assert forall x :: x in tail ==> x in colors;
    }
  }

  /** One more candidate: its match, if any, comes before the rest. */
  lemma ExactMatchesStep(pixels: seq<RGB>, limit: int, colors: seq<RGB>, i: nat, table: nat, r: Option<Solution>)
    requires |pixels| >= 8 && table < 8 && i < |colors|
    requires r == Evaluate(pixels, limit, colors[i], table, 1)
    ensures ExactMatches(pixels, limit, colors[i..], table)
      == (if r.Some? then [r.value] else []) + ExactMatches(pixels, limit, colors[i + 1..], table)
  {
    assert colors[i..][1..] == colors[i + 1..];
  }

  /** Moving one solution from the pending matches to the found ones. */
  lemma AppendOne(found: seq<Solution>, x: Solution, rest: seq<Solution>)
    ensures found + ([x] + rest) == (found + [x]) + rest
  {
  }

  /** `FirstOrDefault` over a sequence of solutions. */
  function FirstOf(ms: seq<Solution>): (r: Option<Solution>)
    ensures r.Some? <==> ms != []
    ensures r.Some? ==> r.value == ms[0]
  {
    if ms == [] then None else Some(ms[0])
  }

  /** `Optimizer`: the pixels of one sub-block, the colour depth and the
      best solution so far. */
  class Optimizer {
    var pixels: seq<RGB>
    var limit: int
    var baseColor: RGB
    var best: Solution

    /** `Optimizer(pixels, limit, error)`. */
    constructor (pixels: seq<RGB>, limit: int, error: int)
      requires |pixels| > 0
      ensures this.pixels == pixels && this.limit == limit
      ensures baseColor == Unscale(Average(pixels), limit) && best == Unsolved(error)
    {
      this.pixels := pixels;
      this.limit := limit;
      baseColor := Unscale(Average(pixels), limit);
      best := Unsolved(error);
    }

    /** `EvaluateSolution`: installs the solution of `c` with `table` and
        answers true when its error stays below the best one. */
    method EvaluateSolution(c: RGB, table: nat) returns (ok: bool)
      requires table < 8 && |pixels| >= 8
      modifies this`best
      ensures var r := Evaluate(pixels, limit, c, table, old(best.error));
        ok == r.Some? && best == (if ok then r.value else old(best))
    {
      var newTable := NewTable(c, limit, table);
      var r := EvaluatePixels(pixels, limit, newTable, c, table, best.error);
      if r.Some? {
        best := r.value;
      }
      return r.Some?;
    }

    /** `FindExactMatches`: each candidate is evaluated against a fresh
        best error of 1, and the solutions that succeed are the matches. */
    method FindExactMatches(colors: seq<RGB>, table: nat) returns (matches: seq<Solution>)
      requires table < 8 && |pixels| >= 8
      modifies this`best
      ensures matches == ExactMatches(pixels, limit, colors, table)
    {
      ghost var px, lim := pixels, limit;
      ghost var all := ExactMatches(px, lim, colors, table);
      matches := [];
      for i := 0 to |colors|
        invariant pixels == px && limit == lim
        invariant matches + ExactMatches(px, lim, colors[i..], table) == all
      {
        best := Unsolved(1);
        ghost var r := Evaluate(px, lim, colors[i], table, 1);
        var ok := EvaluateSolution(colors[i], table);
        ExactMatchesStep(px, lim, colors, i, table, r);
        ghost var rest := ExactMatches(px, lim, colors[i + 1..], table);
        if ok {
          assert best == r.value;
          AppendOne(matches, best, rest);
          matches := matches + [best];
        }
      }
    }

    /** `FindExactMatches(...).FirstOrDefault()`: the lazy enumeration
        stops at the first candidate that matches, and what it returns is
        the first of all the matches. */
    method FirstExactMatch(colors: seq<RGB>, table: nat) returns (r: Option<Solution>)
      requires table < 8 && |pixels| >= 8
      modifies this`best
      ensures r == FirstOf(ExactMatches(pixels, limit, colors, table))
    {
      ghost var px, lim := pixels, limit;
      ghost var all := ExactMatches(px, lim, colors, table);
      for i := 0 to |colors|
        invariant pixels == px && limit == lim
        invariant ExactMatches(px, lim, colors[i..], table) == all
      {
        best := Unsolved(1);
        ghost var r := Evaluate(px, lim, colors[i], table, 1);
        var ok := EvaluateSolution(colors[i], table);
        ExactMatchesStep(px, lim, colors, i, table, r);
        if ok {
          return Some(best);
        }
      }
      return None;
    }
  }

  /** The first loop of `EvaluateSolution`: `newTable[i] = scaledColor + intenTable[i]`. */
  method NewTable(c: RGB, limit: int, table: nat) returns (newTable: array<RGB>)
    requires table < 8
    ensures fresh(newTable) && newTable[..] == Entries(c, limit, table)
  {
    newTable := new RGB[4];
    var scaledColor := Scale(c, limit);
    for i := 0 to 4
      invariant forall k :: 0 <= k < i ==> newTable[k] == AddModifier(scaledColor, Modifier(table, k))
    {
      newTable[i] := AddModifier(scaledColor, Modifier(table, i));
    }
    assert forall k :: 0 <= k < 4 ==> newTable[..][k] == Entries(c, limit, table)[k];
  }

  /** The second loop of `EvaluateSolution`: each pixel takes its nearest
      entry, and the search gives up once the error reaches `bound`. */
  method EvaluatePixels(pixels: seq<RGB>, limit: int, newTable: array<RGB>, c: RGB, table: nat, bound: int)
    returns (r: Option<Solution>)
    requires |pixels| >= 8 && table < 8 && newTable[..] == Entries(c, limit, table)
    ensures r == Evaluate(pixels, limit, c, table, bound)
  {
    ghost var entries := newTable[..];
    ghost var costs, sels := Costs(pixels, entries), Picks(pixels, entries);
    var soln := Solution(0, c, table, 0, 0);
    for i := 0 to 8
      invariant Run(costs, sels, c, table, bound, i) == Some(soln)
    {
      var bestJ, bestError := BestEntry(pixels[i], newTable);
      assert bestJ == sels[i] && bestError == costs[i];
      RunStep(costs, sels, c, table, bound, i, soln, bestJ, bestError);
      var error := soln.error + bestError;
      if error >= bound {
        RunStops(costs, sels, c, table, bound, i + 1, 8);
        return None;
      }
      soln := soln.(error := soln.error + bestError, selectorMSB := soln.selectorMSB | Shifted(bestJ / 2, i),
                                                     selectorLSB := soln.selectorLSB | Shifted(bestJ % 2, i));
    }
    return Some(soln);
  }

  /** The inner `for (j ...)` loop over `newTable`. */
  method BestEntry(p: RGB, newTable: array<RGB>) returns (bestJ: nat, bestError: int)
    requires newTable.Length == 4
    ensures bestJ == Best(p, newTable[..]) && bestError == PickError(p, newTable[..])
  {
    ghost var errs := Errors(p, newTable[..]);
    bestJ, bestError := 0, MaxError;
    for j := 0 to 4
      invariant MinFrom(errs, j, bestJ, bestError) == Best(p, newTable[..])
      invariant j == 0 ==> bestJ == 0 && bestError == MaxError
      invariant j > 0 ==> bestJ < j && bestError == errs[bestJ]
    {
      var error := Diff(p, newTable[j]);
      ErrorsAt(p, newTable[..], j);
      if error < bestError {
        bestError := error;
        bestJ := j;
      }
    }
  }

  /** `RGB.Average`: the channel means, truncated (the source averages in
      floating point, which truncates to the same integers for these
      sums). */
  function Average(pixels: seq<RGB>): RGB
    requires |pixels| > 0
  {
    MakeRGB(SumOf(pixels, 0) / |pixels|, SumOf(pixels, 1) / |pixels|, SumOf(pixels, 2) / |pixels|)
  }

  function Channel(c: RGB, ch: nat): byte
  {
    if ch == 0 then c.r else if ch == 1 then c.g else c.b
  }

  function SumOf(pixels: seq<RGB>, ch: nat): nat
  {
    if pixels == [] then 0 else SumOf(pixels[..|pixels| - 1], ch) + Channel(pixels[|pixels| - 1], ch)
  }
}
