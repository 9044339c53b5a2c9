/** The back-reference copy shared by the LZ77-family decoders (`LZ10`,
    `LZ11` and the LZSS of the older CriWare decoder): bytes appended one at a
    time, each copied from a fixed distance behind the end of the output. */
module Lz77 {
  import opened Primitives

  /** `n` bytes appended one at a time, each a copy of the byte `disp` places
      before the end of what has been written so far. */
  function CopyBack(out: seq<byte>, disp: nat, n: nat): (r: seq<byte>)
    requires 1 <= disp <= |out|
    ensures |r| == |out| + n && r[..|out|] == out
    decreases n
  {
    if n == 0 then out
    else
      var grown := out + [out[|out| - disp]];
      var r := CopyBack(grown, disp, n - 1);
      assert r[..|out|] == r[..|grown|][..|out|];
      r
  }

  /** The bytes a copy appends repeat the `disp` bytes before them: each is
      the byte `disp` places earlier, so an overlapping copy repeats a pattern. */
  lemma {:induction false} CopyBackRepeats(out: seq<byte>, disp: nat, n: nat)
    requires 1 <= disp <= |out|
    ensures var r := CopyBack(out, disp, n);
      forall k :: |out| <= k < |r| ==> r[k] == r[k - disp]
    decreases n
  {
    if n > 0 {
      var grown := out + [out[|out| - disp]];
      CopyBackRepeats(grown, disp, n - 1);
      var r := CopyBack(out, disp, n);
      assert r == CopyBack(grown, disp, n - 1);
      assert r[..|grown|] == grown;
      forall k | |out| <= k < |r|
        ensures r[k] == r[k - disp]
      {
        if k == |out| {
          assert r[k] == grown[k] && r[k - disp] == grown[k - disp];
        }
      }
    }
  }

  /** `CopyBackRepeats` at one position. */
  lemma CopyBackAt(out: seq<byte>, disp: nat, n: nat, k: nat)
    requires 1 <= disp <= |out| && |out| <= k < |out| + n
    ensures CopyBack(out, disp, n)[k] == CopyBack(out, disp, n)[k - disp]
  {
    CopyBackRepeats(out, disp, n);
  }
}
