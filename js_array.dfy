/**
 * The JavaScript Array built-ins the channel table relies on, on Dafny
 * sequences: `slice`, `splice`, `findIndex` and `reverse`.
 * Relative (negative) indices and out-of-range indices are clamped exactly
 * as ECMAScript does.
 */
module JsArray {

  /** ECMAScript's relative-index normalisation: a negative index counts from the end. */
  function RelativeIndex(i: int, len: nat): (r: nat)
    ensures r <= len
  {
    if i < 0 then (if len + i < 0 then 0 else len + i)
    else if i < len then i
    else len
  }

  /** `s.slice(start, end)` */
  function Slice<T>(s: seq<T>, start: int, end: int): seq<T>
  {
    var from, to := RelativeIndex(start, |s|), RelativeIndex(end, |s|);
    if from < to then s[from..to] else []
  }

  /** The number of elements `s.splice(start, deleteCount, ...)` removes. */
  function SpliceCount(len: nat, start: int, deleteCount: int): (n: nat)
    ensures RelativeIndex(start, len) + n <= len
  {
    var from := RelativeIndex(start, len);
    if deleteCount < 0 then 0
    else if deleteCount > len - from then len - from
    else deleteCount
  }

  /** The array left behind by `s.splice(start, deleteCount, ...items)`. */
  function Splice<T>(s: seq<T>, start: int, deleteCount: int, items: seq<T>): seq<T>
  {
    var from := RelativeIndex(start, |s|);
    s[..from] + items + s[from + SpliceCount(|s|, start, deleteCount)..]
  }

  /** `s.findIndex(p)`: the first index whose element satisfies `p`, or -1. */
  function FindIndex<T>(s: seq<T>, p: T -> bool): (r: int)
    ensures -1 <= r < |s|
    ensures r == -1 <==> forall i :: 0 <= i < |s| ==> !p(s[i])
    ensures 0 <= r ==> p(s[r]) && forall i :: 0 <= i < r ==> !p(s[i])
  {
    if s == [] then -1
    else if p(s[0]) then 0
    else
      var k := FindIndex(s[1..], p);
      if k == -1 then -1 else k + 1
  }

  /** The sequence `s.reverse()` leaves behind. */
  function Reverse<T>(s: seq<T>): (r: seq<T>)
    ensures |r| == |s|
    ensures forall i :: 0 <= i < |s| ==> r[i] == s[|s| - 1 - i]
  {
    if s == [] then [] else [s[|s| - 1]] + Reverse(s[..|s| - 1])
  }

  /** Reversing only reorders: the elements and their counts are kept. */
  lemma {:induction false} ReversePermutes<T>(s: seq<T>)
    ensures multiset(Reverse(s)) == multiset(s)
  {
    if s != [] {
      var init := s[..|s| - 1];
      ReversePermutes(init);
      assert s == init + [s[|s| - 1]];
    }
  }

  /** Reversing twice gives the original sequence back. */
  lemma ReverseInvolutive<T>(s: seq<T>)
    ensures Reverse(Reverse(s)) == s
  {
    var r := Reverse(Reverse(s));
    assert forall i :: 0 <= i < |s| ==> r[i] == s[i];
  }

  /** `a.reverse()`, in place: swaps elements pairwise from both ends inwards. */
  method ReverseInPlace<T>(a: array<T>)
    modifies a
    ensures a[..] == Reverse(old(a[..]))
  {
    ghost var before := a[..];
    var n := a.Length;
    var lo, hi := 0, n;
    while lo + 1 < hi
      invariant 0 <= lo <= hi <= n && lo + hi == n
      invariant forall m :: 0 <= m < lo ==> a[m] == before[n - 1 - m] && a[n - 1 - m] == before[m]
      invariant forall m :: lo <= m < hi ==> a[m] == before[m]
    {
      a[lo], a[hi - 1] := a[hi - 1], a[lo];
      lo, hi := lo + 1, hi - 1;
    }
    assert forall m :: 0 <= m < n ==> a[..][m] == Reverse(before)[m];
  }
}
