/**
 * Array operations of JavaScript used on the core's lists: removal with
 * `Array.prototype.splice`, and the subsequence order that `filter` keeps.
 */
module SeqOps {

  function Min(a: int, b: int): int { if a <= b then a else b }

  /**
   * Where `splice(start, …)` begins on an array of length `len`: a
   * negative start counts back from the end, and the result is clamped
   * into `0..len`.
   */
  function SpliceStart(len: nat, start: int): (st: nat)
    ensures st <= len
    ensures 0 <= start <= len ==> st == start
    ensures start > len ==> st == len
    ensures start < 0 && 0 <= len + start ==> st == len + start
    ensures len + start < 0 ==> st == 0
  {
    if start < 0 then (if len + start < 0 then 0 else len + start)
    else Min(start, len)
  }

  /** How many elements `splice(start, deleteCount)` removes. */
  function SpliceCount(len: nat, start: int, deleteCount: nat): (n: nat)
    ensures SpliceStart(len, start) + n <= len
    ensures n <= deleteCount
    ensures n < deleteCount ==> SpliceStart(len, start) + n == len
  {
    Min(deleteCount, len - SpliceStart(len, start))
  }

  /**
   * The array left behind by `a.splice(start, deleteCount)`: the elements
   * before the start keep their places, the removed run is gone, and the
   * elements after it move down by the number removed.
   */
  function Splice<T>(s: seq<T>, start: int, deleteCount: nat): (r: seq<T>)
    ensures var st, n := SpliceStart(|s|, start), SpliceCount(|s|, start, deleteCount);
      && |r| == |s| - n
      && (forall k :: 0 <= k < st ==> r[k] == s[k])
      && (forall k :: st <= k < |r| ==> r[k] == s[k + n])
  {
    var st := SpliceStart(|s|, start);
    s[..st] + s[st + SpliceCount(|s|, start, deleteCount)..]
  }

  /** Removing at an index inside the array drops exactly that run; at or past the end nothing changes. */
  lemma SpliceAt<T>(s: seq<T>, i: nat, deleteCount: nat)
    ensures i >= |s| ==> Splice(s, i, deleteCount) == s
    ensures i < |s| ==> Splice(s, i, deleteCount) == s[..i] + s[Min(i + deleteCount, |s|)..]
  {
  }

  /** Two starts that clamp to the same position remove the same run. */
  lemma SpliceSameStart<T>(s: seq<T>, start: int, other: int, deleteCount: nat)
    requires SpliceStart(|s|, start) == SpliceStart(|s|, other)
    ensures Splice(s, start, deleteCount) == Splice(s, other, deleteCount)
  {
  }

  /** `splice` only removes: every element left was in the array before. */
  lemma SpliceKeepsElements<T>(s: seq<T>, start: int, deleteCount: nat)
    ensures forall x :: x in Splice(s, start, deleteCount) ==> x in s
  {
    var r := Splice(s, start, deleteCount);
    forall x | x in r ensures x in s {
      var k :| 0 <= k < |r| && r[k] == x;
    }
  }

  /** `a` is `b` with some elements left out and the rest in order. */
  predicate IsSubseq<T(==)>(a: seq<T>, b: seq<T>)
    decreases |b|
  {
    |a| == 0 || (|b| > 0 && ((a[0] == b[0] && IsSubseq(a[1..], b[1..])) || IsSubseq(a, b[1..])))
  }

  /** A subsequence is never longer and holds only elements of the sequence. */
  lemma {:induction false} SubseqElements<T>(a: seq<T>, b: seq<T>)
    requires IsSubseq(a, b)
    ensures |a| <= |b|
    ensures forall x :: x in a ==> x in b
    decreases |b|
  {
    if |a| > 0 {
      if a[0] == b[0] && IsSubseq(a[1..], b[1..]) {
        SubseqElements(a[1..], b[1..]);
        assert forall x :: x in a ==> x == a[0] || x in a[1..];
      } else {
        SubseqElements(a, b[1..]);
      }
    }
  }

  /** A sequence is what comes before position `k`, the two elements at `k`, and what comes after them. */
  lemma AroundPair<T>(s: seq<T>, k: nat)
    requires k + 2 <= |s|
    ensures s == s[..k] + [s[k], s[k + 1]] + s[k + 2..]
  {
  }

  /** The parts before and after a middle element of a concatenation. */
  lemma AroundOne<T>(a: seq<T>, x: T, b: seq<T>)
    ensures (a + [x] + b)[..|a|] == a && (a + [x] + b)[|a| + 1..] == b
  {
  }

  /** Splicing two entries out at the last position of a sequence removes just that last entry. */
  lemma SpliceLast<T>(s: seq<T>, x: T)
    ensures Splice(s + [x], |s|, 2) == s
  {
    SpliceAt(s + [x], |s|, 2);
    assert (s + [x])[..|s|] == s;
  }

  /** The middle part of a concatenation, cut back out. */
  lemma MiddleSlice<T>(head: seq<T>, body: seq<T>, tail: seq<T>, post: seq<T>)
    ensures (head + body + tail + post)[|head|..|head| + |body|] == body
  {
    var s := head + body + tail + post;
    assert forall i :: 0 <= i < |body| ==> s[|head|..|head| + |body|][i] == body[i];
  }

  /** A subsequence of a tail is a subsequence of the whole. */
  lemma SkipHead<T>(a: seq<T>, x: T, b: seq<T>)
    requires IsSubseq(a, b)
    ensures IsSubseq(a, [x] + b)
  {
    assert ([x] + b)[1..] == b;
  }

  /** The first `n` elements of the suffix from `i` are the slice from `i` of length `n`. */
  lemma SuffixPrefix<T>(s: seq<T>, i: nat, n: nat)
    requires i + n <= |s|
    ensures s[i..][..n] == s[i..i + n]
  {
  }
}
