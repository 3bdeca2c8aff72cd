/** Overwriting a stretch of a sequence. */
module Splicing {
  function Splice<T>(s: seq<T>, at: nat, src: seq<T>): (r: seq<T>)
    requires at + |src| <= |s|
    ensures |r| == |s|
  {
    seq(|s|, i requires 0 <= i < |s| => if at <= i < at + |src| then src[i - at] else s[i])
  }

  /** One stretch and the next one. */
  lemma SpliceMore<T>(s: seq<T>, at: nat, src: seq<T>, m: nat, n: nat)
    requires m <= n <= |src| && at + |src| <= |s|
    ensures Splice(Splice(s, at, src[..m]), at + m, src[m..n]) == Splice(s, at, src[..n])
  {
    assert src[..m] + src[m..n] == src[..n];
  }

  lemma SpliceAppend<T>(s: seq<T>, a: seq<T>, b: seq<T>)
    requires |a| + |b| <= |s|
    ensures Splice(Splice(s, 0, a), |a|, b) == Splice(s, 0, a + b)
  {
  }

  lemma SpliceNone<T>(s: seq<T>, at: nat)
    requires at <= |s|
    ensures Splice(s, at, []) == s
  {
  }
}
