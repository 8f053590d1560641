/** Replacing a stretch of a sequence. */
module Splices {

  /** The sequence with the elements from i on replaced. */
  function Splice<T>(s: seq<T>, i: nat, b: seq<T>): (r: seq<T>)
    requires i + |b| <= |s|
    ensures |r| == |s|
  {
    s[..i] + b + s[i + |b|..]
  }

  lemma SpliceFrame<T>(s: seq<T>, at: nat, b: seq<T>, lo: nat, hi: nat)
    requires at + |b| <= |s| && lo <= hi <= |s|
    requires at + |b| <= lo || hi <= at || b == []
    ensures Splice(s, at, b)[lo..hi] == s[lo..hi]
  {
    var r := Splice(s, at, b);
    forall k | lo <= k < hi
      ensures r[k] == s[k]
    {}
  }

  lemma SpliceSwap<T>(s: seq<T>, i: nat, a: seq<T>, j: nat, b: seq<T>)
    requires i + |a| <= |s| && j + |b| <= |s|
    requires i + |a| <= j || j + |b| <= i || a == [] || b == []
    ensures Splice(Splice(s, i, a), j, b) == Splice(Splice(s, j, b), i, a)
  {}

  lemma SpliceTwice<T>(s: seq<T>, i: nat, a: seq<T>, b: seq<T>)
    requires i + |a| <= |s| && |b| == |a|
    ensures Splice(Splice(s, i, a), i, b) == Splice(s, i, b)
  {}

  lemma SpliceSelf<T>(s: seq<T>, i: nat, n: nat)
    requires i + n <= |s|
    ensures Splice(s, i, s[i..i + n]) == s
  {}
}
