/** Facts about sequence concatenation and slicing that several modules use in their proofs. */
module Sequences {

  /** Concatenation regrouped from the right. */
  lemma Regroup<X>(a: seq<X>, b: seq<X>, c: seq<X>, d: seq<X>)
    ensures a + (b + c + d) == a + b + c + d
  {
  }

  /** A slice that lies wholly in the second half of a concatenation. */
  lemma SliceOfAppend<X>(p: seq<X>, q: seq<X>, lo: int, hi: int)
    requires |p| <= lo <= hi <= |p| + |q|
    ensures (p + q)[lo..hi] == q[lo - |p|..hi - |p|]
  {
  }

  /** A slice of a suffix, as a slice of the whole. */
  lemma SliceOfSlice<X>(s: seq<X>, a: int, lo: int, hi: int)
    requires 0 <= a <= |s| && 0 <= lo <= hi <= |s| - a
    ensures s[a..][lo..hi] == s[a + lo..a + hi]
  {
  }
}
