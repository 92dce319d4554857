/** Facts about walking through a sequence that is known piece by piece. */
module Slices {

  lemma Assoc<T>(a: seq<T>, b: seq<T>, c: seq<T>)
    ensures (a + b) + c == a + (b + c)
  {
  }

  lemma Regroup<T>(a: seq<T>, b: seq<T>, t: seq<T>, h: seq<T>, x: seq<T>, y: seq<T>)
    ensures a + (b + ((t + h) + x)) + y == (a + b + t) + (h + x + y)
  {
  }

  /** If a stands at position c of s, its elements can be read off there and b stands behind it. */
  lemma Advance<T>(s: seq<T>, c: nat, a: seq<T>, b: seq<T>)
    requires c <= |s| && s[c..] == a + b
    ensures c + |a| <= |s| && s[c + |a|..] == b
    ensures forall k :: 0 <= k < |a| ==> s[k + c] == a[k]
  {
  }
}
