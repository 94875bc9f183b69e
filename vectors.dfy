/** The `std::vector` operations the editor uses on its lists, over
    sequences. */
module Vectors {

  /** `v.erase(v.begin() + i)`: removes element `i` and keeps the others in
      their order. */
  function RemoveAt<T>(s: seq<T>, i: nat): (r: seq<T>)
    requires i < |s|
    ensures |r| == |s| - 1
    ensures forall j :: 0 <= j < i ==> r[j] == s[j]
    ensures forall j :: i <= j < |r| ==> r[j] == s[j + 1]
  {
    s[..i] + s[i + 1..]
  }

  /** Removing the last element is dropping it. */
  lemma RemoveLast<T>(s: seq<T>)
    requires |s| > 0
    ensures RemoveAt(s, |s| - 1) == s[..|s| - 1]
  {
  }

  /** Removing after appending at the same position gives the list back. */
  lemma RemoveAppended<T>(s: seq<T>, x: T)
    ensures RemoveAt(s + [x], |s|) == s
  {
    assert (s + [x])[..|s|] == s;
  }
}
