/**
 The matching game's shuffle (`std::shuffle` over the pairs, studytool.cpp).
 The shuffle is modelled as the forward Fisher–Yates walk: position `i`, from
 1 up, is swapped with a position in `[0, i]` picked by the engine's draw
 number `i - 1`. The engine is a function from draw numbers to values, so it
 never runs out; how the standard library maps an engine value into `[0, i]`
 is abstracted as `% (i + 1)`.
 */
module Matching {

  /** `s` with the elements at `i` and `j` exchanged. */
  function Swap<T>(s: seq<T>, i: nat, j: nat): (r: seq<T>)
    requires i < |s| && j < |s|
    ensures |r| == |s| && r[i] == s[j] && r[j] == s[i]
    ensures forall k :: 0 <= k < |s| && k != i && k != j ==> r[k] == s[k]
  {
    s[i := s[j]][j := s[i]]
  }

  /** A swap only reorders: the same elements, each as often as before. */
  lemma SwapPermutes<T>(s: seq<T>, i: nat, j: nat)
    requires i < |s| && j < |s|
    ensures multiset(Swap(s, i, j)) == multiset(s)
  {
    var t := s[i := s[j]];
    assert multiset(t) == multiset(s) - multiset{s[i]} + multiset{s[j]};
    assert multiset(t[j := s[i]]) == multiset(t) - multiset{t[j]} + multiset{s[i]};
  }

  /** The Fisher–Yates steps from position `i` on. */
  function FisherYates<T>(s: seq<T>, rng: nat -> nat, i: nat): (r: seq<T>)
    requires 1 <= i
    ensures |r| == |s| && multiset(r) == multiset(s)
    decreases |s| - i
  {
    if i >= |s| then s
    else
      var j := rng(i - 1) % (i + 1);
      SwapPermutes(s, i, j);
      FisherYates(Swap(s, i, j), rng, i + 1)
  }

  /** Shuffles `a` in place; afterwards every element is there as often as before. */
  method ShuffleInPlace<T>(a: array<T>, rng: nat -> nat)
    modifies a
    ensures a[..] == FisherYates(old(a[..]), rng, 1)
    ensures multiset(a[..]) == multiset(old(a[..]))
  {
    var i := 1;
    while i < a.Length
      invariant 1 <= i
      invariant FisherYates(a[..], rng, i) == FisherYates(old(a[..]), rng, 1)
    {
      var j := rng(i - 1) % (i + 1);
      ghost var before := a[..];
      a[i], a[j] := a[j], a[i];
      assert a[..] == Swap(before, i, j);
      i := i + 1;
    }
  }
}
