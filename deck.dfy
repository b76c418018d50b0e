/**
 The study set every game mode works on: two parallel sequences of text,
 `terms[i]` paired with `defs[i]`. Duplicates are allowed in both.
 */
module Deck {

  /** A (term, definition) pair, as the matching game and the flashcard replay hold them. */
  datatype Pair = Pair(term: string, def: string)

  /** The pairs `(xs[k], ys[k])`, position by position. */
  function Zip(xs: seq<string>, ys: seq<string>): seq<Pair>
    requires |xs| == |ys|
  {
    seq(|xs|, k requires 0 <= k < |xs| => Pair(xs[k], ys[k]))
  }

  /** The definitions of a sequence of pairs, in order. */
  function DefsOf(pairs: seq<Pair>): seq<string>
  {
    seq(|pairs|, k requires 0 <= k < |pairs| => pairs[k].def)
  }

  /**
   Position of the first occurrence of `x` in `s`: what the modes compute with
   `std::find` followed by `std::distance` to look a term up by value.
   */
  function FirstIndex(s: seq<string>, x: string): (r: nat)
    requires x in s
    ensures r < |s| && s[r] == x
    ensures forall j :: 0 <= j < r ==> s[j] != x
  {
    if s[0] == x then 0 else 1 + FirstIndex(s[1..], x)
  }

  /**
   Every term's first occurrence has a definition, so that `inputDefs[index]`
   stays in bounds in the multiple-choice and timed modes.
   */
  predicate Covers(terms: seq<string>, defs: seq<string>)
  {
    forall i :: 0 <= i < |terms| ==> FirstIndex(terms, terms[i]) < |defs|
  }

  /** The caller in the menu loop always passes equally long sequences, which is enough. */
  lemma EqualLengthsCover(terms: seq<string>, defs: seq<string>)
    requires |terms| <= |defs|
    ensures Covers(terms, defs)
  {
  }

  /** The definition each term is checked against: the one at the term's first occurrence. */
  function Expected(terms: seq<string>, defs: seq<string>): seq<string>
    requires Covers(terms, defs)
  {
    seq(|terms|, i requires 0 <= i < |terms| => defs[FirstIndex(terms, terms[i])])
  }

  /**
   When no term is repeated, every term is checked against its own definition;
   a repeated term is checked against the definition of its first occurrence.
   */
  lemma {:induction false} ExpectedDefinitions(terms: seq<string>, defs: seq<string>)
    requires Covers(terms, defs)
    ensures |Expected(terms, defs)| == |terms|
    ensures forall i, j :: 0 <= i < j < |terms| && terms[i] == terms[j] ==>
              Expected(terms, defs)[j] == Expected(terms, defs)[i]
    ensures (forall i, j :: 0 <= i < j < |terms| ==> terms[i] != terms[j]) ==>
              |terms| <= |defs| && Expected(terms, defs) == defs[..|terms|]
  {
    var e := Expected(terms, defs);
    forall i, j | 0 <= i < j < |terms| && terms[i] == terms[j]
      ensures e[j] == e[i]
    {
      assert FirstIndex(terms, terms[i]) == FirstIndex(terms, terms[j]);
    }
    if forall i, j :: 0 <= i < j < |terms| ==> terms[i] != terms[j] {
      forall i | 0 <= i < |terms|
        ensures FirstIndex(terms, terms[i]) == i
      {
        var f := FirstIndex(terms, terms[i]);
        assert f <= i && terms[f] == terms[i];
      }
      if |terms| > 0 {
        assert FirstIndex(terms, terms[|terms| - 1]) == |terms| - 1;
      }
    }
  }

  /**
   How many answers equal the definition expected at the same position: the
   score of a pass that awards one point per exact (case- and
   whitespace-sensitive) match.
   */
  function Agreements(answers: seq<string>, expected: seq<string>): (r: nat)
    requires |answers| == |expected|
    ensures r <= |answers|
  {
    if |answers| == 0 then 0
    else
      var n := |answers| - 1;
      Agreements(answers[..n], expected[..n]) + (if answers[n] == expected[n] then 1 else 0)
  }

  /** Full marks exactly when every answer is the expected one. */
  lemma {:induction false} FullMarks(answers: seq<string>, expected: seq<string>)
    requires |answers| == |expected|
    ensures Agreements(answers, expected) == |answers| <==> answers == expected
    decreases |answers|
  {
    if |answers| > 0 {
      var n := |answers| - 1;
      FullMarks(answers[..n], expected[..n]);
      assert answers == answers[..n] + [answers[n]];
      assert expected == expected[..n] + [expected[n]];
    }
  }

  /** Extending both sequences by one position adds one point exactly when the two agree there. */
  lemma AgreementsStep(answers: seq<string>, expected: seq<string>, k: nat)
    requires k < |answers| && k < |expected|
    ensures Agreements(answers[..k + 1], expected[..k + 1])
         == Agreements(answers[..k], expected[..k]) + (if answers[k] == expected[k] then 1 else 0)
  {
    assert answers[..k + 1][..k] == answers[..k];
    assert expected[..k + 1][..k] == expected[..k];
  }
}
