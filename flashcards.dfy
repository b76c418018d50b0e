/**
 The flashcard session (`StudyTool::playflip`): every card is shown, the user
 may star it, and afterwards may replay the starred cards in the order they
 were starred. This module says what a session does with a given sequence of
 replies; the loop itself is `StudyTool.Playflip`.
 */
module Flashcards {
  import opened Deck
  import opened Replies

  /** Replies that end the star prompt: "star" stars the card, the empty reply moves on. */
  const StarReplies: set<string> := {"star", ""}

  /** Replies that end the restudy prompt. */
  const RestudyReplies: set<string> := {"y", "n"}

  /** The walk over the cards stops at the end of the shorter of the two sequences. */
  function CardCount(terms: seq<string>, defs: seq<string>): nat
  {
    if |terms| <= |defs| then |terms| else |defs|
  }

  /** Positions of the cards whose star prompt ended with "star", in increasing order. */
  function StarredAt(decisions: seq<string>): (r: seq<nat>)
    ensures |r| <= |decisions|
    ensures forall k :: 0 <= k < |r| ==> r[k] < |decisions| && decisions[r[k]] == "star"
    ensures forall k, l :: 0 <= k < l < |r| ==> r[k] < r[l]
    ensures forall i :: 0 <= i < |decisions| && decisions[i] == "star" ==> i in r
  {
    if |decisions| == 0 then []
    else
      var n := |decisions| - 1;
      StarredAt(decisions[..n]) + (if decisions[n] == "star" then [n] else [])
  }

  /** What appending at every "star" decision builds from `s`: its elements at the starred positions. */
  function Starred<T>(s: seq<T>, decisions: seq<string>): (r: seq<T>)
    requires |decisions| <= |s|
    ensures |r| == |StarredAt(decisions)|
    ensures forall k :: 0 <= k < |r| ==> r[k] == s[StarredAt(decisions)[k]]
  {
    if |decisions| == 0 then []
    else
      var n := |decisions| - 1;
      Starred(s, decisions[..n]) + (if decisions[n] == "star" then [s[n]] else [])
  }

  /** One more decision appends the card at that position exactly when it is "star". */
  lemma StarredStep<T>(s: seq<T>, decisions: seq<string>, decision: string)
    requires |decisions| < |s|
    ensures Starred(s, decisions + [decision])
         == Starred(s, decisions) + (if decision == "star" then [s[|decisions|]] else [])
  {
    assert (decisions + [decision])[..|decisions|] == decisions;
  }

  /** What a session ends with: the two starred lists and the cards replayed on "y". */
  datatype Flip = Flip(starred: seq<string>, starredDefs: seq<string>, replayed: seq<Pair>)

  /**
   The session for the given replies: one star decision per card, then one
   restudy decision; the replay happens only on "y".
   */
  function FlipSession(terms: seq<string>, defs: seq<string>, replies: seq<string>): Run<Flip>
  {
    match Answers(replies, 0, StarReplies, CardCount(terms, defs))
    case None => Unfinished
    case Some((decisions, p)) =>
      var starred := Starred(terms, decisions);
      var starredDefs := Starred(defs, decisions);
      match FirstAccepted(replies, p, RestudyReplies)
      case None => Unfinished
      case Some(q) =>
        Finished(Flip(starred, starredDefs, if replies[q] == "y" then Zip(starred, starredDefs) else []))
  }

  /**
   In a finished session the two starred lists are parallel, in-order
   subsequences of the cards: the k-th starred term and the k-th starred
   definition come from the same card, the cards in the order they were shown,
   and that card's decision was "star". The decisions are the first replies
   that were "star" or empty, one per card; every other reply was asked again.
   */
  lemma StarredCards(terms: seq<string>, defs: seq<string>, replies: seq<string>)
    requires FlipSession(terms, defs, replies).Finished?
    ensures CardCount(terms, defs) <= |Filter(replies, StarReplies)|
    ensures var f := FlipSession(terms, defs, replies).value;
            var decisions := Filter(replies, StarReplies)[..CardCount(terms, defs)];
            var at := StarredAt(decisions);
            && |f.starred| == |f.starredDefs| == |at|
            && (forall k :: 0 <= k < |at| ==>
                  at[k] < CardCount(terms, defs) && decisions[at[k]] == "star" &&
                  f.starred[k] == terms[at[k]] && f.starredDefs[k] == defs[at[k]])
            && (forall k, l :: 0 <= k < l < |at| ==> at[k] < at[l])
  {
    assert replies[0..] == replies;
    AnswersSkipRejected(replies, 0, StarReplies, CardCount(terms, defs));
  }

  /**
   The restudy promise. The star decisions end at position `p`, just after
   the card count's-th "star" or empty reply. The reply that ends the restudy
   prompt is the first "y" or "n" from there on. On "y" every starred card is
   replayed, in the order starred; on "n" nothing is.
   */
  lemma RestudyReplay(terms: seq<string>, defs: seq<string>, replies: seq<string>)
    requires FlipSession(terms, defs, replies).Finished?
    ensures var f := FlipSession(terms, defs, replies).value;
            var p := Answers(replies, 0, StarReplies, CardCount(terms, defs)).value.1;
            && p <= |replies|
            && CardCount(terms, defs) <= |Filter(replies, StarReplies)|
            && Filter(replies[..p], StarReplies) == Filter(replies, StarReplies)[..CardCount(terms, defs)]
            && FirstAccepted(replies, p, RestudyReplies).Some?
            && var q := FirstAccepted(replies, p, RestudyReplies).value;
               && p <= q < |replies|
               && (replies[q] == "y" || replies[q] == "n")
               && (forall k :: p <= k < q ==> replies[k] != "y" && replies[k] != "n")
               && (replies[q] == "y" ==> f.replayed == Zip(f.starred, f.starredDefs))
               && (replies[q] == "n" ==> f.replayed == [])
  {
    var count := CardCount(terms, defs);
    assert replies[0..] == replies;
    AnswersSkipRejected(replies, 0, StarReplies, count);
    var p := Answers(replies, 0, StarReplies, count).value.1;
    assert replies[0..p] == replies[..p];
  }
}
