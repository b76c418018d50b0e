/**
 User input as the game modes see it. A mode reads a sequence of replies (one
 per `getline`, or one token per `cin >> guess`). A prompt that validates its
 reply keeps asking until it gets an acceptable one. When the supplied replies
 run out before a mode is done, the mode is `Unfinished`: the real program
 would still be waiting at a prompt.
 */
module Replies {

  datatype Option<T> = None | Some(value: T)

  /** What a game mode produced, or `Unfinished` when it ran out of replies or random draws. */
  datatype Run<T> = Finished(value: T) | Unfinished

  /** Position of the first reply at or after `from` that the prompt accepts. */
  function FirstAccepted<T(==)>(replies: seq<T>, from: nat, accepted: set<T>): (r: Option<nat>)
    ensures r.Some? ==> from <= r.value < |replies| && replies[r.value] in accepted
    ensures r.Some? ==> forall q :: from <= q < r.value ==> replies[q] !in accepted
    ensures r.None? ==> forall q :: from <= q < |replies| ==> replies[q] !in accepted
    decreases |replies| - from
  {
    if from >= |replies| then None
    else if replies[from] in accepted then Some(from)
    else FirstAccepted(replies, from + 1, accepted)
  }

  /**
   A prompt asked again after every unacceptable reply: returns the position of
   the reply that ends it.
   */
  method AwaitReply<T(==)>(replies: seq<T>, from: nat, accepted: set<T>) returns (r: Option<nat>)
    ensures r == FirstAccepted(replies, from, accepted)
  {
    var p := from;
    while p < |replies| && replies[p] !in accepted
      invariant from <= p
      invariant FirstAccepted(replies, p, accepted) == FirstAccepted(replies, from, accepted)
      decreases |replies| - p
    {
      p := p + 1;
    }
    r := if p < |replies| then Some(p) else None;
  }

  /** The replies a prompt accepts, in order. */
  function Filter<T(==)>(replies: seq<T>, accepted: set<T>): (r: seq<T>)
    ensures |r| <= |replies|
    ensures forall k :: 0 <= k < |r| ==> r[k] in accepted
  {
    if |replies| == 0 then []
    else
      var n := |replies| - 1;
      Filter(replies[..n], accepted) + (if replies[n] in accepted then [replies[n]] else [])
  }

  /**
   The next `count` replies that a validating prompt accepts, asked `count`
   times in a row from position `from`, with the position just after the last
   one read; `None` when the replies run out first.
   */
  function Answers<T(==)>(replies: seq<T>, from: nat, accepted: set<T>, count: nat): (r: Option<(seq<T>, nat)>)
    ensures r.Some? ==> |r.value.0| == count && from <= r.value.1
    ensures r.Some? && count > 0 ==> r.value.1 <= |replies|
  {
    if count == 0 then Some(([], from))
    else
      match Answers(replies, from, accepted, count - 1)
      case None => None
      case Some((xs, p)) =>
        match FirstAccepted(replies, p, accepted)
        case None => None
        case Some(q) => Some((xs + [replies[q]], q + 1))
  }

  lemma {:induction false} FilterAppend<T>(a: seq<T>, b: seq<T>, accepted: set<T>)
    ensures Filter(a + b, accepted) == Filter(a, accepted) + Filter(b, accepted)
    decreases |b|
  {
    if |b| > 0 {
      var n := |b| - 1;
      assert (a + b)[..|a + b| - 1] == a + b[..n];
      FilterAppend(a, b[..n], accepted);
    } else {
      assert a + b == a;
    }
  }

  lemma {:induction false} FilterRejected<T>(s: seq<T>, accepted: set<T>)
    requires forall k :: 0 <= k < |s| ==> s[k] !in accepted
    ensures Filter(s, accepted) == []
    decreases |s|
  {
    if |s| > 0 {
      FilterRejected(s[..|s| - 1], accepted);
    }
  }

  /** Splitting the replies at `p` splits the accepted ones there too. */
  lemma FilterSplit<T>(replies: seq<T>, from: nat, p: nat, accepted: set<T>)
    requires from <= p <= |replies|
    ensures Filter(replies[from..], accepted) == Filter(replies[from..p], accepted) + Filter(replies[p..], accepted)
  {
    assert replies[from..] == replies[from..p] + replies[p..];
    FilterAppend(replies[from..p], replies[p..], accepted);
  }

  /** Rejected replies from `p` up to an accepted one at `q` add just that one. */
  lemma FilterStep<T>(replies: seq<T>, from: nat, p: nat, q: nat, accepted: set<T>)
    requires from <= p <= q < |replies|
    requires forall k :: p <= k < q ==> replies[k] !in accepted
    requires replies[q] in accepted
    ensures Filter(replies[from..q + 1], accepted) == Filter(replies[from..p], accepted) + [replies[q]]
  {
    FilterRejected(replies[p..q], accepted);
    assert replies[from..q + 1] == (replies[from..p] + replies[p..q]) + [replies[q]];
    FilterAppend(replies[from..p] + replies[p..q], [replies[q]], accepted);
    FilterAppend(replies[from..p], replies[p..q], accepted);
    assert [replies[q]][..0] == [];
  }

  /** When no reply from `p` on is accepted, the accepted ones from `from` all come before `p`. */
  lemma NoneLeft<T>(replies: seq<T>, from: nat, p: nat, accepted: set<T>)
    requires from <= p <= |replies|
    requires forall k :: p <= k < |replies| ==> replies[k] !in accepted
    ensures Filter(replies[from..], accepted) == Filter(replies[from..p], accepted)
  {
    FilterSplit(replies, from, p, accepted);
    FilterRejected(replies[p..], accepted);
  }

  /**
   When the replies read so far (up to `p`) are a prefix of the accepted ones
   and the next accepted one is at `q`, the prefix grows by that reply.
   */
  lemma OneMore<T>(replies: seq<T>, from: nat, p: nat, q: nat, accepted: set<T>, xs: seq<T>)
    requires from <= p <= q < |replies|
    requires forall k :: p <= k < q ==> replies[k] !in accepted
    requires replies[q] in accepted
    requires xs == Filter(replies[from..p], accepted)
    ensures xs + [replies[q]] == Filter(replies[from..q + 1], accepted)
    ensures |xs| < |Filter(replies[from..], accepted)|
    ensures xs + [replies[q]] == Filter(replies[from..], accepted)[..|xs| + 1]
  {
    FilterStep(replies, from, p, q, accepted);
    FilterSplit(replies, from, q + 1, accepted);
  }

  /**
   Re-prompting skips exactly the rejected replies: asking `count` times
   succeeds iff at least `count` of the remaining replies are acceptable, and
   then yields the first `count` of them, in order.
   */
  lemma {:induction false} AnswersSkipRejected<T>(replies: seq<T>, from: nat, accepted: set<T>, count: nat)
    requires from <= |replies|
    ensures Answers(replies, from, accepted, count).Some? <==> count <= |Filter(replies[from..], accepted)|
    ensures Answers(replies, from, accepted, count).Some? ==>
              var (xs, p) := Answers(replies, from, accepted, count).value;
              from <= p <= |replies| &&
              xs == Filter(replies[from..p], accepted) &&
              xs == Filter(replies[from..], accepted)[..count]
    decreases count
  {
    if count == 0 {
      assert replies[from..from] == [];
    } else {
      AnswersSkipRejected(replies, from, accepted, count - 1);
      var prev := Answers(replies, from, accepted, count - 1);
      if prev.None? {
        assert Answers(replies, from, accepted, count).None?;
      } else {
        var (xs, p) := prev.value;
        var next := FirstAccepted(replies, p, accepted);
        if next.None? {
          assert Answers(replies, from, accepted, count).None?;
          NoneLeft(replies, from, p, accepted);
        } else {
          var q := next.value;
          assert Answers(replies, from, accepted, count) == Some((xs + [replies[q]], q + 1));
          OneMore(replies, from, p, q, accepted, xs);
        }
      }
    }
  }

  /** The replies read by `count` prompts from the start are the first `count` accepted replies. */
  lemma AnswersFromStart<T>(replies: seq<T>, accepted: set<T>, count: nat, xs: seq<T>, p: nat)
    requires Answers(replies, 0, accepted, count) == Some((xs, p))
    ensures count <= |Filter(replies, accepted)|
    ensures forall i :: 0 <= i < count ==> Filter(replies, accepted)[i] == xs[i]
  {
    assert replies[0..] == replies;
    AnswersSkipRejected(replies, 0, accepted, count);
  }

  /** Asking once more reads the next accepted reply. */
  lemma AnswersStep<T>(replies: seq<T>, from: nat, accepted: set<T>, count: nat, xs: seq<T>, p: nat)
    requires Answers(replies, from, accepted, count) == Some((xs, p))
    ensures FirstAccepted(replies, p, accepted).None? ==> Answers(replies, from, accepted, count + 1).None?
    ensures FirstAccepted(replies, p, accepted).Some? ==>
              var q := FirstAccepted(replies, p, accepted).value;
              Answers(replies, from, accepted, count + 1) == Some((xs + [replies[q]], q + 1))
  {
  }

  /** Once the replies have run out, asking more times cannot succeed either. */
  lemma {:induction false} AnswersRunOut<T>(replies: seq<T>, from: nat, accepted: set<T>, count: nat, more: nat)
    requires count <= more
    requires Answers(replies, from, accepted, count).None?
    ensures Answers(replies, from, accepted, more).None?
    decreases more - count
  {
    if count < more {
      AnswersRunOut(replies, from, accepted, count, more - 1);
    }
  }
}
