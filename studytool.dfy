/**
 The study tool (`class StudyTool`, studytool.cpp) and its four game modes:
 flashcards, multiple choice, matching and the timed challenge. Every mode
 reads the terms and definitions it is given, asks the user, and returns what
 it computed. The console, the random generator and the clock are inputs
 here: the user's replies, the random draws (or, for the shuffle, the random
 engine) and the clock readings.
 */
module StudyTool {
  import opened Deck
  import opened Replies
  import opened Flashcards
  import opened MultipleChoice
  import opened Matching

  /** The matching game's result: the pairs in the order asked, and the score. */
  datatype Matched = Matched(shuffled: seq<Pair>, score: nat)

  /** The timed challenge's result: how many terms were asked, and the score. */
  datatype Timed = Timed(asked: nat, score: nat)

  /**
   The challenge's deadline: reading 0 is taken at the start, the limit is in
   seconds, and `steady_clock` counts nanoseconds.
   */
  function Deadline(clock: nat -> int, timeLimit: int): int
  {
    clock(0) + timeLimit * 1_000_000_000
  }

  /**
   One multiple-choice round: the question for the term whose first
   occurrence is at `index` in a deck of `n` terms, drawn from draw `d` on with
   the given distractor rule, then the guess prompt, re-asked from guess `pos`
   until it reads a number from 1 to 4. Yields the round, the next unused draw
   and the next unread guess.
   */
  method PlayRound(defs: seq<string>, index: nat, n: nat, draws: seq<nat>, d: nat,
                   guesses: seq<Option<int>>, pos: nat, rule: DistractorRule)
    returns (r: Option<(Round, nat, nat)>)
    requires 1 <= n && index < |defs|
    ensures r.Some? ==> d < r.value.1 <= |draws|
    ensures r.Some? ==> FirstAccepted(guesses, pos, ValidGuesses) == Some(r.value.2 - 1) &&
                        guesses[r.value.2 - 1] == Some(r.value.0.guess)
    ensures FirstAccepted(guesses, pos, ValidGuesses).None? || |draws| < d + RangeCycle(n) - 1 ==> r.None?
    ensures r.None? <==>
              QuestionFrom(defs, index, n, draws, d, rule).OutOfDraws? || FirstAccepted(guesses, pos, ValidGuesses).None?
    ensures r.Some? ==> QuestionFrom(defs, index, n, draws, d, rule) == Drawn(r.value.0.question, r.value.1)
  {
    var built := BuildQuestion(defs, index, n, draws, d, rule);
    if built.OutOfDraws? {
      return None;
    }
    var answered := AwaitReply(guesses, pos, ValidGuesses);
    if answered.None? {
      return None;
    }
    var guess := guesses[answered.value].value;
    r := Some((Round(built.value, guess), built.next, answered.value + 1));
  }

  /**
   The round loop of the multiple-choice game: one round per term, in deck
   order, each drawing on from where the previous one stopped. The ghost
   `ask` is the question builder the game is stated with; it must build, for
   every term, the question `QuestionFrom` builds.
   */
  method PlayQuiz(inputTerms: seq<string>, inputDefs: seq<string>, draws: seq<nat>, guesses: seq<Option<int>>,
                  rule: DistractorRule, ghost ask: (nat, nat) -> Drawn<Question>) returns (r: Run<Quiz>)
    requires Covers(inputTerms, inputDefs)
    requires forall k: nat, d: nat
               {:trigger QuestionFrom(inputDefs, FirstIndex(inputTerms, inputTerms[k]), |inputTerms|, draws, d, rule)} ::
               k < |inputTerms| ==>
               ask(k, d) == QuestionFrom(inputDefs, FirstIndex(inputTerms, inputTerms[k]), |inputTerms|, draws, d, rule)
    ensures r == Scored(RoundsFrom(inputTerms, ask, guesses, 0, 0, 0, []))
  {
    var score := 0;
    var rounds: seq<Round> := [];
    var d := 0;
    var pos := 0;
    ghost var game := RoundsFrom(inputTerms, ask, guesses, 0, 0, 0, []);
    for i := 0 to |inputTerms|
      invariant |rounds| == i
      invariant score == Correct(rounds)
      invariant RoundsFrom(inputTerms, ask, guesses, i, d, pos, rounds) == game
    {
      var index := FirstIndex(inputTerms, inputTerms[i]);
      var round := PlayRound(inputDefs, index, |inputTerms|, draws, d, guesses, pos, rule);
      if round.None? {
        RoundStopped(inputTerms, ask, guesses, i, d, pos, rounds);
        return Unfinished;
      }
      var (played, next, nextPos) := round.value;
      RoundPlayed(inputTerms, ask, guesses, i, d, pos, rounds, played, next, nextPos);
      if played.question.correct == played.guess {
        score := score + 1;
      }
      assert (rounds + [played])[..i] == rounds;
      rounds := rounds + [played];
      d, pos := next, nextPos;
    }
    r := Finished(Quiz(rounds, score));
  }

  /** The matching game's pairs, built term by term into a fresh array. */
  method PairUp(inputTerms: seq<string>, inputDefs: seq<string>) returns (a: array<Pair>)
    requires |inputTerms| == |inputDefs|
    ensures fresh(a) && a[..] == Zip(inputTerms, inputDefs)
  {
    a := new Pair[|inputTerms|];
    for i := 0 to |inputTerms|
      invariant forall k :: 0 <= k < i ==> a[k] == Pair(inputTerms[k], inputDefs[k])
    {
      a[i] := Pair(inputTerms[i], inputDefs[i]);
    }
  }

  /**
   The matching game's scoring pass: one typed definition per pair, in
   order, a point for each exact match. `None` when the answers run out.
   */
  method ScoreMatches(a: array<Pair>, answers: seq<string>) returns (r: Option<nat>)
    ensures r.Some? <==> a.Length <= |answers|
    ensures r.Some? ==> r.value == Agreements(answers[..a.Length], DefsOf(a[..]))
  {
    var score := 0;
    for k := 0 to a.Length
      invariant k <= |answers|
      invariant score == Agreements(answers[..k], DefsOf(a[..])[..k])
    {
      if k >= |answers| {
        return None;
      }
      var userAnswer := answers[k];
      if userAnswer == a[k].def {
        score := score + 1;
      }
      AgreementsStep(answers, DefsOf(a[..]), k);
    }
    assert DefsOf(a[..])[..a.Length] == DefsOf(a[..]);
    r := Some(score);
  }

  /**
   The first pass of the flashcards: one star prompt per card while both
   sequences last, re-asked until the reply is "star" (the card goes on both
   starred lists) or empty. Yields the starred lists and the position of the
   next unread reply.
   */
  method StarPass(inputTerms: seq<string>, inputDefs: seq<string>, replies: seq<string>)
    returns (r: Option<(seq<string>, seq<string>, nat)>)
    ensures var a := Answers(replies, 0, StarReplies, CardCount(inputTerms, inputDefs));
            && (r.None? <==> a.None?)
            && (a.Some? ==> r == Some((Starred(inputTerms, a.value.0), Starred(inputDefs, a.value.0), a.value.1)))
  {
    var starred: seq<string> := [];
    var starredDefs: seq<string> := [];
    var termIt, defIt := 0, 0;
    var pos := 0;
    ghost var decisions: seq<string> := [];
    while termIt < |inputTerms| && defIt < |inputDefs|
      invariant termIt == defIt == |decisions| <= CardCount(inputTerms, inputDefs)
      invariant Answers(replies, 0, StarReplies, |decisions|) == Some((decisions, pos))
      invariant starred == Starred(inputTerms, decisions) && starredDefs == Starred(inputDefs, decisions)
    {
      var answered := AwaitReply(replies, pos, StarReplies);
      AnswersStep(replies, 0, StarReplies, |decisions|, decisions, pos);
      if answered.None? {
        AnswersRunOut(replies, 0, StarReplies, |decisions| + 1, CardCount(inputTerms, inputDefs));
        return None;
      }
      var star := replies[answered.value];
      if star == "star" {
        starred := starred + [inputTerms[termIt]];
        starredDefs := starredDefs + [inputDefs[defIt]];
      }
      StarredStep(inputTerms, decisions, star);
      StarredStep(inputDefs, decisions, star);
      decisions := decisions + [star];
      pos := answered.value + 1;
      termIt := termIt + 1;
      defIt := defIt + 1;
    }
    r := Some((starred, starredDefs, pos));
  }

  /**
   The restudy pass of the flashcards: walks the starred terms, showing each
   with the starred definition at the same position (a separate counter).
   */
  method Replay(starred: seq<string>, starredDefs: seq<string>) returns (replayed: seq<Pair>)
    requires |starred| == |starredDefs|
    ensures replayed == Zip(starred, starredDefs)
  {
    replayed := [];
    var counter := 0;
    for k := 0 to |starred|
      invariant counter == k == |replayed|
      invariant forall j :: 0 <= j < k ==> replayed[j] == Pair(starred[j], starredDefs[j])
    {
      replayed := replayed + [Pair(starred[k], starredDefs[counter])];
      counter := counter + 1;
    }
  }

  /**
   The timed challenge from term `asked` on, with `score` points so far: stop
   when the terms are done or reading `asked + 1` is past the deadline,
   otherwise read the next answer and award a point when it is the expected
   definition.
   */
  function Challenge(expected: seq<string>, deadline: int, clock: nat -> int, answers: seq<string>,
                     asked: nat, score: nat): Run<Timed>
    requires asked <= |expected|
    decreases |expected| - asked
  {
    if asked == |expected| || clock(asked + 1) > deadline then Finished(Timed(asked, score))
    else if asked >= |answers| then Unfinished
    else Challenge(expected, deadline, clock, answers, asked + 1,
                   score + if answers[asked] == expected[asked] then 1 else 0)
  }

  /**
   The challenge asks terms in order while the clock is within the deadline,
   stopping at the first reading past it; the score counts the answers that
   equal the expected definition. It is unfinished only when the answers run
   out while there is still time and terms are left.
   */
  lemma {:induction false} ChallengeOutcome(expected: seq<string>, deadline: int, clock: nat -> int,
                                            answers: seq<string>, asked: nat, score: nat)
    requires asked <= |expected| && asked <= |answers|
    requires score == Agreements(answers[..asked], expected[..asked])
    requires forall k :: 1 <= k <= asked ==> clock(k) <= deadline
    ensures var r := Challenge(expected, deadline, clock, answers, asked, score);
            && (r.Finished? ==>
                  && asked <= r.value.asked <= |expected| && r.value.asked <= |answers|
                  && r.value.score == Agreements(answers[..r.value.asked], expected[..r.value.asked])
                  && (forall k :: 1 <= k <= r.value.asked ==> clock(k) <= deadline)
                  && (r.value.asked < |expected| ==> clock(r.value.asked + 1) > deadline))
            && (r.Unfinished? ==>
                  |answers| < |expected| && forall k :: 1 <= k <= |answers| + 1 ==> clock(k) <= deadline)
    decreases |expected| - asked
  {
    if asked == |expected| || clock(asked + 1) > deadline {
    } else if asked >= |answers| {
    } else {
      AgreementsStep(answers, expected, asked);
      ChallengeOutcome(expected, deadline, clock, answers, asked + 1,
                       score + if answers[asked] == expected[asked] then 1 else 0);
    }
  }

  /**
   What a timed challenge does, for any clock and answers: the terms asked
   are a prefix of the deck, each asked while the clock was within the
   deadline; it stops early only at a reading past the deadline; the score
   counts the answers equal to the definition of the term's first occurrence.
   It is unfinished only when the answers run out with time and terms left.
   With a negative limit and a clock that does not go back, nothing is asked.
   */
  lemma TimedOutcome(terms: seq<string>, defs: seq<string>, timeLimit: int, clock: nat -> int, answers: seq<string>)
    requires Covers(terms, defs)
    ensures var r := Challenge(Expected(terms, defs), Deadline(clock, timeLimit), clock, answers, 0, 0);
            && (r.Finished? ==> r.value.score <= r.value.asked <= |terms| && r.value.asked <= |answers|)
            && (r.Finished? ==> forall k :: 1 <= k <= r.value.asked ==> clock(k) <= Deadline(clock, timeLimit))
            && (r.Finished? && r.value.asked < |terms| ==> clock(r.value.asked + 1) > Deadline(clock, timeLimit))
            && (r.Finished? ==>
                  r.value.score == Agreements(answers[..r.value.asked], Expected(terms, defs)[..r.value.asked]))
            && (r.Unfinished? ==>
                  |answers| < |terms| && forall k :: 1 <= k <= |answers| + 1 ==> clock(k) <= Deadline(clock, timeLimit))
            && (clock(0) <= clock(1) && timeLimit < 0 ==> r == Finished(Timed(0, 0)))
  {
    ChallengeOutcome(Expected(terms, defs), Deadline(clock, timeLimit), clock, answers, 0, 0);
  }

  /** Comparing tools by score is an equivalence: reflexive, symmetric and transitive. */
  lemma EqualsIsEquivalence(a: StudyTool, b: StudyTool, c: StudyTool)
    ensures a.Equals(a)
    ensures a.Equals(b) ==> b.Equals(a)
    ensures a.Equals(b) && b.Equals(c) ==> a.Equals(c)
  {
  }

  class StudyTool {
    const terms: seq<string>
    const defs: seq<string>
    var score: int

    constructor (inputTerms: seq<string>, inputDefs: seq<string>)
      ensures terms == inputTerms && defs == inputDefs && score == 0
    {
      terms := inputTerms;
      defs := inputDefs;
      score := 0;
    }

    /** `operator==`: two tools are equal when their `score` fields are. No game mode writes that field. */
    predicate Equals(other: StudyTool)
      reads this, other
    {
      score == other.score
    }

    /**
     Flashcards. Walks the cards while both sequences last; each card's star
     prompt is asked until the reply is "star" (the card is appended to both
     starred lists) or empty (move on). Then the restudy prompt is asked until
     the reply is "y" or "n"; on "y" the starred cards are replayed in the
     order they were starred.
     */
    method Playflip(inputTerms: seq<string>, inputDefs: seq<string>, replies: seq<string>) returns (r: Run<Flip>)
      ensures r == FlipSession(inputTerms, inputDefs, replies)
      ensures r.Finished? ==> |r.value.starred| == |r.value.starredDefs| <= CardCount(inputTerms, inputDefs)
      ensures r.Finished? ==> r.value.replayed == [] || r.value.replayed == Zip(r.value.starred, r.value.starredDefs)
      ensures CardCount(inputTerms, inputDefs) == 0 ==>
                (r.Finished? <==> FirstAccepted(replies, 0, RestudyReplies).Some?) &&
                (r.Finished? ==> r.value == Flip([], [], []))
    {
      var pass := StarPass(inputTerms, inputDefs, replies);
      if pass.None? {
        return Unfinished;
      }
      var (starred, starredDefs, pos) := pass.value;
      var study := AwaitReply(replies, pos, RestudyReplies);
      if study.None? {
        return Unfinished;
      }
      var replayed: seq<Pair> := [];
      if replies[study.value] == "y" {
        replayed := Replay(starred, starredDefs);
      }
      r := Finished(Flip(starred, starredDefs, replayed));
    }

    /**
     Multiple choice. For every term, in order, a question is built for the
     definition at the term's first occurrence with the distractor rule `rule`
     (`AsWritten` is the game as the code plays it, `Fixed` the corrected one;
     see `BuildQuestion`); the guess prompt is asked until it gets a number
     from 1 to 4, and a guess equal to the right slot scores one point.
     */
    method Mult(inputTerms: seq<string>, inputDefs: seq<string>, draws: seq<nat>, guesses: seq<Option<int>>,
                rule: DistractorRule) returns (r: Run<Quiz>)
      requires Covers(inputTerms, inputDefs)
      ensures r == QuizSession(inputTerms, inputDefs, draws, guesses, rule)
      ensures |inputTerms| == 0 ==> r == Finished(Quiz([], 0))
      ensures r.Finished? ==>
                |r.value.rounds| == |inputTerms| && r.value.score == Correct(r.value.rounds) <= |inputTerms|
      ensures r.Finished? ==> forall i :: 0 <= i < |inputTerms| ==>
                Shown(r.value.rounds[i].question, inputDefs, Expected(inputTerms, inputDefs)[i], |inputTerms|)
      ensures r.Finished? && rule == Fixed ==> forall i :: 0 <= i < |inputTerms| ==>
                Presented(r.value.rounds[i].question, inputDefs, Expected(inputTerms, inputDefs)[i], |inputTerms|)
      ensures r.Finished? ==> |inputTerms| <= |Filter(guesses, ValidGuesses)|
      ensures r.Finished? ==>
                forall i :: 0 <= i < |inputTerms| ==> Filter(guesses, ValidGuesses)[i] == Some(r.value.rounds[i].guess)
    {
      ghost var ask := Asker(inputTerms, inputDefs, draws, rule);
      forall k: nat, d: nat | k < |inputTerms|
        ensures ask(k, d) == QuestionFrom(inputDefs, FirstIndex(inputTerms, inputTerms[k]), |inputTerms|, draws, d, rule)
      {
        AskerAt(inputTerms, inputDefs, draws, rule, k, d);
      }
      r := PlayQuiz(inputTerms, inputDefs, draws, guesses, rule, ask);
      if r.Finished? {
        QuizShown(inputTerms, inputDefs, draws, guesses, rule, r.value);
        QuizGuesses(inputTerms, inputDefs, draws, guesses, rule, r.value);
      }
    }

    /**
     Matching. Fewer than two terms or definitions, or unequal counts: score 0
     and nothing is asked. Otherwise the pairs are shuffled in place, the user
     types a definition for each shuffled term, and every exact match scores.
     */
    method MatchingGame(inputTerms: seq<string>, inputDefs: seq<string>, rng: nat -> nat, answers: seq<string>)
      returns (r: Run<Matched>)
      ensures |inputTerms| < 2 || |inputDefs| < 2 || |inputTerms| != |inputDefs| ==> r == Finished(Matched([], 0))
      ensures 2 <= |inputTerms| == |inputDefs| ==> (r.Finished? <==> |inputTerms| <= |answers|)
      ensures 2 <= |inputTerms| == |inputDefs| && r.Finished? ==>
                && r.value.shuffled == FisherYates(Zip(inputTerms, inputDefs), rng, 1)
                && multiset(r.value.shuffled) == multiset(Zip(inputTerms, inputDefs))
                && r.value.score == Agreements(answers[..|inputTerms|], DefsOf(r.value.shuffled))
    {
      if |inputTerms| < 2 || |inputDefs| < 2 || |inputTerms| != |inputDefs| {
        return Finished(Matched([], 0));
      }
      var shuffledPairs := PairUp(inputTerms, inputDefs);
      ShuffleInPlace(shuffledPairs, rng);
      var score := ScoreMatches(shuffledPairs, answers);
      if score.None? {
        return Unfinished;
      }
      r := Finished(Matched(shuffledPairs[..], score.value));
    }

    /**
     Timed challenge. Before each term, in order, the clock is read; once it is
     past the deadline the challenge stops. Each answer is compared with the
     definition at the term's first occurrence.
     */
    method TimeChallenge(inputTerms: seq<string>, inputDefs: seq<string>, timeLimit: int,
                         clock: nat -> int, answers: seq<string>) returns (r: Run<Timed>)
      requires Covers(inputTerms, inputDefs)
      ensures r == Challenge(Expected(inputTerms, inputDefs), Deadline(clock, timeLimit), clock, answers, 0, 0)
    {
      var score := 0;
      var startTime := clock(0);
      var endTime := startTime + timeLimit * 1_000_000_000;
      var asked := 0;
      ghost var expected := Expected(inputTerms, inputDefs);
      while asked < |inputTerms|
        invariant asked <= |inputTerms|
        invariant Challenge(expected, endTime, clock, answers, asked, score)
               == Challenge(expected, endTime, clock, answers, 0, 0)
      {
        if clock(asked + 1) > endTime {
          break;
        }
        if asked >= |answers| {
          return Unfinished;
        }
        var userAnswer := answers[asked];
        var index := FirstIndex(inputTerms, inputTerms[asked]);
        assert expected[asked] == inputDefs[index];
        if userAnswer == inputDefs[index] {
          score := score + 1;
        }
        asked := asked + 1;
      }
      r := Finished(Timed(asked, score));
    }
  }
}
