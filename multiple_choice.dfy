/**
 The multiple-choice game (`StudyTool::mult`): for every term a question
 lists up to four definitions, one of them the term's own at a random slot,
 and the player guesses the slot.

 `rand()` is a sequence of draws consumed in order; a draw `x` picks
 `defs[x % |defs|]`. Drawing distractors is a rejection loop that need not end
 when the definitions have too few distinct values; here it ends when the
 draws run out (`OutOfDraws`).
 */
module MultipleChoice {
  import opened Deck
  import opened Replies

  /** A value drawn, with the position of the next unused draw. */
  datatype Drawn<T> = Drawn(value: T, next: nat) | OutOfDraws

  /** The options shown, slot `k + 1` being `options[k]`, and the slot of the right answer. */
  datatype Question = Question(options: seq<string>, correct: nat)

  /** One question and the guess accepted for it. */
  datatype Round = Round(question: Question, guess: int)

  /** A finished game: its rounds, in term order, and the score. */
  datatype Quiz = Quiz(rounds: seq<Round>, score: nat)

  /**
   How a distractor is drawn: `AsWritten` rejects the right definition first
   and then, from that draw on, the options already placed; `Fixed` rejects
   both in one loop.
   */
  datatype DistractorRule = AsWritten | Fixed

  /** `rangeCycle`: one more than the number of options for a deck of `n` terms. */
  function RangeCycle(n: nat): nat
  {
    if n >= 4 then 5 else n + 1
  }

  /** Guesses the prompt accepts: the numbers 1 to 4, whatever the number of options. */
  const ValidGuesses: set<Option<int>> := {Some(1), Some(2), Some(3), Some(4)}

  /** The first definition drawn at or after draw `d` that is not in `avoid`. */
  function FirstDrawAvoiding(defs: seq<string>, draws: seq<nat>, d: nat, avoid: seq<string>): (r: Drawn<string>)
    requires |defs| > 0
    ensures r.Drawn? ==> d < r.next <= |draws| && r.value == defs[draws[r.next - 1] % |defs|]
    ensures r.Drawn? ==> r.value !in avoid
    ensures r.Drawn? ==> forall j :: d <= j < r.next - 1 ==> defs[draws[j] % |defs|] in avoid
    ensures r.OutOfDraws? ==> forall j :: d <= j < |draws| ==> defs[draws[j] % |defs|] in avoid
    decreases |draws| - d
  {
    if d >= |draws| then OutOfDraws
    else if defs[draws[d] % |defs|] !in avoid then Drawn(defs[draws[d] % |defs|], d + 1)
    else FirstDrawAvoiding(defs, draws, d + 1, avoid)
  }

  /**
   A distractor as `studytool.cpp` draws it: first until it differs from the right
   definition, then, starting again from that draw, until it is not among the
   options already placed. The second loop no longer rejects the right
   definition, so only when that is already placed, or nothing is, is it
   certain to be avoided.
   */
  function SlotAsWritten(defs: seq<string>, correct: string, used: seq<string>, draws: seq<nat>, d: nat): (r: Drawn<string>)
    requires |defs| > 0
    ensures r.Drawn? ==> d < r.next <= |draws| && r.value in defs && r.value !in used
    ensures r.Drawn? && (used == [] || correct in used) ==> r.value != correct
  {
    match FirstDrawAvoiding(defs, draws, d, [correct])
    case OutOfDraws => OutOfDraws
    case Drawn(_, q) => FirstDrawAvoiding(defs, draws, q - 1, used)
  }

  /** A distractor drawn with the fix: neither an option already placed nor the right definition. */
  function SlotFixed(defs: seq<string>, correct: string, used: seq<string>, draws: seq<nat>, d: nat): (r: Drawn<string>)
    requires |defs| > 0
    ensures r.Drawn? ==> d < r.next <= |draws| && r.value in defs && r.value !in used && r.value != correct
  {
    FirstDrawAvoiding(defs, draws, d, used + [correct])
  }

  /**
   The code's rule can show the right definition twice. Four definitions,
   the right one "a", slot 1 already showing "b", the right answer due at a
   later slot: the next draw picks "b" (not the right one, so the first loop
   accepts it), "b" is used, so the second loop draws again and accepts "a".
   The fixed rule rejects "a" as well and goes on to "c".
   */
  lemma AsWrittenRepeatsCorrect()
    ensures SlotAsWritten(["a", "b", "c", "d"], "a", ["b"], [1, 0], 0) == Drawn("a", 2)
    ensures SlotFixed(["a", "b", "c", "d"], "a", ["b"], [1, 0, 2], 0) == Drawn("c", 3)
  {
    var defs, draws := ["a", "b", "c", "d"], [1, 0];
    assert FirstDrawAvoiding(defs, draws, 0, ["a"]) == Drawn("b", 1);
    assert FirstDrawAvoiding(defs, draws, 1, ["b"]) == Drawn("a", 2);
    var draws' := [1, 0, 2];
    assert FirstDrawAvoiding(defs, draws', 2, ["b", "a"]) == Drawn("c", 3);
    assert FirstDrawAvoiding(defs, draws', 1, ["b", "a"]) == Drawn("c", 3);
  }

  /**
   A rejection loop: starting from the definition drawn with draw `d - 1`,
   draws again while the current one is in `avoid`.
   */
  method Redraw(defs: seq<string>, draws: seq<nat>, d: nat, avoid: seq<string>) returns (r: Drawn<string>)
    requires |defs| > 0 && 0 < d <= |draws|
    ensures r == FirstDrawAvoiding(defs, draws, d - 1, avoid)
  {
    var randdef := defs[draws[d - 1] % |defs|];
    var next := d;
    while randdef in avoid
      invariant d <= next <= |draws|
      invariant randdef == defs[draws[next - 1] % |defs|]
      invariant FirstDrawAvoiding(defs, draws, next - 1, avoid) == FirstDrawAvoiding(defs, draws, d - 1, avoid)
      decreases |draws| - next
    {
      if next == |draws| {
        return OutOfDraws;
      }
      randdef := defs[draws[next] % |defs|];
      next := next + 1;
    }
    r := Drawn(randdef, next);
  }

  /** One distractor slot: a first draw, then the rejection loops of the chosen rule. */
  method PickDistractor(defs: seq<string>, correct: string, used: seq<string>, draws: seq<nat>, d: nat,
                        rule: DistractorRule) returns (r: Drawn<string>)
    requires |defs| > 0
    ensures r == if rule == AsWritten then SlotAsWritten(defs, correct, used, draws, d)
                 else SlotFixed(defs, correct, used, draws, d)
  {
    if d >= |draws| {
      return OutOfDraws;
    }
    if rule == AsWritten {
      var differs := Redraw(defs, draws, d + 1, [correct]);
      if differs.OutOfDraws? {
        return OutOfDraws;
      }
      r := Redraw(defs, draws, differs.next, used);
    } else {
      r := Redraw(defs, draws, d + 1, used + [correct]);
    }
  }

  /**
   The options for slots `cycle` to `rangeCycle - 1`, following `used`: the
   right definition at slot `randomIndex`, a distractor drawn with `rule` at
   every other slot, from draw `d` on. Yields all the options and the next
   unused draw.
   */
  function FillSlots(defs: seq<string>, right: string, randomIndex: nat, cycle: nat, rangeCycle: nat,
                     used: seq<string>, draws: seq<nat>, d: nat, rule: DistractorRule): Drawn<seq<string>>
    requires |defs| > 0
    decreases rangeCycle - cycle
  {
    if cycle >= rangeCycle then Drawn(used, d)
    else if cycle == randomIndex then
      FillSlots(defs, right, randomIndex, cycle + 1, rangeCycle, used + [right], draws, d, rule)
    else
      match if rule == AsWritten then SlotAsWritten(defs, right, used, draws, d) else SlotFixed(defs, right, used, draws, d)
      case OutOfDraws => OutOfDraws
      case Drawn(pick, next) => FillSlots(defs, right, randomIndex, cycle + 1, rangeCycle, used + [pick], draws, next, rule)
  }

  /**
   The question for the term whose first occurrence is at `index`, in a deck
   of `n` terms, drawn from draw `d0` on: the first draw places the right
   definition, the rest fill the other slots.
   */
  function QuestionFrom(defs: seq<string>, index: nat, n: nat, draws: seq<nat>, d0: nat, rule: DistractorRule): Drawn<Question>
    requires 1 <= n && index < |defs|
  {
    if d0 >= |draws| then OutOfDraws
    else
      var randomIndex := if n >= 4 then draws[d0] % 4 + 1 else draws[d0] % n + 1;
      match FillSlots(defs, defs[index], randomIndex, 1, RangeCycle(n), [], draws, d0 + 1, rule)
      case OutOfDraws => OutOfDraws
      case Drawn(options, next) => Drawn(Question(options, randomIndex), next)
  }

  /**
   What the player should see for a term whose definition is `right`, in a
   deck of `n` terms: four options (`n` when `n < 4`), `right` at the right
   slot, every option a definition of the deck, and no option twice.
   */
  predicate Presented(q: Question, defs: seq<string>, right: string, n: nat)
  {
    && |q.options| == RangeCycle(n) - 1
    && 1 <= q.correct <= |q.options|
    && q.options[q.correct - 1] == right
    && (forall k :: 0 <= k < |q.options| ==> q.options[k] in defs)
    && (forall k :: 0 <= k < |q.options| ==> q.options[k] !in q.options[..k])
  }

  /**
   What a question shows under either distractor rule, for a term whose
   definition is `right`: the option count and right slot as in `Presented`,
   every other option a definition of the deck not shown earlier in the
   question, and no option after the right slot equal to `right`. Only the
   fixed rule also keeps `right` out of the slots before its own.
   */
  predicate Shown(q: Question, defs: seq<string>, right: string, n: nat)
  {
    && |q.options| == RangeCycle(n) - 1
    && 1 <= q.correct <= |q.options|
    && q.options[q.correct - 1] == right
    && (forall k :: 0 <= k < |q.options| && k != q.correct - 1 ==> q.options[k] in defs && q.options[k] !in q.options[..k])
    && (forall k :: q.correct - 1 < k < |q.options| ==> q.options[k] != right)
  }

  /** What a question drawn with `rule` is guaranteed to show: `Shown`, and `Presented` under the fixed rule. */
  predicate ShownBy(q: Question, defs: seq<string>, right: string, n: nat, rule: DistractorRule)
  {
    Shown(q, defs, right, n) && (rule == Fixed ==> Presented(q, defs, right, n))
  }

  /**
   What the slots filled so far, before slot `cycle`, show: the right
   definition at its slot once that is passed, every other option a deck
   definition not shown earlier, and under the fixed rule none of them the
   right definition.
   */
  predicate SlotsSoFar(used: seq<string>, defs: seq<string>, right: string, randomIndex: nat, cycle: nat,
                       rule: DistractorRule)
  {
    && |used| == cycle - 1
    && (cycle > randomIndex >= 1 ==> used[randomIndex - 1] == right)
    && (forall k :: 0 <= k < |used| && k != randomIndex - 1 ==> used[k] in defs && used[k] !in used[..k])
    && (rule == Fixed ==> forall k :: 0 <= k < |used| && k != randomIndex - 1 ==> used[k] != right)
  }

  /**
   Filling the remaining slots keeps `SlotsSoFar` up to the last slot, and
   every distractor slot takes at least one draw.
   */
  lemma {:induction false} FillSlotsShow(defs: seq<string>, right: string, randomIndex: nat, cycle: nat, rangeCycle: nat,
                                         used: seq<string>, draws: seq<nat>, d: nat, rule: DistractorRule,
                                         options: seq<string>, next: nat)
    requires |defs| > 0 && 1 <= cycle <= rangeCycle && 1 <= randomIndex < rangeCycle && d <= |draws|
    requires SlotsSoFar(used, defs, right, randomIndex, cycle, rule)
    requires FillSlots(defs, right, randomIndex, cycle, rangeCycle, used, draws, d, rule) == Drawn(options, next)
    ensures SlotsSoFar(options, defs, right, randomIndex, rangeCycle, rule)
    ensures d + (rangeCycle - cycle) - (if cycle <= randomIndex then 1 else 0) <= next <= |draws|
    decreases rangeCycle - cycle
  {
    if cycle < rangeCycle {
      if cycle == randomIndex {
        SlotsStep(used, defs, right, randomIndex, cycle, rule, right);
        FillSlotsShow(defs, right, randomIndex, cycle + 1, rangeCycle, used + [right], draws, d, rule, options, next);
      } else {
        var slot := if rule == AsWritten then SlotAsWritten(defs, right, used, draws, d)
                    else SlotFixed(defs, right, used, draws, d);
        SlotsStep(used, defs, right, randomIndex, cycle, rule, slot.value);
        FillSlotsShow(defs, right, randomIndex, cycle + 1, rangeCycle, used + [slot.value], draws, slot.next, rule,
                      options, next);
      }
    }
  }

  /** Placing the right definition at its slot, or a fresh distractor at another, keeps `SlotsSoFar`. */
  lemma SlotsStep(used: seq<string>, defs: seq<string>, right: string, randomIndex: nat, cycle: nat,
                  rule: DistractorRule, pick: string)
    requires 1 <= cycle && SlotsSoFar(used, defs, right, randomIndex, cycle, rule)
    requires cycle == randomIndex ==> pick == right
    requires cycle != randomIndex ==> pick in defs && pick !in used && (rule == Fixed ==> pick != right)
    ensures SlotsSoFar(used + [pick], defs, right, randomIndex, cycle + 1, rule)
  {
    var used' := used + [pick];
    assert forall k :: 0 <= k < |used| ==> used'[..k] == used[..k];
    assert used'[..|used|] == used;
  }

  /** Slots filled to the end as `SlotsSoFar` says make a question `ShownBy` the rule. */
  lemma OptionsShown(options: seq<string>, defs: seq<string>, right: string, randomIndex: nat, n: nat,
                     rule: DistractorRule)
    requires |options| == RangeCycle(n) - 1 && 1 <= randomIndex <= |options| && right in defs
    requires SlotsSoFar(options, defs, right, randomIndex, |options| + 1, rule)
    ensures ShownBy(Question(options, randomIndex), defs, right, n, rule)
  {
    forall k | randomIndex - 1 < k < |options|
      ensures options[k] != right
    {
      assert options[..k][randomIndex - 1] == right;
    }
    if rule == Fixed {
      forall k | k == randomIndex - 1
        ensures options[k] !in options[..k]
      {
        assert forall j :: 0 <= j < k ==> options[..k][j] == options[j];
      }
    }
  }

  /** With one term the question has a single option, the right definition, and takes one draw. */
  lemma SingleOption(defs: seq<string>, index: nat, draws: seq<nat>, d0: nat, rule: DistractorRule)
    requires index < |defs| && d0 < |draws|
    ensures QuestionFrom(defs, index, 1, draws, d0, rule) == Drawn(Question([defs[index]], 1), d0 + 1)
  {
    var right := defs[index];
    assert FillSlots(defs, right, 1, 2, 2, [right], draws, d0 + 1, rule) == Drawn([right], d0 + 1);
    assert [] + [right] == [right];
  }

  /**
   A question has `min(4, n)` options, its right slot chosen by the first draw
   and showing the term's definition; it is `Shown` under either rule and
   `Presented` under the fixed one; it takes a draw per slot; with one term
   its single option is the right definition.
   */
  lemma QuestionShown(defs: seq<string>, index: nat, n: nat, draws: seq<nat>, d0: nat, rule: DistractorRule)
    requires 1 <= n && index < |defs|
    ensures var r := QuestionFrom(defs, index, n, draws, d0, rule);
              r.Drawn? ==>
                && d0 < r.next <= |draws|
                && |r.value.options| == (if n >= 4 then 4 else n)
                && r.value.correct == draws[d0] % |r.value.options| + 1
                && ShownBy(r.value, defs, defs[index], n, rule)
    ensures |draws| < d0 + RangeCycle(n) - 1 ==> QuestionFrom(defs, index, n, draws, d0, rule).OutOfDraws?
    ensures n == 1 && d0 < |draws| ==> QuestionFrom(defs, index, n, draws, d0, rule) == Drawn(Question([defs[index]], 1), d0 + 1)
  {
    if d0 < |draws| {
      var right := defs[index];
      var randomIndex := if n >= 4 then draws[d0] % 4 + 1 else draws[d0] % n + 1;
      var filled := FillSlots(defs, right, randomIndex, 1, RangeCycle(n), [], draws, d0 + 1, rule);
      if filled.Drawn? {
        FillSlotsShow(defs, right, randomIndex, 1, RangeCycle(n), [], draws, d0 + 1, rule, filled.value, filled.next);
        OptionsShown(filled.value, defs, right, randomIndex, n, rule);
      }
      if n == 1 {
        SingleOption(defs, index, draws, d0, rule);
      }
    }
  }

  /**
   Builds one question for the term whose first occurrence is at `index`, in a
   deck of `n` terms, using the draws from position `d0` on.
   */
  method BuildQuestion(defs: seq<string>, index: nat, n: nat, draws: seq<nat>, d0: nat, rule: DistractorRule)
    returns (r: Drawn<Question>)
    requires 1 <= n && index < |defs|
    ensures r == QuestionFrom(defs, index, n, draws, d0, rule)
    ensures r.Drawn? ==> d0 < r.next <= |draws|
    ensures r.Drawn? ==> var q := r.value;
              && |q.options| == (if n >= 4 then 4 else n)
              && 1 <= q.correct <= |q.options|
              && q.correct == draws[d0] % |q.options| + 1
              && q.options[q.correct - 1] == defs[index]
    ensures r.Drawn? ==> var q := r.value;
              forall k :: 0 <= k < |q.options| && k != q.correct - 1 ==>
                q.options[k] in defs && q.options[k] !in q.options[..k]
    ensures r.Drawn? ==> var q := r.value;
              forall k :: q.correct - 1 < k < |q.options| ==> q.options[k] != defs[index]
    ensures r.Drawn? && rule == Fixed ==> Presented(r.value, defs, defs[index], n)
    ensures r.Drawn? ==> ShownBy(r.value, defs, defs[index], n, rule)
    ensures |draws| < d0 + RangeCycle(n) - 1 ==> r.OutOfDraws?
    ensures n == 1 && d0 < |draws| ==> r == Drawn(Question([defs[index]], 1), d0 + 1)
  {
    QuestionShown(defs, index, n, draws, d0, rule);
    if d0 >= |draws| {
      return OutOfDraws;
    }
    var rangeCycle := RangeCycle(n);
    var randomIndex := if n >= 4 then draws[d0] % 4 + 1 else draws[d0] % n + 1;
    var filled := FillOptions(defs, defs[index], randomIndex, rangeCycle, draws, d0 + 1, rule);
    if filled.OutOfDraws? {
      return OutOfDraws;
    }
    r := Drawn(Question(filled.value, randomIndex), filled.next);
  }

  /** The slot loop: places the right definition at `randomIndex` and a distractor at every other slot. */
  method FillOptions(defs: seq<string>, right: string, randomIndex: nat, rangeCycle: nat, draws: seq<nat>, d0: nat,
                     rule: DistractorRule) returns (r: Drawn<seq<string>>)
    requires |defs| > 0 && 1 <= rangeCycle
    ensures r == FillSlots(defs, right, randomIndex, 1, rangeCycle, [], draws, d0, rule)
  {
    var d := d0;
    var cycle := 1;
    var used: seq<string> := [];
    while cycle < rangeCycle
      invariant 1 <= cycle <= rangeCycle
      invariant FillSlots(defs, right, randomIndex, cycle, rangeCycle, used, draws, d, rule)
                == FillSlots(defs, right, randomIndex, 1, rangeCycle, [], draws, d0, rule)
    {
      if cycle == randomIndex {
        used := used + [right];
      } else {
        var pick := PickDistractor(defs, right, used, draws, d, rule);
        if pick.OutOfDraws? {
          return OutOfDraws;
        }
        used := used + [pick.value];
        d := pick.next;
      }
      cycle := cycle + 1;
    }
    r := Drawn(used, d);
  }

  /** The number of rounds whose guess is the right slot: one point each. */
  function Correct(rounds: seq<Round>): (r: nat)
    ensures r <= |rounds|
  {
    if |rounds| == 0 then 0
    else
      var n := |rounds| - 1;
      Correct(rounds[..n]) + (if rounds[n].guess == rounds[n].question.correct then 1 else 0)
  }

  /**
   The question builder of a deck: `Asker(terms, defs, draws, rule)(k, d)` is
   the question for term `k`, checked against the definition at the term's
   first occurrence, drawn from draw `d` on.
   */
  function Asker(terms: seq<string>, defs: seq<string>, draws: seq<nat>, rule: DistractorRule): (nat, nat) -> Drawn<Question>
    requires Covers(terms, defs)
  {
    (k: nat, d: nat) =>
      if k < |terms| then QuestionFrom(defs, FirstIndex(terms, terms[k]), |terms|, draws, d, rule) else OutOfDraws
  }

  /** For a term of the deck, the builder draws the question `QuestionFrom` draws for its first occurrence. */
  lemma AskerAt(terms: seq<string>, defs: seq<string>, draws: seq<nat>, rule: DistractorRule, k: nat, d: nat)
    requires Covers(terms, defs) && k < |terms|
    ensures Asker(terms, defs, draws, rule)(k, d) == QuestionFrom(defs, FirstIndex(terms, terms[k]), |terms|, draws, d, rule)
  {
  }

  /**
   A multiple-choice game from term `i` on, after the rounds `played`: the
   question for each term comes from `ask`, drawing from draw `d` on, and the
   guesses are read from token `pos` on. `Unfinished` as soon as a question
   runs out of draws or the guess tokens hold no more valid guess; otherwise
   all the rounds, in term order.
   */
  function RoundsFrom(terms: seq<string>, ask: (nat, nat) -> Drawn<Question>, guesses: seq<Option<int>>,
                      i: nat, d: nat, pos: nat, played: seq<Round>): (r: Run<seq<Round>>)
    requires i <= |terms|
    ensures r.Finished? ==> |r.value| == |played| + |terms| - i
    decreases |terms| - i
  {
    if i == |terms| then Finished(played)
    else
      match ask(i, d)
      case OutOfDraws => Unfinished
      case Drawn(q, next) =>
        match FirstAccepted(guesses, pos, ValidGuesses)
        case None => Unfinished
        case Some(g) => RoundsFrom(terms, ask, guesses, i + 1, next, g + 1, played + [Round(q, guesses[g].value)])
  }

  /** A round that is played moves the game on to the next term, with that round added. */
  lemma RoundPlayed(terms: seq<string>, ask: (nat, nat) -> Drawn<Question>, guesses: seq<Option<int>>,
                    i: nat, d: nat, pos: nat, played: seq<Round>, round: Round, next: nat, nextPos: nat)
    requires i < |terms| && ask(i, d) == Drawn(round.question, next)
    requires FirstAccepted(guesses, pos, ValidGuesses) == Some(nextPos - 1) && guesses[nextPos - 1] == Some(round.guess)
    ensures RoundsFrom(terms, ask, guesses, i, d, pos, played)
            == RoundsFrom(terms, ask, guesses, i + 1, next, nextPos, played + [round])
  {
  }

  /** A round that runs out of draws or of valid guesses leaves the game unfinished. */
  lemma RoundStopped(terms: seq<string>, ask: (nat, nat) -> Drawn<Question>, guesses: seq<Option<int>>,
                     i: nat, d: nat, pos: nat, played: seq<Round>)
    requires i < |terms| && (ask(i, d).OutOfDraws? || FirstAccepted(guesses, pos, ValidGuesses).None?)
    ensures RoundsFrom(terms, ask, guesses, i, d, pos, played) == Unfinished
  {
  }

  /** A finished game played its next round: that round's question, its next draw and its guess position. */
  lemma FinishedStep(terms: seq<string>, ask: (nat, nat) -> Drawn<Question>, guesses: seq<Option<int>>,
                     i: nat, d: nat, pos: nat, played: seq<Round>, rounds: seq<Round>)
    returns (round: Round, next: nat, g: nat)
    requires i < |terms| && RoundsFrom(terms, ask, guesses, i, d, pos, played) == Finished(rounds)
    ensures ask(i, d) == Drawn(round.question, next)
    ensures FirstAccepted(guesses, pos, ValidGuesses) == Some(g) && guesses[g] == Some(round.guess)
    ensures RoundsFrom(terms, ask, guesses, i + 1, next, g + 1, played + [round]) == Finished(rounds)
  {
    g := FirstAccepted(guesses, pos, ValidGuesses).value;
    round, next := Round(ask(i, d).value, guesses[g].value), ask(i, d).next;
  }

  /** The rounds of a game, if it finished, with a point per right guess. */
  function Scored(run: Run<seq<Round>>): Run<Quiz>
  {
    match run
    case Unfinished => Unfinished
    case Finished(rounds) => Finished(Quiz(rounds, Correct(rounds)))
  }

  /** A whole multiple-choice game: every term's round, and a point per right guess. */
  function QuizSession(terms: seq<string>, defs: seq<string>, draws: seq<nat>, guesses: seq<Option<int>>,
                       rule: DistractorRule): Run<Quiz>
    requires Covers(terms, defs)
  {
    Scored(RoundsFrom(terms, Asker(terms, defs, draws, rule), guesses, 0, 0, 0, []))
  }

  /**
   With a single term the question has one option, the right one, and needs
   one draw: the game finishes exactly when there is a draw and a valid guess.
   */
  lemma OneTermQuiz(terms: seq<string>, defs: seq<string>, draws: seq<nat>, guesses: seq<Option<int>>,
                    rule: DistractorRule)
    requires |terms| == 1 && Covers(terms, defs)
    ensures QuizSession(terms, defs, draws, guesses, rule).Finished? <==>
              1 <= |draws| && FirstAccepted(guesses, 0, ValidGuesses).Some?
  {
    var ask := Asker(terms, defs, draws, rule);
    var index := FirstIndex(terms, terms[0]);
    assert ask(0, 0) == QuestionFrom(defs, index, 1, draws, 0, rule);
    if 1 <= |draws| {
      SingleOption(defs, index, draws, 0, rule);
    }
    match FirstAccepted(guesses, 0, ValidGuesses)
    case Some(g) =>
      if ask(0, 0).Drawn? {
        RoundPlayed(terms, ask, guesses, 0, 0, 0, [], Round(ask(0, 0).value, guesses[g].value), ask(0, 0).next, g + 1);
      } else {
        RoundStopped(terms, ask, guesses, 0, 0, 0, []);
      }
    case None =>
      RoundStopped(terms, ask, guesses, 0, 0, 0, []);
  }

  /** A finished game keeps the rounds already played and adds one round per remaining term. */
  lemma {:induction false} RoundsKept(terms: seq<string>, ask: (nat, nat) -> Drawn<Question>, guesses: seq<Option<int>>,
                                      i: nat, d: nat, pos: nat, played: seq<Round>, rounds: seq<Round>)
    requires i <= |terms| && RoundsFrom(terms, ask, guesses, i, d, pos, played) == Finished(rounds)
    ensures |played| <= |rounds| && rounds[..|played|] == played
    decreases |terms| - i
  {
    if i < |terms| {
      var round, next, g := FinishedStep(terms, ask, guesses, i, d, pos, played, rounds);
      RoundsKept(terms, ask, guesses, i + 1, next, g + 1, played + [round], rounds);
      assert rounds[..|played|] == rounds[..|played| + 1][..|played|];
    }
  }

  /**
   Round `k` of a finished game, for any term `k` from `i` on, shows the
   question `ask` draws for term `k` at some point `dk` of the draws.
   */
  lemma {:induction false} RoundAt(terms: seq<string>, ask: (nat, nat) -> Drawn<Question>, guesses: seq<Option<int>>,
                                   i: nat, d: nat, pos: nat, played: seq<Round>, rounds: seq<Round>, k: nat)
    returns (dk: nat, next: nat)
    requires i <= k < |terms| && |played| == i
    requires RoundsFrom(terms, ask, guesses, i, d, pos, played) == Finished(rounds)
    ensures k < |rounds| && ask(k, dk) == Drawn(rounds[k].question, next)
    decreases |terms| - i
  {
    var round, next', g := FinishedStep(terms, ask, guesses, i, d, pos, played, rounds);
    if k == i {
      RoundsKept(terms, ask, guesses, i + 1, next', g + 1, played + [round], rounds);
      assert rounds[i] == rounds[..i + 1][i];
      dk, next := d, next';
    } else {
      dk, next := RoundAt(terms, ask, guesses, i + 1, next', g + 1, played + [round], rounds, k);
    }
  }

  /** The question of the round for term `i` shows the definition that term is checked against, as the rule guarantees. */
  lemma RoundShown(terms: seq<string>, defs: seq<string>, draws: seq<nat>, rule: DistractorRule, i: nat, d: nat,
                   q: Question, next: nat)
    requires Covers(terms, defs) && i < |terms|
    requires Asker(terms, defs, draws, rule)(i, d) == Drawn(q, next)
    ensures ShownBy(q, defs, Expected(terms, defs)[i], |terms|, rule)
  {
    QuestionShown(defs, FirstIndex(terms, terms[i]), |terms|, draws, d, rule);
  }

  /** The guess tokens accepted in `rounds`, in order. */
  function GuessTokens(rounds: seq<Round>): seq<Option<int>>
  {
    seq(|rounds|, k requires 0 <= k < |rounds| => Some(rounds[k].guess))
  }

  /** Reading one more valid guess for a round adds that round's guess to the guesses read so far. */
  lemma GuessesStep(guesses: seq<Option<int>>, i: nat, played: seq<Round>, pos: nat, round: Round, g: nat)
    requires Answers(guesses, 0, ValidGuesses, i) == Some((GuessTokens(played), pos))
    requires FirstAccepted(guesses, pos, ValidGuesses) == Some(g) && guesses[g] == Some(round.guess)
    ensures Answers(guesses, 0, ValidGuesses, i + 1) == Some((GuessTokens(played + [round]), g + 1))
  {
    AnswersStep(guesses, 0, ValidGuesses, i, GuessTokens(played), pos);
    assert GuessTokens(played + [round]) == GuessTokens(played) + [guesses[g]];
  }

  /**
   The rounds played from term `i` on read the next valid guess tokens, one
   per round: asking the prompt once per term reads exactly the guesses of
   all the rounds.
   */
  lemma {:induction false} RoundsGuesses(terms: seq<string>, ask: (nat, nat) -> Drawn<Question>, guesses: seq<Option<int>>,
                                         i: nat, d: nat, pos: nat, played: seq<Round>, rounds: seq<Round>)
    requires i <= |terms| && RoundsFrom(terms, ask, guesses, i, d, pos, played) == Finished(rounds)
    requires Answers(guesses, 0, ValidGuesses, i) == Some((GuessTokens(played), pos))
    ensures Answers(guesses, 0, ValidGuesses, |terms|).Some?
    ensures Answers(guesses, 0, ValidGuesses, |terms|).value.0 == GuessTokens(rounds)
    decreases |terms| - i
  {
    if i < |terms| {
      var round, next, g := FinishedStep(terms, ask, guesses, i, d, pos, played, rounds);
      GuessesStep(guesses, i, played, pos, round, g);
      RoundsGuesses(terms, ask, guesses, i + 1, next, g + 1, played + [round], rounds);
    }
  }

  /**
   In a finished game every term gets one round, in order, whose question is
   `Shown` for the definition the term is checked against, and `Presented`
   under the fixed rule.
   */
  lemma QuizShown(terms: seq<string>, defs: seq<string>, draws: seq<nat>, guesses: seq<Option<int>>, rule: DistractorRule,
                  quiz: Quiz)
    requires Covers(terms, defs) && QuizSession(terms, defs, draws, guesses, rule) == Finished(quiz)
    ensures |quiz.rounds| == |terms|
    ensures forall i :: 0 <= i < |terms| ==> Shown(quiz.rounds[i].question, defs, Expected(terms, defs)[i], |terms|)
    ensures rule == Fixed ==>
              forall i :: 0 <= i < |terms| ==> Presented(quiz.rounds[i].question, defs, Expected(terms, defs)[i], |terms|)
  {
    var ask := Asker(terms, defs, draws, rule);
    forall i | 0 <= i < |terms|
      ensures ShownBy(quiz.rounds[i].question, defs, Expected(terms, defs)[i], |terms|, rule)
    {
      var dk, next := RoundAt(terms, ask, guesses, 0, 0, 0, [], quiz.rounds, i);
      RoundShown(terms, defs, draws, rule, i, dk, quiz.rounds[i].question, next);
    }
  }

  /**
   A finished game reads, in order, the first valid guess tokens of the
   input, one per term.
   */
  lemma QuizGuesses(terms: seq<string>, defs: seq<string>, draws: seq<nat>, guesses: seq<Option<int>>, rule: DistractorRule,
                    quiz: Quiz)
    requires Covers(terms, defs) && QuizSession(terms, defs, draws, guesses, rule) == Finished(quiz)
    ensures |terms| <= |Filter(guesses, ValidGuesses)|
    ensures forall i :: 0 <= i < |terms| ==> Filter(guesses, ValidGuesses)[i] == Some(quiz.rounds[i].guess)
  {
    assert GuessTokens([]) == [];
    RoundsGuesses(terms, Asker(terms, defs, draws, rule), guesses, 0, 0, 0, [], quiz.rounds);
    var (xs, p) := Answers(guesses, 0, ValidGuesses, |terms|).value;
    AnswersFromStart(guesses, ValidGuesses, |terms|, xs, p);
  }
}
