# StudyTool game modes in Dafny

This project models the four game modes of the command-line study tool, together with their class `StudyTool` (`studytool.cpp`):
- **flashcards** (`playflip`): show each card, let the user star it, then optionally replay the starred cards;
- **multiple choice** (`mult`): one question per term, with the term's definition at a random slot among up to three distractor definitions;
- **matching** (`matchingGame`): shuffle the (term, definition) pairs and score the definitions the user types;
- **timed challenge** (`timeChallenge`): ask terms until a deadline passes, scoring exact answers.

The model also covers the constructor and the score comparison (`operator==`).

The console, `rand()`, the shuffle's random engine and `steady_clock` become inputs:
- **Replies:** a sequence of reply lines, one per `getline`. The multiple-choice guesses are a sequence of tokens, one per `cin >> guess`; `None` is a token that is not a number.
- **Draws:** a sequence of `rand()` results, consumed in order. A draw `x` picks `defs[x % |defs|]`.
- **Shuffle engine:** a function from draw numbers to values.
- **Clock:** a function from reading numbers to nanoseconds. Reading 0 is taken at the start. Reading `k + 1` is the check made before term `k`.

A mode that runs out of replies or draws returns `Unfinished`. The real program would still be waiting at a prompt, or still drawing.

Modules:
- `Deck`: pairs; the first-occurrence lookup `FirstIndex`; the definitions a term is checked against (`Expected`); and the exact-match count `Agreements`.
- `Replies`: prompts that are asked again after every unacceptable reply.
- `Flashcards`: what a flashcard session does with a given sequence of replies.
- `MultipleChoice`: how one question is built, and the whole game as a function of the draws and the guess tokens (`QuizSession`).
- `Matching`: the shuffle.
- `StudyTool`: the class and the loops of the four modes.

Behaviour of `studytool.cpp` worth knowing, which the model keeps:
- **Star prompt.** A reply other than "star" or empty is asked again (`studytool.cpp:59-71`). It is not taken as "move on".
- **Empty deck.** An empty flashcard deck still asks the restudy question (`studytool.cpp:82-104`).
- **Time limit.** The deadline test is a strict `now > endTime` (`studytool.cpp:250`), so a limit of 0 seconds does not by itself stop the challenge before the first term. A negative limit does, provided the clock does not go back (`StudyTool.TimedOutcome`).
- **Guess range.** The guess prompt accepts 1 to 4 even when a question has fewer options (`studytool.cpp:159`). Such a guess is accepted and scored as wrong.
- **Distractors.** Distractors are drawn with rejection loops, not sampled without replacement. The code's loops can show the right definition twice: see "## Findings". `Mult` takes the distractor rule as a parameter: `AsWritten` plays the game as the code does, `Fixed` as corrected.

## Model

| member | source | states |
|---|---|---|
| Deck.FirstIndex | studytool.cpp:123 | the position found is the first occurrence of the term: it holds the term, and no earlier position does |
| Deck.EqualLengthsCover | studytool.cpp:132 | when there are at least as many definitions as terms (as the menu supplies them), every term's first occurrence has a definition, so `inputDefs[index]` is in bounds |
| Deck.ExpectedDefinitions | studytool.cpp:259-260 | a term is checked against the definition at its first occurrence: repeated terms are checked against the same definition, and with no repeated term the checked definitions are exactly `defs` in order |
| Deck.Agreements | studytool.cpp:260-262 | the score of an exact-match pass is at most the number of answers |
| Deck.FullMarks | studytool.cpp:260-262 | full marks exactly when every answer equals its expected definition |
| Deck.AgreementsStep | studytool.cpp:213-215 | answering one more term adds one point exactly when that answer matches |
| Replies.FirstAccepted | studytool.cpp:59-71 | the reply that ends a re-asked prompt is the first acceptable reply from the current position; everything skipped was unacceptable; with no such reply, none was acceptable |
| Replies.AwaitReply | studytool.cpp:82-104 | the loop that re-asks a prompt stops exactly at `FirstAccepted` |
| Replies.Filter | studytool.cpp:159-163 | the accepted replies are all acceptable and no more than the replies |
| Replies.Answers | studytool.cpp:59-71 | asking a prompt `count` times yields `count` replies and a position that never moves back |
| Replies.FilterAppend | studytool.cpp:59-71 | the accepted replies of two stretches of input are those of each, concatenated |
| Replies.FilterRejected | studytool.cpp:59-71 | a stretch of unacceptable replies contributes nothing |
| Replies.FilterSplit | studytool.cpp:59-71 | splitting the input at a position splits its accepted replies there |
| Replies.FilterStep | studytool.cpp:59-71 | skipping unacceptable replies up to an acceptable one adds just that one |
| Replies.NoneLeft | studytool.cpp:59-71 | when nothing from a position on is acceptable, all accepted replies come before it |
| Replies.OneMore | studytool.cpp:59-71 | reading the next acceptable reply extends the prefix of accepted replies by exactly that reply |
| Replies.AnswersSkipRejected | studytool.cpp:59-71 | re-prompting skips exactly the unacceptable replies: `count` prompts succeed iff at least `count` acceptable replies remain, and they read the first `count` of them, in order |
| Replies.AnswersFromStart | studytool.cpp:159-163 | the guesses read by the first `count` questions are the first `count` valid guesses of the input |
| Replies.AnswersStep | studytool.cpp:59-71 | one more prompt reads the next acceptable reply, or fails when there is none |
| Replies.AnswersRunOut | studytool.cpp:59-71 | once the replies have run out, further prompts cannot succeed |
| Flashcards.StarredAt | studytool.cpp:64-67 | the starred positions are exactly the cards whose decision was "star", in increasing order |
| Flashcards.Starred | studytool.cpp:64-67 | the starred list holds, in order, the element at each starred position |
| Flashcards.StarredStep | studytool.cpp:64-67 | a "star" decision appends the current card; an empty one appends nothing |
| Flashcards.RestudyReplay | studytool.cpp:78-104 | the restudy reply is the first "y" or "n" after the star decisions; on "y" every starred card is replayed in the order starred, on "n" nothing is |
| Flashcards.StarredCards | studytool.cpp:50-76 | in a finished session the starred terms and definitions are parallel, in-order subsequences of the deck; entry k of each comes from the same card, whose decision was "star"; the decisions are the first acceptable replies, one per card |
| MultipleChoice.FirstDrawAvoiding | studytool.cpp:143-149 | a rejection loop returns the first draw whose definition is not rejected, after rejecting every draw in between; when draws run out, every remaining draw was rejected |
| MultipleChoice.SlotAsWritten | studytool.cpp:136-149 | the code's distractor is a deck definition not already shown; when nothing is shown yet or the right definition is already shown, the distractor is certain to differ from the right definition |
| MultipleChoice.SlotFixed | studytool.cpp:136-149 | the corrected distractor is a deck definition, not already shown, and not the right definition |
| MultipleChoice.AsWrittenRepeatsCorrect | studytool.cpp:136-149 | a concrete deck and draws on which the code shows the right definition as a distractor, while the corrected rule does not |
| MultipleChoice.Redraw | studytool.cpp:143-149 | the redraw loop computes `FirstDrawAvoiding` |
| MultipleChoice.PickDistractor | studytool.cpp:135-152 | one distractor slot computes `SlotAsWritten` (the code) or `SlotFixed` (the correction) |
| MultipleChoice.FillSlotsShow | studytool.cpp:130-154 | filling the remaining slots puts the right definition at its slot and, at every other slot, a deck definition not shown earlier (under the corrected rule, never the right definition); each distractor slot takes at least one draw |
| MultipleChoice.SlotsStep | studytool.cpp:130-154 | placing the right definition at its slot, or a fresh distractor at another slot, keeps what the slots so far show |
| MultipleChoice.OptionsShown | studytool.cpp:130-154 | slots filled that way to the last slot make a question `Shown` for the right definition, and `Presented` under the corrected rule |
| MultipleChoice.SingleOption | studytool.cpp:124-154 | with one term, the question's single option is the right definition, and it takes exactly one draw |
| MultipleChoice.QuestionShown | studytool.cpp:124-154 | a question built from the draws has `min(4, n)` options; the right slot is the first draw mod the option count, plus one, and shows the term's definition; the question is `Shown` under either rule and `Presented` under the corrected one; it runs out of draws when fewer than one per slot remain |
| MultipleChoice.BuildQuestion | studytool.cpp:124-154 | the question is the one `QuestionFrom` draws: it gives up exactly when that runs out of draws. Its `min(4, n)` options hold the term's definition at the slot chosen by the first draw, and every other option is a deck definition not shown earlier; these facts make up `Shown`, under either rule. With the corrected rule the question is also `Presented` (all options distinct). It needs one draw per slot. With one term, the single option is the right definition |
| MultipleChoice.FillOptions | studytool.cpp:130-154 | the slot loop fills exactly the slots `FillSlots` describes and gives up exactly when it does |
| MultipleChoice.Correct | studytool.cpp:165-167 | the number of correctly guessed rounds is at most the number of rounds |
| MultipleChoice.RoundsFrom | studytool.cpp:121-169 | a game that finishes plays one round for each remaining term, after the rounds already played |
| MultipleChoice.RoundPlayed | studytool.cpp:121-169 | a round that gets its question and a valid guess moves the game on to the next term, with that round added |
| MultipleChoice.RoundStopped | studytool.cpp:121-169 | a round whose question runs out of draws, or that finds no valid guess, leaves the game unfinished |
| MultipleChoice.FinishedStep | studytool.cpp:121-169 | a finished game played each round: its question is the builder's for the term, its guess is the first valid token, and the rest of the game finishes with the same rounds |
| MultipleChoice.OneTermQuiz | studytool.cpp:121-169 | with a single term the game finishes exactly when there is a draw and a valid guess token |
| MultipleChoice.RoundsKept | studytool.cpp:121-169 | a finished game keeps the rounds already played, in order, and adds the rest after them |
| MultipleChoice.RoundAt | studytool.cpp:121-154 | the question of every round of a finished game is the one the question builder draws for that round's term, from some point of the draws |
| MultipleChoice.RoundShown | studytool.cpp:121-154 | a question the deck's builder draws for term `i` is shown as the rule guarantees, for the definition at the term's first occurrence |
| MultipleChoice.AskerAt | studytool.cpp:123-128 | the deck's builder draws, for each term, the question `QuestionFrom` draws for the term's first occurrence |
| MultipleChoice.GuessesStep | studytool.cpp:157-163 | reading one more valid guess for a round adds that round's guess to the guesses read so far |
| MultipleChoice.RoundsGuesses | studytool.cpp:157-163 | the rounds of a finished game read, one per term, exactly the guesses the prompt reads when asked once per term |
| MultipleChoice.QuizShown | studytool.cpp:121-154 | a finished game has one round per term, each question `Shown` for the term's first-occurrence definition, and `Presented` under the corrected rule |
| MultipleChoice.QuizGuesses | studytool.cpp:157-163 | a finished game's guesses are the first valid guess tokens of the input, in order, one per term |
| Matching.Swap | studytool.cpp:202 | a swap exchanges two positions and leaves the rest unchanged |
| Matching.SwapPermutes | studytool.cpp:202 | a swap keeps the same elements, each as often as before |
| Matching.FisherYates | studytool.cpp:202 | the shuffle keeps the length and is a permutation (same multiset) |
| Matching.ShuffleInPlace | studytool.cpp:202 | shuffling the array in place leaves the `FisherYates` permutation of its old contents |
| StudyTool.PlayRound | studytool.cpp:121-163 | one round, with the given distractor rule, shows the question `QuestionFrom` draws for the term, so `QuestionShown` applies to it; it then reads the first valid guess token; it fails exactly when the question runs out of draws or no valid guess remains |
| StudyTool.PlayQuiz | studytool.cpp:121-169 | given a question builder that agrees with `QuestionFrom` on every term, the round loop plays the game `RoundsFrom` describes, scored by `Scored`: it finishes exactly when every round finds its draws and a valid guess, with those rounds and their score |
| StudyTool.PairUp | studytool.cpp:193-196 | the pairs are the terms zipped with the definitions, position by position |
| StudyTool.ScoreMatches | studytool.cpp:205-219 | the matching score counts the typed definitions that equal the shuffled pair's definition; it finishes iff there is an answer per pair |
| StudyTool.StarPass | studytool.cpp:50-76 | the first flashcard pass reads one star decision per card, and stars exactly the cards decided "star"; it fails exactly when the replies run out |
| StudyTool.Replay | studytool.cpp:87-97 | the replay shows each starred term with the starred definition at the same position |
| StudyTool.ChallengeOutcome | studytool.cpp:249-266 | from any point of the challenge: terms are asked in order while the clock is within the deadline; it stops only at a reading past the deadline or at the end; the score counts exact answers; it is unfinished only when the answers run out with time and terms left |
| StudyTool.TimedOutcome | studytool.cpp:246-266 | for the whole challenge: the score is at most the number of terms asked, which is at most the deck size; every reading before an asked term is within the deadline; an early stop follows a reading past it; the score counts answers equal to the first-occurrence definition; a negative limit with a clock that does not go back asks nothing |
| StudyTool.EqualsIsEquivalence | studytool.cpp:284-286 | comparing tools by score is reflexive, symmetric and transitive |
| StudyTool.StudyTool.constructor | studytool.cpp:30-31 | a new tool holds the given terms and definitions and a score of 0 |
| StudyTool.StudyTool.Playflip | studytool.cpp:42-105 | the session is `FlipSession`: the starred lists are equally long and no longer than the deck; the replay is empty or every starred card in order; with no cards only the restudy question is asked, and nothing is starred |
| StudyTool.StudyTool.Mult | studytool.cpp:118-174 | the game is `QuizSession`: it is unfinished exactly when some round's question runs out of draws or the guess tokens run out of valid guesses. With no terms the score is 0. A finished game has one round per term, in order. Each question is `Shown` for the term's first-occurrence definition under either rule (option count, right slot, distractors not repeating earlier options, none after the right slot equal to it), and `Presented` (all options distinct) under the corrected rule. The score is the number of right guesses, at most the number of terms. The guesses are the first valid guess tokens, in order |
| StudyTool.StudyTool.MatchingGame | studytool.cpp:185-225 | fewer than two terms or definitions, or unequal counts, give score 0 and ask nothing; otherwise the pairs asked are the `FisherYates` permutation of the zipped deck; the score counts exact answers; it finishes iff there is an answer per pair |
| StudyTool.StudyTool.TimeChallenge | studytool.cpp:239-272 | the challenge is `Challenge` over the first-occurrence definitions, with the deadline `clock(0) + timeLimit` seconds; its properties are `TimedOutcome` |

## Left out

- Console output, `system("clear")` and the prompts' wording are not modelled.
- The flip keypress (`cin.get()`, `studytool.cpp:54`, `studytool.cpp:90-95`) is not modelled: every card is taken as flipped. A character other than newline shows the term again, and in the replay it skips that definition. The replies are the `getline` lines only.
- The `cin.ignore()` calls (`studytool.cpp:162`, `studytool.cpp:171`, `studytool.cpp:244`) are not modelled. An invalid guess token counts as one rejected guess, whatever its length.
- `rand()` is not modelled: its results are a sequence of draws. The rejection loops, which never end when the deck has too few distinct definitions, end with `Unfinished` when the draws run out.
- `std::shuffle` with `default_random_engine` is the forward Fisher–Yates walk over an engine function. How the library maps an engine value into `[0, i]` is abstracted as `% (i + 1)`. The seed from the system clock is part of the engine.
- `steady_clock` readings are a function.
- Scores are unbounded naturals. An `int` overflow is not modelled.
- The member `score` is never written by any mode. The mode methods do not modify the tool, and the score each mode returns is its result.
- The menu loop (`main.cpp`), the result export, the plotting script (`plots.py`), the GUI (`studytool_gui.py`) and the header are not part of this model.

## Findings

| source | as written | input that shows it | evidently intended | confidence | as-written member | corrected member |
|---|---|---|---|---|---|---|
| studytool.cpp:136-149 | a distractor is redrawn until it differs from the right definition, then redrawn until it is not among the options shown, without checking the right definition again | definitions `a, b, c, d`; term with definition `a`; `b` already at slot 1, the right answer at a later slot; next draws pick `b`, then `a`: the option shown is `a`, a second copy of the right answer | every distractor differs from the right definition and from every option shown | not executed | MultipleChoice.AsWrittenRepeatsCorrect | MultipleChoice.SlotFixed |
