# Wordle solver — constraint filter, frequency scorer and solver loops

This project models the algorithmic core of a Wordle solver written as one Java
`main` method (`Solver.java`). Given a list of candidate five-letter words and a
guess with its colour feedback (`0` grey, `1` yellow, `2` green), the solver
removes every candidate the feedback rules out. It then counts letters per
position over the survivors, scores words by those counts and recommends the
highest-scoring word. A self-play mode replays the game against every corpus
word, with its own feedback encoder, and reports the number of tries.

The source repeats the filter, table, scorer and selection code in the manual
branch and in the self-play branch. Here each one is a single routine that both
loops call.

- `words.dfy` (module `Words`): five-letter lowercase words, `indexOf`, and the
  `(int)c - 97` column index.
- `feedback.dfy` (module `Codec`): the self-play encoder. It fills an `int[5]`
  and joins the digits. It uses per-position membership: `2` for an exact
  match, else `1` if the secret contains the letter, else `0`.
- `filter.dfy` (module `Filter`): the per-position keep test and the in-place
  `remove(i); i--` loop, proved equal to an order-preserving reference filter.
- `frequency.dfy` (module `Frequency`): the zero-initialised `int[5][26]` table,
  filled by five unrolled increments per word.
- `scoring.dfy` (module `Scoring`): the `usedLetters` scorer and the
  `high`/`bestWord` selection loop.
- `solver.dfy` (module `Solver`): the manual turn on a class holding the
  candidate list and the guess counter, and the self-play sessions on a class
  holding the dynamic list `words` and the fixed corpus `fullwords`.

Where the source's comments and its code disagree, or the code does something
a reader might not expect, the model follows the code:

- **Repeated letters in the scorer.** The comment at `Solver.java:149-151`
  says a repeated letter should count at its highest-scoring position. The code
  does not do this. In the branch that moves the claim (`Solver.java:155-159`),
  line 158 reads `usedLetters.indexOf(c)` after `c` was appended at position
  `i`. So it subtracts the count it adds on line 159. Each distinct letter
  therefore contributes its count at its *first* position. `ScoreWord` is
  proved equal to that closed form (`Score`). `IntendedScore` describes the
  comment's intent, and `SassyOnLateSTable` shows a table on which the two
  differ.
- **Feedback example.** Against the secret `trace`, the encoder gives `12202`
  for `crane`. Filtering `crane, slate, trace, grape` with it leaves only
  `trace`.
- **Self-play reset.** No fresh copy is made at the start of a session.
  `fullwords` is *appended* to `words` (`Solver.java:203-205`). `words` already
  held the corpus (`Solver.java:197-199`) and keeps whatever earlier sessions
  left in it. Candidates are therefore a list with multiplicity, and the bounds
  are stated in terms of distinct words.
- **The `0` rule.** For a grey position `j`, a candidate `w` containing
  `guess[j]` is spared only if the result digit is `2` at the position of the
  first occurrence of that letter *in `w`*. This is what line 91 does.

## Model

| member | source | states |
|---|---|---|
| `Words.Idx` | Solver.java:130-134 | for a lowercase letter, `(int)c - 97` is a column of the 26-column table, and adding 97 back gives the letter |
| `Words.IndexOf` | Solver.java:91-98 | `indexOf` is -1 exactly when the element is absent; otherwise it is a position holding the element with no earlier occurrence |
| `Codec.DigitChar` | Solver.java:311 | concatenating the digit 0, 1 or 2 into the result string gives the character '0', '1' or '2' |
| `Codec.Encode` | Solver.java:302-311 | each digit is 2 iff the guess letter equals the secret letter at that position; else 1 iff the secret contains the letter; else 0 (0 iff the letter is absent from the secret) |
| `Codec.SolvedIffGuessIsSecret` | Solver.java:311-318 | the encoded result is "22222" exactly when the guess is the secret |
| `Filter.PositionOkMeaning` | Solver.java:88-110 | one position of the switch: a '0' letter may occur in the candidate only if the result is '2' at its first occurrence there; a '1' letter must occur in it, but not at this position; a '2' letter must be at this position; any other symbol passes |
| `Filter.KeepMeaning` | Solver.java:86-114 | a candidate is kept iff all greens match, every yellow letter occurs elsewhere in it, and each grey letter it contains has a '2' at its first occurrence |
| `Filter.FilterCandidates` | Solver.java:82-121 | the `remove(i); i--` scan (repeated at 213-245) leaves exactly the words that pass the keep test at all five positions, in their original order, duplicates included |
| `Filter.FilterCount` | Solver.java:82-121 | a word occurs among the survivors as often as among the candidates if it passes the keep test, and not at all otherwise |
| `Filter.FilterMembers` | Solver.java:112-120 | a word survives iff it was a candidate and passes the keep test |
| `Filter.FilterShrinks` | Solver.java:117-120 | the filter never adds entries: the list never grows, and the survivors are still corpus words |
| `Filter.OtherSymbolsKeepAll` | Solver.java:108-109 | a result made only of characters other than 0, 1 and 2 removes no word |
| `Filter.StartFilterKeepsAll` | Solver.java:208-221 | the self-play start pair `"*****"`/`"00000"` removes no corpus word |
| `Filter.AllCorrectKeepsGuessOnly` | Solver.java:102-106 | on all-green feedback a word passes iff it is the guess |
| `Filter.AllCorrectFilter` | Solver.java:102-106 | on all-green feedback the survivors are exactly all copies of the guess among the candidates |
| `Filter.SecretPasses` | Solver.java:303-310 | the secret passes the keep test of the encoder's feedback on any guess |
| `Filter.SecretRetained` | Solver.java:247-249 | a secret among the candidates survives a filter pass with the encoder's feedback, so the "should never run" empty-list branch is unreachable |
| `Filter.WrongGuessFails` | Solver.java:217-231 | a guess other than the secret fails the keep test of its own feedback |
| `Filter.WrongGuessRemoved` | Solver.java:241-244 | a wrong guess is absent from the candidates after the next filter pass |
| `Filter.CraneAgainstTraceFeedback` | Solver.java:303-310 | the encoder gives "12202" for guess "crane" against secret "trace" |
| `Filter.CraneAgainstTraceFilter` | Solver.java:88-110 | with that result, "trace" is the only survivor among crane, slate, trace, grape |
| `Frequency.BuildTable` | Solver.java:125-135 | the table's cell (p, c) is the number of candidates, with multiplicity, whose letter at position p is 'a' + c |
| `Frequency.RowSum` | Solver.java:127-135 | every row of the table sums to the number of candidates |
| `Frequency.CandidateCounted` | Solver.java:130-134 | a candidate's letter at each of its positions has a count of at least 1 |
| `Scoring.ScoreWord` | Solver.java:146-167 | the `usedLetters` scorer returns the sum, over the distinct letters of the word, of each letter's count at its first position (the claim-moving branch is net zero) |
| `Scoring.MoveClaim` | Solver.java:155-159 | after moving a claim, `usedLetters` still has one entry per position with no letter twice, and `indexOf(c)` is the current position, so lines 158-159 cancel |
| `Scoring.ScoreNonNegative` | Solver.java:152-167 | on a table of counts the score is never negative |
| `Scoring.ScoreAtLeastFirstLetter` | Solver.java:163-166 | the score is at least the count of the word's first letter at position 0 |
| `Scoring.ScoreBelowCap` | Solver.java:152-167 | the score is at most the sum of the column maxima of the word's distinct letters |
| `Scoring.ScoreBelowIntended` | Solver.java:149-151 | the score as written is at most the highest-occurrence score the comment describes |
| `Scoring.SassyOnLateSTable` | Solver.java:155-159 | for "sassy" on a table where 's' is more frequent at position 3, the code scores 3 where the comment's intent would score 7 |
| `Scoring.SelectBest` | Solver.java:138-178 | the selection loop (repeated at 268-298) returns the fold of strict `>` over the pool, starting from `""` and 0 |
| `Scoring.SelectFirstMax` | Solver.java:173-177 | the selection is the first word with the maximum score, and `high` is that score, when the score is positive; otherwise it is `""` with 0 |
| `Scoring.SelectAmongCandidates` | Solver.java:268-298 | scored on their own table, the candidates always yield a candidate with a score of at least 1 |
| `Solver.PlayStepShrinks` | Solver.java:213-245 | the first filter pass of a session keeps the list unchanged; every later pass has strictly fewer distinct words |
| `Solver.FilterDistinct` | Solver.java:213-245 | the distinct survivors are a subset of the distinct candidates; removing a candidate guess drops at least one |
| `Solver.PlayKeepsWords` | Solver.java:211-319 | whatever the secret, a session leaves only words drawn from its starting candidates |
| `Solver.PlayResult` | Solver.java:249-252 | a session reports "Unable to guess word" exactly when it leaves no candidate; a reported solve guessed the secret, which is still a candidate, after at least one more try (Solver.java:314-317) |
| `Solver.PlayBound` | Solver.java:211-319 | a solved session took at most as many tries as there were distinct candidates |
| `Solver.PlaySolves` | Solver.java:211-319 | if the secret is a candidate, the session ends solved by guessing the secret, after at most as many tries as there are distinct candidates |
| `Solver.PlayUpTo` | Solver.java:201-320 | the run over the first k corpus words produces exactly k outcomes and leaves a list of corpus words |
| `Solver.PlayUpToWithin` | Solver.java:201-205 | appending the corpus before every session never brings in a word outside the corpus |
| `Solver.PlayUpToSolves` | Solver.java:201-320 | in a run from corpus words, session i is solved by corpus word i within as many tries as there are distinct corpus words |
| `Solver.Report` | Solver.java:180-188 | a manual turn reports exhaustion iff no candidate remains; it reports the single remaining word, `words.get(0)`, iff exactly one does; otherwise it reports the number of candidates with the selected word and its score |
| `Solver.AutoSolver.constructor` | Solver.java:193-199 | `fullwords` is a copy of the corpus, and `words` still holds it |
| `Solver.AutoSolver.Session` | Solver.java:201-319 | the session first appends the corpus to `words`, then runs filter, table, selection and encoding until "22222" or an empty list; the final list and the outcome are those of `Play`; for a corpus secret it is solved by the secret in at most as many tries as there are distinct corpus words |
| `Solver.AutoSolver.SolveAll` | Solver.java:201-320 | the final list and the outcomes, tries included, are exactly those of `PlayUpTo` over the whole corpus from the starting list; so there is one outcome per corpus word, in corpus order, each solved by that word in at most as many tries as there are distinct corpus words |
| `Solver.ManualSolver.Pool` | Solver.java:140-144 | the guess pool is the expanded corpus when obscure words are allowed and the remaining candidates otherwise; either way it holds five-letter words |
| `Solver.ManualSolver.constructor` | Solver.java:56-59 | the candidates start as the restricted corpus, with the guess counter at 0 |
| `Solver.ManualSolver.Turn` | Solver.java:73-188 | counts the guess first; on "22222" it reports the count and leaves the candidates alone; otherwise it filters, tabulates the survivors, selects from the pool (the expanded corpus when obscure words are allowed) and reports by the survivors' count |

## Left out

- Loading the two word lists and their `FileNotFoundException`/`IOException` handling (Solver.java:20-44): this is file I/O. The corpus lists are constructor parameters.
- The `Scanner` prompts, mode selection, the obscure-words question and the `"exit"` sentinel (Solver.java:47-72): this is console input. Guess and result are parameters of `Turn`, and the caller repeats turns until an outcome is terminal.
- All printing: the listing of at most 20 candidates (Solver.java:170-171), the result and anomaly messages, and the debug print of the word length (Solver.java:258-259). Outcomes are returned as datatypes instead.
- Input validation: the code performs none. Words are required to be five lowercase letters, and guess and result to be five characters long.
- `Filter.FilterCandidates`: requires a result of exactly five characters. The source also accepts longer strings, of which only the first five characters are read.
- `Solver.AutoSolver.Session`: the try bound proved is the number of distinct corpus words, not the handful of tries the heuristic usually takes. The heuristic's quality is not a property of the code.
- Java's 32-bit `int` for counts and scores: these are at most five times the list length, so they are modelled as unbounded integers.
- The unused `Random` import.
