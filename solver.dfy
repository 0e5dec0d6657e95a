/** The two solver loops: one manual turn on externally supplied guess and
    result, and the self-play sessions that replay every corpus word. */
module Solver {
  import opened Words
  import opened Codec
  import opened Filter
  import opened Frequency
  import opened Scoring

  lemma {:induction false} SubsetCard(a: set<string>, b: set<string>)
    requires a <= b
    ensures |a| <= |b|
  {
    if a != {} {
      var x :| x in a;
      SubsetCard(a - {x}, b - {x});
    }
  }

  /** The distinct survivors are among the distinct candidates; when the guess
      was a candidate and fails its own feedback, one fewer at least. */
  lemma FilterDistinct(words: seq<string>, guess: string, result: string)
    requires FiveLong(words) && |guess| == WordLength && |result| == WordLength
    ensures Distinct(FilterSpec(words, guess, result)) <= Distinct(words)
    ensures |Distinct(FilterSpec(words, guess, result))| <= |Distinct(words)|
    ensures guess in words && guess !in FilterSpec(words, guess, result) ==>
      |Distinct(FilterSpec(words, guess, result))| < |Distinct(words)|
  {
    var a, b := Distinct(FilterSpec(words, guess, result)), Distinct(words);
    forall w | w in a ensures w in b {
      FilterInWords(words, guess, result, w);
    }
    SubsetCard(a, b);
    if guess in words && guess !in FilterSpec(words, guess, result) {
      SubsetCard(a, b - {guess});
    }
  }

  /** What a self-play session reports: the solving guess with the number of
      tries, or the "Unable to guess word" anomaly. */
  datatype SessionOutcome = Solved(guess: string, tries: nat) | Unable

  /** The state a session loop iteration starts from: before the first try the
      no-op start pair, afterwards a wrong guess that was a candidate and its feedback. */
  predicate PlayState(words: seq<string>, guess: string, result: string, secret: string, tries: nat) {
    && AllWords(words) && IsWord(secret) && |guess| == WordLength && |result| == WordLength
    && (tries == 0 ==> guess == StartGuess && result == StartResult)
    && (tries > 0 ==> IsWord(guess) && guess in words && result == Feedback(guess, secret) && result != AllCorrect)
  }

  /** The filter step of a session iteration strictly shrinks the measure. */
  lemma PlayStepShrinks(words: seq<string>, guess: string, result: string, secret: string, tries: nat)
    requires PlayState(words, guess, result, secret, tries)
    ensures AllWords(FilterSpec(words, guess, result))
    ensures tries == 0 ==> FilterSpec(words, guess, result) == words
    ensures tries > 0 ==> |Distinct(FilterSpec(words, guess, result))| < |Distinct(words)|
  {
    FilterShrinks(words, guess, result);
    if tries == 0 {
      StartFilterKeepsAll(words);
    } else {
      SolvedIffGuessIsSecret(guess, secret);
      WrongGuessRemoved(words, guess, secret);
      FilterDistinct(words, guess, result);
    }
  }

  /** The rest of a self-play session from the given state: filter, give up on
      an empty list, tabulate, select, encode, stop on "22222". Returns the final
      list and the outcome. */
  ghost function Play(words: seq<string>, guess: string, result: string, secret: string, tries: nat): (seq<string>, SessionOutcome)
    requires PlayState(words, guess, result, secret, tries)
    decreases |Distinct(words)|, if tries == 0 then 1 else 0
  {
    PlayStepShrinks(words, guess, result, secret, tries);
    var kept := FilterSpec(words, guess, result);
    if |kept| == 0 then (kept, Unable)
    else
      SelectAmongCandidates(kept);
      var best := Select(kept, TableOf(kept)).0;
      var fb := Feedback(best, secret);
      if fb == AllCorrect then (kept, Solved(best, tries + 1))
      else Play(kept, best, fb, secret, tries + 1)
  }

  /** Every word of a list whose distinct words are among a word list's is a word. */
  lemma WithinWords(ws: seq<string>, words: seq<string>)
    requires AllWords(words) && Distinct(ws) <= Distinct(words)
    ensures AllWords(ws)
  {
    forall k | 0 <= k < |ws| ensures IsWord(ws[k]) {
      assert ws[k] in Distinct(ws);
      var j :| 0 <= j < |words| && words[j] == ws[k];
    }
  }

  /** For any secret, a session leaves corpus words drawn from its candidates. */
  lemma PlayKeepsWords(words: seq<string>, guess: string, result: string, secret: string, tries: nat)
    requires PlayState(words, guess, result, secret, tries)
    ensures AllWords(Play(words, guess, result, secret, tries).0)
    ensures Distinct(Play(words, guess, result, secret, tries).0) <= Distinct(words)
  {
    PlayWithin(words, guess, result, secret, tries);
    WithinWords(Play(words, guess, result, secret, tries).0, words);
  }

  lemma {:induction false} PlayWithin(words: seq<string>, guess: string, result: string, secret: string, tries: nat)
    requires PlayState(words, guess, result, secret, tries)
    ensures Distinct(Play(words, guess, result, secret, tries).0) <= Distinct(words)
    decreases |Distinct(words)|, if tries == 0 then 1 else 0
  {
    PlayStepShrinks(words, guess, result, secret, tries);
    FilterDistinct(words, guess, result);
    var kept := FilterSpec(words, guess, result);
    if |kept| > 0 {
      SelectAmongCandidates(kept);
      var best := Select(kept, TableOf(kept)).0;
      var fb := Feedback(best, secret);
      if fb != AllCorrect {
        PlayWithin(kept, best, fb, secret, tries + 1);
        assert Play(words, guess, result, secret, tries) == Play(kept, best, fb, secret, tries + 1);
      }
    }
  }

  /** A session gives up exactly when it leaves no candidate, and when it
      reports a solve, the guess is the secret, is still a candidate and took at
      least one more try. */
  lemma {:induction false} PlayResult(words: seq<string>, guess: string, result: string, secret: string, tries: nat)
    requires PlayState(words, guess, result, secret, tries)
    ensures Play(words, guess, result, secret, tries).1.Unable? <==> |Play(words, guess, result, secret, tries).0| == 0
    ensures Play(words, guess, result, secret, tries).1.Solved? ==>
      && Play(words, guess, result, secret, tries).1.guess == secret
      && Play(words, guess, result, secret, tries).1.guess in Play(words, guess, result, secret, tries).0
      && tries < Play(words, guess, result, secret, tries).1.tries
    decreases |Distinct(words)|, if tries == 0 then 1 else 0
  {
    PlayStepShrinks(words, guess, result, secret, tries);
    var kept := FilterSpec(words, guess, result);
    if |kept| > 0 {
      SelectAmongCandidates(kept);
      var best := Select(kept, TableOf(kept)).0;
      var fb := Feedback(best, secret);
      SolvedIffGuessIsSecret(best, secret);
      if fb != AllCorrect {
        PlayResult(kept, best, fb, secret, tries + 1);
        assert Play(words, guess, result, secret, tries) == Play(kept, best, fb, secret, tries + 1);
      } else {
        assert Play(words, guess, result, secret, tries) == (kept, Solved(best, tries + 1));
      }
    } else {
      assert Play(words, guess, result, secret, tries) == (kept, Unable);
    }
  }

  /** A solved session took at most as many tries as there were distinct
      candidates: every try after the first ruled out one distinct word, and
      the solving guess was still a candidate. */
  lemma {:induction false} PlayBound(words: seq<string>, guess: string, result: string, secret: string, tries: nat)
    requires PlayState(words, guess, result, secret, tries)
    ensures Play(words, guess, result, secret, tries).1.Solved? ==>
      Play(words, guess, result, secret, tries).1.tries + (if tries > 0 then 1 else 0) <= tries + |Distinct(words)|
    decreases |Distinct(words)|, if tries == 0 then 1 else 0
  {
    PlayStepShrinks(words, guess, result, secret, tries);
    var kept := FilterSpec(words, guess, result);
    if |kept| > 0 {
      SelectAmongCandidates(kept);
      var best := Select(kept, TableOf(kept)).0;
      var fb := Feedback(best, secret);
      if fb != AllCorrect {
        SolvedIffGuessIsSecret(best, secret);
        PlayBound(kept, best, fb, secret, tries + 1);
        assert Play(words, guess, result, secret, tries) == Play(kept, best, fb, secret, tries + 1);
      } else {
        SubsetCard({best}, Distinct(kept));
        assert Play(words, guess, result, secret, tries) == (kept, Solved(best, tries + 1));
      }
    }
  }

  /** With the secret among the candidates a session always ends solved, by
      guessing the secret, and each try after the first rules out one more
      distinct word, so the tries are at most the distinct candidates. */
  lemma {:induction false} PlaySolves(words: seq<string>, guess: string, result: string, secret: string, tries: nat)
    requires PlayState(words, guess, result, secret, tries) && secret in words
    ensures Play(words, guess, result, secret, tries).1.Solved?
    ensures Play(words, guess, result, secret, tries).1.guess == secret
    ensures tries < Play(words, guess, result, secret, tries).1.tries
    ensures Play(words, guess, result, secret, tries).1.tries + (if tries > 0 then 1 else 0) <= tries + |Distinct(words)|
    decreases |Distinct(words)|, if tries == 0 then 1 else 0
  {
    PlayResult(words, guess, result, secret, tries);
    PlayBound(words, guess, result, secret, tries);
    PlayStepShrinks(words, guess, result, secret, tries);
    var kept := FilterSpec(words, guess, result);
    if tries > 0 {
      SecretRetained(words, guess, secret);
    }
    assert secret in kept;
    SelectAmongCandidates(kept);
    var best := Select(kept, TableOf(kept)).0;
    var fb := Feedback(best, secret);
    if fb != AllCorrect {
      SolvedIffGuessIsSecret(best, secret);
      PlaySolves(kept, best, fb, secret, tries + 1);
      assert Play(words, guess, result, secret, tries) == Play(kept, best, fb, secret, tries + 1);
    }
  }

  /** A self-play run over the first `k` corpus words, in order: each session
      starts from the list the previous one left with the corpus appended.
      Returns the list after the `k`-th session and the `k` outcomes. */
  ghost function PlayUpTo(words: seq<string>, corpus: seq<string>, k: nat): (r: (seq<string>, seq<SessionOutcome>))
    requires AllWords(words) && AllWords(corpus) && k <= |corpus|
    ensures AllWords(r.0) && |r.1| == k
  {
    if k == 0 then (words, [])
    else
      var before := PlayUpTo(words, corpus, k - 1);
      PlayKeepsWords(before.0 + corpus, StartGuess, StartResult, corpus[k - 1], 0);
      var session := Play(before.0 + corpus, StartGuess, StartResult, corpus[k - 1], 0);
      (session.0, before.1 + [session.1])
  }

  /** A run from a list of corpus words leaves only corpus words in the list. */
  lemma {:induction false} PlayUpToWithin(words: seq<string>, corpus: seq<string>, k: nat)
    requires AllWords(words) && AllWords(corpus) && k <= |corpus| && Distinct(words) <= Distinct(corpus)
    ensures Distinct(PlayUpTo(words, corpus, k).0) <= Distinct(corpus)
  {
    if k > 0 {
      PlayUpToWithin(words, corpus, k - 1);
      var before := PlayUpTo(words, corpus, k - 1).0;
      assert Distinct(before + corpus) == Distinct(corpus);
      PlayKeepsWords(before + corpus, StartGuess, StartResult, corpus[k - 1], 0);
    }
  }

  /** Outcome `i` is solved by guessing secret `i`, within `bound` tries. */
  predicate AllSolved(outcomes: seq<SessionOutcome>, secrets: seq<string>, bound: int)
    requires |outcomes| <= |secrets|
  {
    forall i :: 0 <= i < |outcomes| ==>
      outcomes[i].Solved? && outcomes[i].guess == secrets[i] && 1 <= outcomes[i].tries <= bound
  }

  lemma AllSolvedAppend(outcomes: seq<SessionOutcome>, last: SessionOutcome, secrets: seq<string>, bound: int)
    requires |outcomes| < |secrets| && AllSolved(outcomes, secrets, bound)
    requires last.Solved? && last.guess == secrets[|outcomes|] && 1 <= last.tries <= bound
    ensures AllSolved(outcomes + [last], secrets, bound)
  {
  }

  /** In a run from a list of corpus words, every session is solved by its own
      corpus word within as many tries as there are distinct corpus words. */
  lemma {:induction false} PlayUpToSolves(words: seq<string>, corpus: seq<string>, k: nat)
    requires AllWords(words) && AllWords(corpus) && k <= |corpus| && Distinct(words) <= Distinct(corpus)
    ensures AllSolved(PlayUpTo(words, corpus, k).1, corpus, |Distinct(corpus)|)
  {
    if k > 0 {
      PlayUpToSolves(words, corpus, k - 1);
      PlayUpToWithin(words, corpus, k - 1);
      var before := PlayUpTo(words, corpus, k - 1);
      var start := before.0 + corpus;
      assert Distinct(start) == Distinct(corpus);
      PlaySolves(start, StartGuess, StartResult, corpus[k - 1], 0);
      var last := Play(start, StartGuess, StartResult, corpus[k - 1], 0).1;
      AllSolvedAppend(before.1, last, corpus, |Distinct(corpus)|);
    }
  }

  /** The self-play solver. `words` is the dynamic candidate list, which the
      per-session reset only appends to; `fullwords` is the unchanging corpus. */
  class AutoSolver {
    var words: seq<string>
    const fullwords: seq<string>

    ghost predicate Valid()
      reads this
    {
      AllWords(fullwords) && AllWords(words) && Distinct(words) <= Distinct(fullwords)
    }

    /** `fullwords` is copied from `words`, which keeps the corpus too. */
    constructor (corpus: seq<string>)
      requires AllWords(corpus)
      ensures Valid() && words == corpus && fullwords == corpus
    {
      words := corpus;
      fullwords := corpus;
    }

    /** One self-play game against `randomWord`. */
    method Session(randomWord: string) returns (outcome: SessionOutcome)
      requires Valid() && IsWord(randomWord)
      modifies this
      ensures Valid()
      ensures (words, outcome) == Play(old(words) + fullwords, StartGuess, StartResult, randomWord, 0)
      ensures randomWord in fullwords ==>
        outcome.Solved? && outcome.guess == randomWord && 1 <= outcome.tries <= |Distinct(fullwords)|
    {
      // the corpus goes onto the end of whatever the candidate list still holds
      for k := 0 to |fullwords|
        invariant words == old(words) + fullwords[..k]
      {
        words := words + [fullwords[k]];
      }
      assert fullwords[..|fullwords|] == fullwords;
      ghost var start := words;
      assert Distinct(start) == Distinct(fullwords);
      var guess := StartGuess;
      var result := StartResult;
      var tries: nat := 0;
      while true
        invariant PlayState(words, guess, result, randomWord, tries)
        invariant Distinct(words) <= Distinct(fullwords)
        invariant Play(words, guess, result, randomWord, tries) == Play(start, StartGuess, StartResult, randomWord, 0)
        decreases |Distinct(words)|, if tries == 0 then 1 else 0
      {
        PlayStepShrinks(words, guess, result, randomWord, tries);
        FilterDistinct(words, guess, result);
        tries := tries + 1;
        words := FilterCandidates(words, guess, result);
        if |words| == 0 {
          outcome := Unable;
          break;
        }
        var charFreq := BuildTable(words);
        var bestWord, high := SelectBest(words, charFreq);
        SelectAmongCandidates(words);
        guess := bestWord;
        result := Encode(guess, randomWord);
        if result == AllCorrect {
          outcome := Solved(guess, tries);
          break;
        }
      }
      if randomWord in fullwords {
        PlaySolves(start, StartGuess, StartResult, randomWord, 0);
      }
    }

    /** The self-play run: one session per corpus word, in corpus order. */
    method SolveAll() returns (outcomes: seq<SessionOutcome>)
      requires Valid()
      modifies this
      ensures Valid()
      ensures (words, outcomes) == PlayUpTo(old(words), fullwords, |fullwords|)
      ensures |outcomes| == |fullwords|
      ensures forall k :: 0 <= k < |fullwords| ==>
        outcomes[k].Solved? && outcomes[k].guess == fullwords[k] && 1 <= outcomes[k].tries <= |Distinct(fullwords)|
    {
      outcomes := [];
      for k := 0 to |fullwords|
        invariant Valid()
        invariant (words, outcomes) == PlayUpTo(old(words), fullwords, k)
      {
        var outcome := Session(fullwords[k]);
        outcomes := outcomes + [outcome];
      }
      PlayUpToSolves(old(words), fullwords, |fullwords|);
    }
  }

  /** What a manual turn reports. */
  datatype TurnOutcome =
    | Guessed(tries: nat)
    | Exhausted
    | OnlyWord(word: string)
    | Recommend(remaining: nat, best: string, high: int)

  /** The three-way report on the filtered list's size. */
  function Report(words: seq<string>, best: string, high: int): (r: TurnOutcome)
    ensures r.Exhausted? <==> |words| == 0
    ensures r.OnlyWord? <==> |words| == 1
    ensures r.OnlyWord? ==> r.word == words[0]
    ensures r.Recommend? ==> r.remaining == |words| && r.best == best && r.high == high
    ensures !r.Guessed?
  {
    if |words| == 0 then Exhausted
    else if |words| == 1 then OnlyWord(words[0])
    else Recommend(|words|, best, high)
  }

  /** The manual solver: the candidate list and the guess counter persist across turns. */
  class ManualSolver {
    var words: seq<string>
    const expandedWords: seq<string>
    const allowObscureWords: bool
    var numberOfGuesses: nat

    ghost predicate Valid()
      reads this
    {
      AllWords(words) && AllWords(expandedWords)
    }

    constructor (restricted: seq<string>, expanded: seq<string>, allowObscure: bool)
      requires AllWords(restricted) && AllWords(expanded)
      ensures Valid()
      ensures words == restricted && expandedWords == expanded && allowObscureWords == allowObscure
      ensures numberOfGuesses == 0
    {
      words := restricted;
      expandedWords := expanded;
      allowObscureWords := allowObscure;
      numberOfGuesses := 0;
    }

    /** The guess pool: the expanded corpus when obscure words are allowed, else the candidates. */
    function Pool(): (p: seq<string>)
      reads this
      ensures allowObscureWords ==> p == expandedWords
      ensures !allowObscureWords ==> p == words
      ensures Valid() ==> AllWords(p)
    {
      if allowObscureWords then expandedWords else words
    }

    /** One turn on a guess and the result the player read off the game. */
    method Turn(guess: string, result: string) returns (outcome: TurnOutcome)
      requires Valid() && |guess| == WordLength && |result| == WordLength
      modifies this
      ensures Valid()
      ensures numberOfGuesses == old(numberOfGuesses) + 1
      ensures result == AllCorrect ==> words == old(words) && outcome == Guessed(numberOfGuesses)
      ensures result != AllCorrect ==>
        words == FilterSpec(old(words), guess, result) &&
        outcome == Report(words, Select(Pool(), TableOf(words)).0, Select(Pool(), TableOf(words)).1)
    {
      numberOfGuesses := numberOfGuesses + 1;
      if result == AllCorrect {
        outcome := Guessed(numberOfGuesses);
        return;
      }
      FilterShrinks(words, guess, result);
      words := FilterCandidates(words, guess, result);
      var charFreq := BuildTable(words);
      var possibleWords := if allowObscureWords then expandedWords else words;
      var bestWord, high := SelectBest(possibleWords, charFreq);
      if |words| == 0 {
        outcome := Exhausted;
      } else if |words| == 1 {
        outcome := OnlyWord(words[0]);
      } else {
        outcome := Recommend(|words|, bestWord, high);
      }
    }
  }
}
