/** The constraint filter: one (guess, result) observation removes every
    candidate that the per-position keep test rejects. */
module Filter {
  import opened Words
  import opened Codec

  /** Every entry of the list has five characters (all the filter needs). */
  predicate FiveLong(ws: seq<string>) {
    forall k :: 0 <= k < |ws| ==> |ws[k]| == WordLength
  }

  /** The keep test of the switch on `result[j]` for candidate `w`:
      '0' rejects `w` if it contains `guess[j]`, unless the result digit at the
      position of the first such letter in `w` is '2';
      '1' demands that `w` contains `guess[j]`, but not at position `j`;
      '2' demands `w[j] == guess[j]`;
      any other character constrains nothing. */
  predicate PositionOk(w: string, guess: string, result: string, j: int)
    requires |w| == WordLength && |guess| == WordLength && |result| == WordLength
    requires 0 <= j < WordLength
  {
    match result[j]
    case '0' => !(IndexOf(w, guess[j]) >= 0 && result[IndexOf(w, guess[j])] != '2')
    case '1' => !(IndexOf(w, guess[j]) < 0 || w[j] == guess[j])
    case '2' => w[j] == guess[j]
    case _ => true
  }

  /** A candidate survives when no position asks for its removal. */
  predicate Keep(w: string, guess: string, result: string)
    requires |w| == WordLength && |guess| == WordLength && |result| == WordLength
  {
    forall j :: 0 <= j < WordLength ==> PositionOk(w, guess, result, j)
  }

  /** The position test in terms of membership: a grey letter may occur in `w`
      only where its first occurrence is green; a yellow letter must occur in
      `w`, elsewhere than here; a green letter must be here; other symbols pass. */
  lemma PositionOkMeaning(w: string, guess: string, result: string, j: int)
    requires |w| == WordLength && |guess| == WordLength && |result| == WordLength
    requires 0 <= j < WordLength
    ensures result[j] == '0' ==> (PositionOk(w, guess, result, j) <==>
      forall q :: 0 <= q < WordLength && w[q] == guess[j] && guess[j] !in w[..q] ==> result[q] == '2')
    ensures result[j] == '1' ==> (PositionOk(w, guess, result, j) <==> guess[j] in w && w[j] != guess[j])
    ensures result[j] == '2' ==> (PositionOk(w, guess, result, j) <==> w[j] == guess[j])
    ensures result[j] != '0' && result[j] != '1' && result[j] != '2' ==> PositionOk(w, guess, result, j)
  {
  }

  /** The keep test as three families of constraints: the greens, the yellows
      and the greys of the result. */
  lemma KeepMeaning(w: string, guess: string, result: string)
    requires |w| == WordLength && |guess| == WordLength && |result| == WordLength
    ensures Keep(w, guess, result) <==>
      && (forall j :: 0 <= j < WordLength && result[j] == '2' ==> w[j] == guess[j])
      && (forall j :: 0 <= j < WordLength && result[j] == '1' ==> guess[j] in w && w[j] != guess[j])
      && (forall j :: 0 <= j < WordLength && result[j] == '0' && guess[j] in w ==> result[IndexOf(w, guess[j])] == '2')
  {
    forall j | 0 <= j < WordLength
      ensures PositionOk(w, guess, result, j) <==>
        && (result[j] == '2' ==> w[j] == guess[j])
        && (result[j] == '1' ==> guess[j] in w && w[j] != guess[j])
        && (result[j] == '0' && guess[j] in w ==> result[IndexOf(w, guess[j])] == '2')
    {
      PositionOkMeaning(w, guess, result, j);
    }
  }

  /** The survivors, in their original order and with their multiplicity. */
  function FilterSpec(words: seq<string>, guess: string, result: string): seq<string>
    requires FiveLong(words) && |guess| == WordLength && |result| == WordLength
  {
    if |words| == 0 then []
    else
      var last := words[|words| - 1];
      FilterSpec(words[..|words| - 1], guess, result) + (if Keep(last, guess, result) then [last] else [])
  }

  /** The source's loop: scan forward, `remove(i); i--` for every rejected word,
      stopping the position scan at the first position that rejects it. */
  method FilterCandidates(words: seq<string>, guess: string, result: string) returns (kept: seq<string>)
    requires FiveLong(words) && |guess| == WordLength && |result| == WordLength
    ensures kept == FilterSpec(words, guess, result)
  {
    kept := words;
    var i: int := 0;
    ghost var k := 0;
    while i < |kept|
      invariant 0 <= i <= |kept| && 0 <= k <= |words|
      invariant kept[..i] == FilterSpec(words[..k], guess, result)
      invariant kept[i..] == words[k..]
      decreases |kept| - i
    {
      var willRemove := false;
      assert kept[i] == words[k];
      var word := kept[i];
      for j := 0 to WordLength
        invariant !willRemove
        invariant forall m :: 0 <= m < j ==> PositionOk(word, guess, result, m)
      {
        match result[j] {
          case '0' =>
            if IndexOf(word, guess[j]) >= 0 && result[IndexOf(word, guess[j])] != '2' {
              willRemove := true;
            }
          case '1' =>
            if IndexOf(word, guess[j]) < 0 || word[j] == guess[j] {
              willRemove := true;
            }
          case '2' =>
            if word[j] != guess[j] {
              willRemove := true;
            }
          case _ =>
        }
        if willRemove {
          assert !PositionOk(word, guess, result, j);
          break;
        }
      }
      assert willRemove <==> !Keep(word, guess, result);
      assert words[..k + 1][..k] == words[..k];
      assert kept[i..][1..] == kept[i + 1..] && words[k..][1..] == words[k + 1..];
      if willRemove {
        ghost var prefix := kept[..i];
        kept := kept[..i] + kept[i + 1..];
        assert kept[..i] == prefix && kept[i..] == words[k + 1..];
        i := i - 1;
      } else {
        assert kept[..i + 1] == kept[..i] + [word];
      }
      i := i + 1;
      k := k + 1;
    }
    assert words[..k] == words;
  }

  /** Each word occurs in the survivors as often as in the input when it
      passes the keep test, and not at all otherwise. */
  lemma {:induction false} FilterCount(words: seq<string>, guess: string, result: string, w: string)
    requires FiveLong(words) && |guess| == WordLength && |result| == WordLength && |w| == WordLength
    ensures multiset(FilterSpec(words, guess, result))[w] == if Keep(w, guess, result) then multiset(words)[w] else 0
  {
    if |words| > 0 {
      var init := words[..|words| - 1];
      FilterCount(init, guess, result, w);
      assert words == init + [words[|words| - 1]];
    }
  }

  /** A word survives exactly when it was a candidate and passes the keep test. */
  lemma FilterMembers(words: seq<string>, guess: string, result: string, w: string)
    requires FiveLong(words) && |guess| == WordLength && |result| == WordLength
    ensures w in FilterSpec(words, guess, result) <==> w in words && |w| == WordLength && Keep(w, guess, result)
  {
    if |w| == WordLength {
      FilterCount(words, guess, result, w);
    } else {
      FilterInWords(words, guess, result, w);
    }
  }

  lemma {:induction false} FilterInWords(words: seq<string>, guess: string, result: string, w: string)
    requires FiveLong(words) && |guess| == WordLength && |result| == WordLength
    ensures w in FilterSpec(words, guess, result) ==> w in words
  {
    if |words| > 0 {
      FilterInWords(words[..|words| - 1], guess, result, w);
    }
  }

  /** The survivors are never more numerous than the candidates, and remain corpus words. */
  lemma {:induction false} FilterShrinks(words: seq<string>, guess: string, result: string)
    requires FiveLong(words) && |guess| == WordLength && |result| == WordLength
    ensures |FilterSpec(words, guess, result)| <= |words|
    ensures AllWords(words) ==> AllWords(FilterSpec(words, guess, result))
  {
    if |words| > 0 {
      FilterShrinks(words[..|words| - 1], guess, result);
    }
  }

  /** A result made only of characters other than '0', '1' and '2' keeps every word. */
  lemma OtherSymbolsKeepAll(w: string, guess: string, result: string)
    requires |w| == WordLength && |guess| == WordLength && |result| == WordLength
    requires forall j :: 0 <= j < WordLength ==> result[j] != '0' && result[j] != '1' && result[j] != '2'
    ensures Keep(w, guess, result)
  {
  }

  /** The guess and result the self-play session starts with. */
  const StartGuess: string := "*****"
  const StartResult: string := "00000"

  /** The self-play start filter removes no corpus word: '*' occurs in none. */
  lemma {:induction false} StartFilterKeepsAll(words: seq<string>)
    requires AllWords(words)
    ensures FilterSpec(words, StartGuess, StartResult) == words
  {
    if |words| > 0 {
      var init := words[..|words| - 1];
      StartFilterKeepsAll(init);
      var last := words[|words| - 1];
      forall j | 0 <= j < WordLength ensures PositionOk(last, StartGuess, StartResult, j) {
        assert !IsLetter('*');
        assert IndexOf(last, StartGuess[j]) == -1;
      }
      assert words == init + [last];
    }
  }

  /** All-'2' feedback keeps exactly the copies of the guess. */
  lemma AllCorrectKeepsGuessOnly(w: string, guess: string)
    requires |w| == WordLength && |guess| == WordLength
    ensures Keep(w, guess, AllCorrect) <==> w == guess
  {
    if Keep(w, guess, AllCorrect) {
      forall j | 0 <= j < WordLength ensures w[j] == guess[j] {
        assert PositionOk(w, guess, AllCorrect, j);
      }
    }
  }

  /** On all-'2' feedback the survivors are the guess's copies among the candidates, all of them. */
  lemma AllCorrectFilter(words: seq<string>, guess: string)
    requires FiveLong(words) && |guess| == WordLength
    ensures forall w :: w in FilterSpec(words, guess, AllCorrect) ==> w == guess
    ensures multiset(FilterSpec(words, guess, AllCorrect))[guess] == multiset(words)[guess]
  {
    forall w | w in FilterSpec(words, guess, AllCorrect) ensures w == guess {
      FilterMembers(words, guess, AllCorrect, w);
      AllCorrectKeepsGuessOnly(w, guess);
    }
    FilterCount(words, guess, AllCorrect, guess);
    AllCorrectKeepsGuessOnly(guess, guess);
  }

  /** The secret passes the keep test for the encoder's own feedback on it. */
  lemma SecretPasses(guess: string, secret: string)
    requires |guess| == WordLength && |secret| == WordLength
    ensures Keep(secret, guess, Feedback(guess, secret))
  {
    var r := Feedback(guess, secret);
    forall j | 0 <= j < WordLength ensures PositionOk(secret, guess, r, j) {
      if r[j] == '0' {
        assert guess[j] !in secret;
      }
    }
  }

  /** Secret retention: honest feedback never removes the secret from the candidates. */
  lemma SecretRetained(words: seq<string>, guess: string, secret: string)
    requires FiveLong(words) && |guess| == WordLength && |secret| == WordLength
    requires secret in words
    ensures secret in FilterSpec(words, guess, Feedback(guess, secret))
  {
    SecretPasses(guess, secret);
    FilterMembers(words, guess, Feedback(guess, secret), secret);
  }

  /** A guess that is not the secret fails the keep test of its own feedback. */
  lemma WrongGuessFails(guess: string, secret: string)
    requires |guess| == WordLength && |secret| == WordLength && guess != secret
    ensures !Keep(guess, guess, Feedback(guess, secret))
  {
    var r := Feedback(guess, secret);
    var j :| 0 <= j < WordLength && guess[j] != secret[j];
    if r[j] == '0' {
      var q := IndexOf(guess, guess[j]);
      assert guess[q] == guess[j] && r[q] == '0';
    }
    assert !PositionOk(guess, guess, r, j);
  }

  /** Hence a wrong guess is gone from the candidates after the next filter pass. */
  lemma WrongGuessRemoved(words: seq<string>, guess: string, secret: string)
    requires FiveLong(words) && |guess| == WordLength && |secret| == WordLength && guess != secret
    ensures guess !in FilterSpec(words, guess, Feedback(guess, secret))
  {
    WrongGuessFails(guess, secret);
    FilterMembers(words, guess, Feedback(guess, secret), guess);
  }

  /** "crane" against the secret "trace" gives "12202" under per-position
      membership. */
  lemma CraneAgainstTraceFeedback()
    ensures Feedback("crane", "trace") == "12202"
  {
    assert 'c' in "trace" && 'n' !in "trace";
  }

  lemma TracePassesCrane()
    ensures Keep("trace", "crane", "12202")
  {
    assert IndexOf("trace", 'c') == 3 && IndexOf("trace", 'n') == -1;
    assert forall j :: 0 <= j < WordLength ==> PositionOk("trace", "crane", "12202", j);
  }

  /** Of the four words, only "trace" passes the keep test for this result. */
  lemma OnlyTracePassesCrane(w: string)
    requires w in ["crane", "slate", "trace", "grape"]
    ensures Keep(w, "crane", "12202") <==> w == "trace"
  {
    assert !PositionOk("crane", "crane", "12202", 0);
    assert !PositionOk("slate", "crane", "12202", 0);
    assert !PositionOk("grape", "crane", "12202", 0);
    TracePassesCrane();
  }

  /** On that result only "trace" survives of a four-word list. */
  lemma CraneAgainstTraceFilter(ws: seq<string>, w: string)
    requires ws == ["crane", "slate", "trace", "grape"]
    ensures w in FilterSpec(ws, "crane", "12202") <==> w == "trace"
  {
    FilterMembers(ws, "crane", "12202", w);
    if w in ws {
      OnlyTracePassesCrane(w);
    }
  }
}
