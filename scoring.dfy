/** The guess scorer and the best-guess selection. */
module Scoring {
  import opened Words
  import opened Frequency

  /** Score of the first `n` positions as the scorer actually computes it:
      a position adds its table count only when its letter has not occurred
      earlier in the word. */
  function PrefixScore(word: string, t: Table, n: int): int
    requires IsWord(word) && IsTable(t) && 0 <= n <= WordLength
  {
    if n == 0 then 0
    else PrefixScore(word, t, n - 1) + (if word[n - 1] in word[..n - 1] then 0 else t[n - 1][Idx(word[n - 1])])
  }

  /** Closed form of the score: every distinct letter counts once, at its first occurrence. */
  function Score(word: string, t: Table): int
    requires IsWord(word) && IsTable(t)
  {
    PrefixScore(word, t, WordLength)
  }

  /** The source's scorer loop, with its `usedLetters` list, the '-' placeholder
      and the running `score`. In the branch that moves a claim to a later
      position, the subtraction reads `indexOf(c)` after `c` was appended, so it
      takes back exactly the count it then adds. */
  method ScoreWord(word: string, charFreq: array2<int>) returns (score: int)
    requires IsWord(word) && charFreq.Length0 == WordLength && charFreq.Length1 == Alphabet
    ensures score == Score(word, Snapshot(charFreq))
  {
    ghost var t := Snapshot(charFreq);
    var usedLetters: seq<char> := [];
    score := 0;
    for i := 0 to WordLength
      invariant Claims(word, usedLetters, i)
      invariant score == PrefixScore(word, t, i)
    {
      var c := word[i];
      ClaimedIffSeen(word, usedLetters, i);
      if c in usedLetters {
        if charFreq[IndexOf(usedLetters, c), Idx(c)] < charFreq[i, Idx(c)] {
          MoveClaim(word, usedLetters, i);
          usedLetters := usedLetters[IndexOf(usedLetters, c) := '-'];
          usedLetters := usedLetters + [c];
          score := score - charFreq[IndexOf(usedLetters, c), Idx(c)];
          score := score + charFreq[i, Idx(c)];
        } else {
          DropRepeat(word, usedLetters, i);
          usedLetters := usedLetters + ['-'];
        }
      } else {
        AddClaim(word, usedLetters, i);
        usedLetters := usedLetters + [c];
        score := score + charFreq[i, Idx(c)];
      }
    }
  }

  /** The scorer's `usedLetters` after `i` positions: one entry per position,
      each the position's letter or '-', no letter twice, every letter seen so far present. */
  ghost predicate Claims(word: string, used: seq<char>, i: int)
    requires IsWord(word) && 0 <= i <= WordLength
  {
    && |used| == i
    && (forall k :: 0 <= k < i ==> used[k] == '-' || used[k] == word[k])
    && (forall k, l :: 0 <= k < l < i && used[k] != '-' ==> used[k] != used[l])
    && (forall k :: 0 <= k < i ==> word[k] in used)
  }

  /** `usedLetters.contains(c)` holds exactly when `c` occurred earlier in the word. */
  lemma ClaimedIffSeen(word: string, used: seq<char>, i: int)
    requires IsWord(word) && 0 <= i < WordLength && Claims(word, used, i)
    ensures word[i] in used <==> word[i] in word[..i]
  {
    assert !IsLetter('-');
  }

  lemma AddClaim(word: string, used: seq<char>, i: int)
    requires IsWord(word) && 0 <= i < WordLength && Claims(word, used, i) && word[i] !in used
    ensures Claims(word, used + [word[i]], i + 1)
  {
  }

  lemma DropRepeat(word: string, used: seq<char>, i: int)
    requires IsWord(word) && 0 <= i < WordLength && Claims(word, used, i) && word[i] in used
    ensures Claims(word, used + ['-'], i + 1)
  {
  }

  /** Moving the claim of a repeated letter to position `i`: afterwards the
      letter's `indexOf` is `i` itself. */
  lemma MoveClaim(word: string, used: seq<char>, i: int)
    requires IsWord(word) && 0 <= i < WordLength && Claims(word, used, i) && word[i] in used
    ensures var used' := used[IndexOf(used, word[i]) := '-'] + [word[i]];
      Claims(word, used', i + 1) && IndexOf(used', word[i]) == i
  {
    var c := word[i];
    var q := IndexOf(used, c);
    var mid := used[q := '-'];
    assert !IsLetter('-');
    assert used[q] == c && used[q] != '-';
    assert forall l :: 0 <= l < q ==> used[..q][l] == used[l];
    assert forall l :: 0 <= l < i && l != q ==> used[l] != c;
    assert c !in mid;
    var used' := mid + [c];
    assert forall k :: 0 <= k < i ==> used'[k] == mid[k];
    assert used'[..i] == mid;
  }

  /** On a table of counts the score is never negative. */
  lemma {:induction false} ScoreNonNegative(word: string, t: Table, n: int)
    requires IsWord(word) && IsTable(t) && NonNegative(t) && 0 <= n <= WordLength
    ensures PrefixScore(word, t, n) >= 0
  {
    if n > 0 {
      ScoreNonNegative(word, t, n - 1);
    }
  }

  /** The first letter always contributes its own count. */
  lemma {:induction false} ScoreAtLeastFirstLetter(word: string, t: Table, n: int)
    requires IsWord(word) && IsTable(t) && NonNegative(t) && 1 <= n <= WordLength
    ensures PrefixScore(word, t, n) >= t[0][Idx(word[0])]
  {
    if n > 1 {
      ScoreAtLeastFirstLetter(word, t, n - 1);
    }
  }

  /** The largest count of column `c` among the first `n` rows. */
  function ColumnMax(t: Table, c: int, n: int): int
    requires IsTable(t) && 0 <= c < Alphabet && 0 <= n <= WordLength
  {
    if n == 0 then 0
    else
      var m := ColumnMax(t, c, n - 1);
      if t[n - 1][c] > m then t[n - 1][c] else m
  }

  lemma {:induction false} ColumnMaxBounds(t: Table, c: int, n: int, p: int)
    requires IsTable(t) && 0 <= c < Alphabet && 0 <= p < n <= WordLength
    ensures t[p][c] <= ColumnMax(t, c, n)
  {
    if p < n - 1 {
      ColumnMaxBounds(t, c, n - 1, p);
    }
  }

  /** The letter cap: each distinct letter of the word at its column's maximum. */
  function CapScore(word: string, t: Table, n: int): int
    requires IsWord(word) && IsTable(t) && 0 <= n <= WordLength
  {
    if n == 0 then 0
    else CapScore(word, t, n - 1) + (if word[n - 1] in word[..n - 1] then 0 else ColumnMax(t, Idx(word[n - 1]), WordLength))
  }

  /** The score never exceeds the sum of per-letter column maxima. */
  lemma {:induction false} ScoreBelowCap(word: string, t: Table, n: int)
    requires IsWord(word) && IsTable(t) && 0 <= n <= WordLength
    ensures PrefixScore(word, t, n) <= CapScore(word, t, n)
  {
    if n > 0 {
      ScoreBelowCap(word, t, n - 1);
      ColumnMaxBounds(t, Idx(word[n - 1]), WordLength, n - 1);
    }
  }

  /** The largest count the letter `c` has at one of its own positions among the first `n`. */
  function BestOccurrence(word: string, t: Table, c: char, n: int): int
    requires IsWord(word) && IsTable(t) && IsLetter(c) && 0 <= n <= WordLength
  {
    if n == 0 then 0
    else
      var m := BestOccurrence(word, t, c, n - 1);
      if word[n - 1] == c && t[n - 1][Idx(c)] > m then t[n - 1][Idx(c)] else m
  }

  lemma {:induction false} BestOccurrenceBounds(word: string, t: Table, c: char, n: int, p: int)
    requires IsWord(word) && IsTable(t) && IsLetter(c) && 0 <= p < n <= WordLength && word[p] == c
    ensures t[p][Idx(c)] <= BestOccurrence(word, t, c, n)
  {
    if p < n - 1 {
      BestOccurrenceBounds(word, t, c, n - 1, p);
    }
  }

  /** The score the comment above the scorer describes: each distinct letter
      at its highest-count occurrence. */
  function IntendedScore(word: string, t: Table, n: int): int
    requires IsWord(word) && IsTable(t) && 0 <= n <= WordLength
  {
    if n == 0 then 0
    else IntendedScore(word, t, n - 1) + (if word[n - 1] in word[..n - 1] then 0 else BestOccurrence(word, t, word[n - 1], WordLength))
  }

  /** The scorer as written never scores above the described intent. */
  lemma {:induction false} ScoreBelowIntended(word: string, t: Table, n: int)
    requires IsWord(word) && IsTable(t) && 0 <= n <= WordLength
    ensures PrefixScore(word, t, n) <= IntendedScore(word, t, n)
  {
    if n > 0 {
      ScoreBelowIntended(word, t, n - 1);
      BestOccurrenceBounds(word, t, word[n - 1], WordLength, n - 1);
    }
  }

  /** A table where 's' is commoner at position 3 than at position 0. */
  function LateSTable(): (t: Table)
    ensures IsTable(t) && NonNegative(t)
  {
    seq(WordLength, p => seq(Alphabet, c => if p == 3 && c == Idx('s') then 5 else 1))
  }

  /** "sassy" on that table: the as-written score keeps the first 's' (1 + 1 + 1),
      where the described intent would take the position-3 's' (5 + 1 + 1). */
  lemma SassyOnLateSTable()
    ensures IsWord("sassy")
    ensures Score("sassy", LateSTable()) == 3
    ensures IntendedScore("sassy", LateSTable(), WordLength) == 7
  {
    var w, t := "sassy", LateSTable();
    assert w[..1] == "s" && w[..2] == "sa" && w[..3] == "sas" && w[..4] == "sass";
    assert 'a' !in w[..1] && 's' in w[..2] && 's' in w[..3] && 'y' !in w[..4];
    assert BestOccurrence(w, t, 's', WordLength) == 5;
    assert BestOccurrence(w, t, 'a', WordLength) == 1;
    assert BestOccurrence(w, t, 'y', WordLength) == 1;
  }

  /** The selection as the loop over the pool computes it, one word at a time:
      a later word replaces the best so far only on a strictly higher score. */
  function Select(pool: seq<string>, t: Table): (string, int)
    requires AllWords(pool) && IsTable(t)
  {
    if |pool| == 0 then ("", 0)
    else
      var r := Select(pool[..|pool| - 1], t);
      var w := pool[|pool| - 1];
      if Score(w, t) > r.1 then (w, Score(w, t)) else r
  }

  /** The source's selection loop over the guess pool: `high = 0`, `bestWord = ""`, strict `>`. */
  method SelectBest(pool: seq<string>, charFreq: array2<int>) returns (bestWord: string, high: int)
    requires AllWords(pool) && charFreq.Length0 == WordLength && charFreq.Length1 == Alphabet
    ensures (bestWord, high) == Select(pool, Snapshot(charFreq))
  {
    ghost var t := Snapshot(charFreq);
    high := 0;
    bestWord := "";
    for k := 0 to |pool|
      invariant (bestWord, high) == Select(pool[..k], t)
    {
      var word := pool[k];
      assert pool[..k + 1][..k] == pool[..k];
      var score := ScoreWord(word, charFreq);
      if score > high {
        high := score;
        bestWord := word;
      }
    }
    assert pool[..|pool|] == pool;
  }

  /** The selection is the first word of the pool with the maximum score, when
      that maximum is positive; otherwise it is `""` with score 0. */
  lemma {:induction false} SelectFirstMax(pool: seq<string>, t: Table)
    requires AllWords(pool) && IsTable(t)
    ensures Select(pool, t).1 >= 0
    ensures forall k :: 0 <= k < |pool| ==> Score(pool[k], t) <= Select(pool, t).1
    ensures Select(pool, t).1 == 0 ==> Select(pool, t).0 == ""
    ensures Select(pool, t).1 > 0 ==>
      exists k :: 0 <= k < |pool| && pool[k] == Select(pool, t).0 && Score(pool[k], t) == Select(pool, t).1 &&
        forall j :: 0 <= j < k ==> Score(pool[j], t) < Select(pool, t).1
  {
    if |pool| > 0 {
      var init := pool[..|pool| - 1];
      SelectFirstMax(init, t);
      var r := Select(init, t);
      var n := |pool| - 1;
      assert forall k :: 0 <= k < n ==> pool[k] == init[k];
      if Score(pool[n], t) > r.1 {
        assert forall j :: 0 <= j < n ==> Score(pool[j], t) < Score(pool[n], t);
      } else if r.1 > 0 {
        var k :| 0 <= k < n && init[k] == r.0 && Score(init[k], t) == r.1 &&
          forall j :: 0 <= j < k ==> Score(init[j], t) < r.1;
        assert pool[k] == r.0;
      }
    }
  }

  /** Scoring the candidates on their own table always picks a candidate, with a positive score. */
  lemma SelectAmongCandidates(words: seq<string>)
    requires AllWords(words) && |words| > 0
    ensures Select(words, TableOf(words)).1 >= 1
    ensures Select(words, TableOf(words)).0 in words
  {
    var t := TableOf(words);
    SelectFirstMax(words, t);
    CandidateCounted(words, words[0], 0);
    ScoreAtLeastFirstLetter(words[0], t, WordLength);
  }
}
