/** The letter-frequency table: `charFreq[p][c]` counts the candidates with
    letter `'a' + c` at position `p`. */
module Frequency {
  import opened Words

  /** A 5 x 26 table of counts, as a value. */
  type Table = seq<seq<int>>

  predicate IsTable(t: Table) {
    |t| == WordLength && forall p :: 0 <= p < WordLength ==> |t[p]| == Alphabet
  }

  predicate NonNegative(t: Table)
    requires IsTable(t)
  {
    forall p, c :: 0 <= p < WordLength && 0 <= c < Alphabet ==> t[p][c] >= 0
  }

  /** Number of list entries (with multiplicity) whose letter at position `p` has column `c`. */
  function Count(words: seq<string>, p: int, c: int): nat {
    if |words| == 0 then 0
    else
      var last := words[|words| - 1];
      Count(words[..|words| - 1], p, c) + (if 0 <= p < |last| && Idx(last[p]) == c then 1 else 0)
  }

  /** The table the candidates determine. */
  function TableOf(words: seq<string>): (t: Table)
    ensures IsTable(t) && NonNegative(t)
  {
    seq(WordLength, p => seq(Alphabet, c => Count(words, p, c)))
  }

  /** The contents of a `charFreq` array, as a value. */
  function Snapshot(a: array2<int>): (t: Table)
    reads a
    requires a.Length0 == WordLength && a.Length1 == Alphabet
    ensures IsTable(t)
    ensures forall p, c :: 0 <= p < WordLength && 0 <= c < Alphabet ==> t[p][c] == a[p, c]
  {
    seq(WordLength, p reads a requires 0 <= p < WordLength =>
      seq(Alphabet, c reads a requires 0 <= c < Alphabet => a[p, c]))
  }

  /** The source's table loop: a zeroed `int[5][26]`, then one increment per
      position of every candidate. */
  method BuildTable(words: seq<string>) returns (charFreq: array2<int>)
    requires AllWords(words)
    ensures charFreq.Length0 == WordLength && charFreq.Length1 == Alphabet
    ensures Snapshot(charFreq) == TableOf(words)
  {
    charFreq := new int[WordLength, Alphabet]((p, c) => 0);
    for i := 0 to |words|
      invariant forall p, c :: 0 <= p < WordLength && 0 <= c < Alphabet ==> charFreq[p, c] == Count(words[..i], p, c)
    {
      var word := words[i];
      assert words[..i + 1][..i] == words[..i];
      charFreq[0, Idx(word[0])] := charFreq[0, Idx(word[0])] + 1;
      charFreq[1, Idx(word[1])] := charFreq[1, Idx(word[1])] + 1;
      charFreq[2, Idx(word[2])] := charFreq[2, Idx(word[2])] + 1;
      charFreq[3, Idx(word[3])] := charFreq[3, Idx(word[3])] + 1;
      charFreq[4, Idx(word[4])] := charFreq[4, Idx(word[4])] + 1;
    }
    assert words[..|words|] == words;
    forall p | 0 <= p < WordLength ensures Snapshot(charFreq)[p] == TableOf(words)[p] {
    }
  }

  /** Sum of a row of counts. */
  function Sum(s: seq<int>): int {
    if |s| == 0 then 0 else Sum(s[..|s| - 1]) + s[|s| - 1]
  }

  lemma {:induction false} ZeroSum(s: seq<int>)
    requires forall k :: 0 <= k < |s| ==> s[k] == 0
    ensures Sum(s) == 0
  {
    if |s| > 0 {
      ZeroSum(s[..|s| - 1]);
    }
  }

  /** Adding one word adds one to exactly one column of every row. */
  lemma {:induction false} RowPrefixSplit(words: seq<string>, p: int, n: int)
    requires AllWords(words) && |words| > 0 && 0 <= p < WordLength && 0 <= n <= Alphabet
    ensures var last := words[|words| - 1];
      Sum(TableOf(words)[p][..n]) == Sum(TableOf(words[..|words| - 1])[p][..n]) + (if Idx(last[p]) < n then 1 else 0)
  {
    if n > 0 {
      RowPrefixSplit(words, p, n - 1);
      var row, row' := TableOf(words)[p], TableOf(words[..|words| - 1])[p];
      assert row[..n][..n - 1] == row[..n - 1];
      assert row'[..n][..n - 1] == row'[..n - 1];
    }
  }

  /** Every row of the table sums to the number of candidates. */
  lemma {:induction false} RowSum(words: seq<string>, p: int)
    requires AllWords(words) && 0 <= p < WordLength
    ensures Sum(TableOf(words)[p]) == |words|
  {
    var row := TableOf(words)[p];
    assert row[..Alphabet] == row;
    if |words| == 0 {
      ZeroSum(row);
    } else {
      var init := words[..|words| - 1];
      RowSum(init, p);
      RowPrefixSplit(words, p, Alphabet);
      assert TableOf(init)[p][..Alphabet] == TableOf(init)[p];
    }
  }

  /** A candidate's own letter is counted at each of its positions. */
  lemma {:induction false} CandidateCounted(words: seq<string>, w: string, p: int)
    requires AllWords(words) && w in words && 0 <= p < WordLength
    ensures TableOf(words)[p][Idx(w[p])] >= 1
  {
    var init := words[..|words| - 1];
    if w != words[|words| - 1] {
      assert w in init;
      CandidateCounted(init, w, p);
    }
  }
}
