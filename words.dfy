/** Five-letter words and the two string primitives the solver relies on:
    `String.indexOf` and the `(int)c - 97` letter index. */
module Words {

  /** Number of letters in every word of the game. */
  const WordLength: nat := 5

  /** Size of the lowercase alphabet, the second dimension of the frequency table. */
  const Alphabet: nat := 26

  predicate IsLetter(c: char) {
    'a' <= c <= 'z'
  }

  /** A corpus word: exactly five lowercase letters. */
  predicate IsWord(w: string) {
    |w| == WordLength && forall i :: 0 <= i < |w| ==> IsLetter(w[i])
  }

  predicate AllWords(ws: seq<string>) {
    forall k :: 0 <= k < |ws| ==> IsWord(ws[k])
  }

  /** The column of letter `c` in the frequency table (`(int)c - 97`). */
  function Idx(c: char): (r: int)
    ensures IsLetter(c) ==> 0 <= r < Alphabet
    ensures IsLetter(c) ==> (r + 'a' as int) as char == c
  {
    c as int - 'a' as int
  }

  /** `indexOf`: the first position of `c` in `s`, or -1 when `c` does not occur. */
  function IndexOf<T(==)>(s: seq<T>, c: T): (r: int)
    ensures -1 <= r < |s|
    ensures r == -1 <==> c !in s
    ensures 0 <= r ==> s[r] == c && c !in s[..r]
  {
    if |s| == 0 then -1
    else if s[0] == c then 0
    else
      var r := IndexOf(s[1..], c);
      assert r >= 0 ==> s[1..][..r] == s[1..r + 1];
      if r == -1 then -1 else r + 1
  }

  /** The distinct words of a list. */
  function Distinct(ws: seq<string>): set<string> {
    set w | w in ws
  }
}
