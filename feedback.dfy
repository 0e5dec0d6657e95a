/** The self-play feedback encoder: per-position membership, as the solver
    computes it (not the two-pass duplicate-letter rule of the reference game). */
module Codec {
  import opened Words

  /** The feedback the encoder produces for `guess` against `secret`:
      '2' where the letters agree, else '1' where the guess letter occurs
      somewhere in the secret, else '0'. */
  function Feedback(guess: string, secret: string): (r: string)
    requires |guess| == WordLength && |secret| == WordLength
    ensures |r| == WordLength
  {
    seq(WordLength, i requires 0 <= i < WordLength =>
      if guess[i] == secret[i] then '2'
      else if guess[i] in secret then '1'
      else '0')
  }

  /** The all-correct feedback string that ends a game. */
  const AllCorrect: string := "22222"

  /** The character the source gets by concatenating an `int` digit into a string. */
  function DigitChar(d: int): (c: char)
    requires 0 <= d <= 2
    ensures c == ['0', '1', '2'][d]
  {
    (d + '0' as int) as char
  }

  /** Fills `arr` position by position and joins the digits into the result string. */
  method Encode(guess: string, secret: string) returns (result: string)
    requires |guess| == WordLength && |secret| == WordLength
    ensures |result| == WordLength
    ensures forall i :: 0 <= i < WordLength ==>
      (result[i] == '2' <==> guess[i] == secret[i]) &&
      (result[i] == '1' <==> guess[i] != secret[i] && guess[i] in secret) &&
      (result[i] == '0' <==> guess[i] !in secret)
    ensures result == Feedback(guess, secret)
  {
    var arr := new int[WordLength];
    for i := 0 to WordLength
      invariant forall k :: 0 <= k < i ==> 0 <= arr[k] <= 2
      invariant forall k :: 0 <= k < i ==> DigitChar(arr[k]) == Feedback(guess, secret)[k]
    {
      if guess[i] == secret[i] {
        arr[i] := 2;
      } else if IndexOf(secret, guess[i]) >= 0 && secret[i] != guess[i] {
        arr[i] := 1;
      } else {
        arr[i] := 0;
      }
    }
    result := [DigitChar(arr[0]), DigitChar(arr[1]), DigitChar(arr[2]), DigitChar(arr[3]), DigitChar(arr[4])];
    assert result == Feedback(guess, secret);
  }

  /** The game is reported solved exactly when the guess is the secret. */
  lemma SolvedIffGuessIsSecret(guess: string, secret: string)
    requires |guess| == WordLength && |secret| == WordLength
    ensures Feedback(guess, secret) == AllCorrect <==> guess == secret
  {
    var f := Feedback(guess, secret);
    if f == AllCorrect {
      forall i | 0 <= i < WordLength ensures guess[i] == secret[i] {
        assert f[i] == AllCorrect[i];
      }
    }
  }
}
