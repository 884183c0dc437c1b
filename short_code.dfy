/**
 * Short codes: the random code generator of server.js (lines 67-75) and the
 * pattern `^[a-zA-Z0-9]{6,8}$` that custom codes must match (line 93).
 */
module ShortCode {

  /** The alphabet the generator draws from, in the source's order. */
  const Chars: string := "ABCDEFGHIJKLMNOPQRSTUVWXYZabcdefghijklmnopqrstuvwxyz0123456789"

  /** Number of characters in a generated code. */
  const GeneratedLength: nat := 6

  /** One character of the class `[a-zA-Z0-9]`. */
  predicate IsAlphanumeric(c: char) {
    'A' <= c <= 'Z' || 'a' <= c <= 'z' || '0' <= c <= '9'
  }

  /** The whole string matches `^[a-zA-Z0-9]{6,8}$`. */
  predicate MatchesCodePattern(s: string) {
    6 <= |s| <= 8 && forall i :: 0 <= i < |s| ==> IsAlphanumeric(s[i])
  }

  /**
   * The random draws the generator makes: one index per character, each the
   * value of `Math.floor(Math.random() * chars.length)`, hence below 62.
   */
  predicate ValidPicks(picks: seq<nat>) {
    |picks| == GeneratedLength && forall i :: 0 <= i < |picks| ==> picks[i] < |Chars|
  }

  /** The code the generator produces for the given draws. */
  function CodeFor(picks: seq<nat>): string
    requires ValidPicks(picks)
  {
    seq(|picks|, i requires 0 <= i < |picks| => Chars[picks[i]])
  }

  /** The three ranges of `Chars`, in order. */
  const Upper: string := "ABCDEFGHIJKLMNOPQRSTUVWXYZ"
  const Lower: string := "abcdefghijklmnopqrstuvwxyz"
  const Digits: string := "0123456789"

  lemma CharsRanges()
    ensures Chars == Upper + Lower + Digits
  {
  }

  /** Character codes within each range are consecutive. */
  lemma UpperCodes(k: nat)
    requires k < 26
    ensures Upper[k] as int == 'A' as int + k
  {
  }

  lemma LowerCodes(k: nat)
    requires k < 26
    ensures Lower[k] as int == 'a' as int + k
  {
  }

  lemma DigitCodes(k: nat)
    requires k < 10
    ensures Digits[k] as int == '0' as int + k
  {
  }

  lemma RangeCodes(k: nat)
    requires k < 62
    ensures k < 26 ==> Chars[k] as int == 'A' as int + k
    ensures 26 <= k < 52 ==> Chars[k] as int == 'a' as int + (k - 26)
    ensures 52 <= k ==> Chars[k] as int == '0' as int + (k - 52)
  {
    CharsRanges();
    if k < 26 {
      assert Chars[k] == Upper[k];
      UpperCodes(k);
    } else if k < 52 {
      assert Chars[k] == Lower[k - 26];
      LowerCodes(k - 26);
    } else {
      assert Chars[k] == Digits[k - 52];
      DigitCodes(k - 52);
    }
  }

  /** The position of an alphanumeric character in `Chars`. */
  function CharIndex(c: char): (k: nat)
    requires IsAlphanumeric(c)
    ensures k < |Chars| && Chars[k] == c
  {
    var k: nat :=
      if 'A' <= c <= 'Z' then c as int - 'A' as int
      else if 'a' <= c <= 'z' then 26 + (c as int - 'a' as int)
      else 52 + (c as int - '0' as int);
    RangeCodes(k);
    k
  }

  /** Every character of the alphabet is alphanumeric, and no character occurs twice. */
  lemma CharsAlphanumericAndDistinct()
    ensures |Chars| == 62
    ensures forall k :: 0 <= k < |Chars| ==> IsAlphanumeric(Chars[k]) && CharIndex(Chars[k]) == k
  {
    forall k | 0 <= k < |Chars|
      ensures IsAlphanumeric(Chars[k]) && CharIndex(Chars[k]) == k
    {
      RangeCodes(k);
    }
  }

  /** `generateShortCode`: appends one drawn character per iteration. */
  method GenerateShortCode(picks: seq<nat>) returns (code: string)
    requires ValidPicks(picks)
    ensures code == CodeFor(picks)
    ensures |code| == GeneratedLength
    ensures forall i :: 0 <= i < |code| ==> code[i] in Chars
  {
    code := "";
    for i := 0 to GeneratedLength
      invariant |code| == i
      invariant forall j :: 0 <= j < i ==> code[j] == Chars[picks[j]]
    {
      code := code + [Chars[picks[i]]];
    }
  }

  /** A generated code would also pass the custom-code check. */
  lemma GeneratedCodeMatchesPattern(picks: seq<nat>)
    requires ValidPicks(picks)
    ensures |CodeFor(picks)| == GeneratedLength
    ensures MatchesCodePattern(CodeFor(picks))
  {
    CharsAlphanumericAndDistinct();
  }

  /** The draws that make the generator produce a given code. */
  function PicksFor(code: string): seq<nat>
    requires forall i :: 0 <= i < |code| ==> IsAlphanumeric(code[i])
  {
    seq(|code|, i requires 0 <= i < |code| => CharIndex(code[i]))
  }

  /** Every six-character alphanumeric code is produced by some draws. */
  lemma EveryCodeIsGenerated(code: string)
    requires |code| == GeneratedLength
    requires forall i :: 0 <= i < |code| ==> IsAlphanumeric(code[i])
    ensures ValidPicks(PicksFor(code))
    ensures CodeFor(PicksFor(code)) == code
  {
  }

  /** Different draws give different codes: the draws are recovered from the code. */
  lemma DrawsAreRecovered(picks: seq<nat>)
    requires ValidPicks(picks)
    ensures MatchesCodePattern(CodeFor(picks))
    ensures PicksFor(CodeFor(picks)) == picks
  {
    GeneratedCodeMatchesPattern(picks);
    CharsAlphanumericAndDistinct();
  }
}
