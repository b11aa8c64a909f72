/**
  The character-class and range validators of package validator. A string is its
  sequence of runes (what a Go `range` over it yields); Blank is "nothing but white
  space", with white space as strings.TrimSpace defines it.
 */
module Validator {
  import Text

  /** Blank: empty after trimming white space. */
  predicate Blank(s: string)
  {
    Text.TrimSpace(s) == ""
  }

  /** Blank holds exactly for the strings made only of white space (the empty one included). */
  lemma BlankIffAllSpace(s: string)
    ensures Blank(s) <==> Text.AllSpace(s)
  {
    Text.TrimSpaceEmptyIff(s);
  }

  predicate IsLetter(c: char) { ('a' <= c <= 'z') || ('A' <= c <= 'Z') }
  predicate IsDigit(c: char) { '0' <= c <= '9' }

  /** The three classes as stated: non-blank, and every rune of the class. */
  predicate AllLetters(s: string) { !Blank(s) && forall i :: 0 <= i < |s| ==> IsLetter(s[i]) }
  predicate AllLettersOrDigits(s: string) { !Blank(s) && forall i :: 0 <= i < |s| ==> IsLetter(s[i]) || IsDigit(s[i]) }
  predicate AllDigits(s: string) { !Blank(s) && forall i :: 0 <= i < |s| ==> IsDigit(s[i]) }

  /** The loop the three validators share: whether every rune of `value` is in the class. */
  method EveryRune(value: string, inClass: char -> bool) returns (ok: bool)
    ensures ok <==> forall i :: 0 <= i < |value| ==> inClass(value[i])
  {
    var i := 0;
    while i < |value|
      invariant 0 <= i <= |value|
      invariant forall j :: 0 <= j < i ==> inClass(value[j])
    {
      if !inClass(value[i]) {
        return false;
      }
      i := i + 1;
    }
    return true;
  }

  /** IsAlpha: false for a blank string, else whether every rune is an ASCII letter. */
  method IsAlpha(value: string) returns (ok: bool)
    ensures ok <==> AllLetters(value)
  {
    if Blank(value) {
      return false;
    }
    ok := EveryRune(value, IsLetter);
  }

  /** IsAlphanumeric: false for a blank string, else whether every rune is an ASCII letter or digit. */
  method IsAlphanumeric(value: string) returns (ok: bool)
    ensures ok <==> AllLettersOrDigits(value)
  {
    if Blank(value) {
      return false;
    }
    ok := EveryRune(value, c => IsLetter(c) || IsDigit(c));
  }

  /** IsNumeric: false for a blank string, else whether every rune is an ASCII digit. */
  method IsNumeric(value: string) returns (ok: bool)
    ensures ok <==> AllDigits(value)
  {
    if Blank(value) {
      return false;
    }
    ok := EveryRune(value, IsDigit);
  }

  /** A blank string passes none of the three. */
  lemma BlankPassesNone(s: string)
    requires Blank(s)
    ensures !AllLetters(s) && !AllLettersOrDigits(s) && !AllDigits(s)
  {
  }

  /** A letter or digit is not white space, so a non-empty string of them is never blank. */
  lemma {:induction false} ClassRunesNotBlank(s: string)
    requires |s| > 0 && (IsLetter(s[0]) || IsDigit(s[0]))
    ensures !Blank(s)
  {
    BlankIffAllSpace(s);
    assert !Text.IsSpace(s[0]);
  }

  /**
    The blank check only excludes the empty string: each class is "non-empty and every
    rune in the class".
   */
  lemma ClassesAreNonEmptyRuns(s: string)
    ensures AllLetters(s) <==> |s| > 0 && forall i :: 0 <= i < |s| ==> IsLetter(s[i])
    ensures AllLettersOrDigits(s) <==> |s| > 0 && forall i :: 0 <= i < |s| ==> IsLetter(s[i]) || IsDigit(s[i])
    ensures AllDigits(s) <==> |s| > 0 && forall i :: 0 <= i < |s| ==> IsDigit(s[i])
  {
    if |s| > 0 && (IsLetter(s[0]) || IsDigit(s[0])) {
      ClassRunesNotBlank(s);
    }
    assert Blank("");
  }

  /** Letters and digits are both alphanumeric. */
  lemma AlphaOrNumericIsAlphanumeric(s: string)
    ensures AllLetters(s) || AllDigits(s) ==> AllLettersOrDigits(s)
  {
  }

  /** No string is both alphabetic and numeric. */
  lemma AlphaAndNumericDisjoint(s: string)
    ensures !(AllLetters(s) && AllDigits(s))
  {
    ClassesAreNonEmptyRuns(s);
    if |s| > 0 {
      assert !(IsLetter(s[0]) && IsDigit(s[0]));
    }
  }

  /** A non-ASCII letter (here 'é') is rejected. */
  lemma NonAsciiLetterRejected()
    ensures !AllLetters("café") && !AllLettersOrDigits("café")
  {
    assert !IsLetter("café"[3]) && !IsDigit("café"[3]);
  }

  /** InRange: min <= value <= max, both ends included. */
  function InRange(value: int, min: int, max: int): (r: bool)
    ensures r ==> min <= max
    ensures r <==> min <= value && value <= max
  {
    value >= min && value <= max
  }

  /** Between is the same test as InRange. */
  function Between(value: int, min: int, max: int): (r: bool)
    ensures r == InRange(value, min, max)
  {
    InRange(value, min, max)
  }

  /** An empty range (min > max) admits nothing, and the two ends are admitted whenever min <= max. */
  lemma InRangeBounds(min: int, max: int)
    ensures min > max ==> forall v :: !InRange(v, min, max)
    ensures min <= max ==> InRange(min, min, max) && InRange(max, min, max)
    ensures !InRange(min - 1, min, max) && !InRange(max + 1, min, max)
  {
  }
}
