/**
 * The built-in character classes of the password generator and its delimiter.
 * Each class is defined as ASCII code-point ranges; the `...Definition` lemmas
 * prove that these are the strings the popup writes out, after the
 * `toUpperCase` and `unique_array` calls it applies to them.
 */
module Charsets {
  import opened JsArrays

  /** The characters `lo` up to and including `hi`, in code-point order. */
  function CharRange(lo: char, hi: char): (r: string)
    requires lo <= hi < '\U{80}'
    ensures |r| == hi as int - lo as int + 1
    ensures forall i :: 0 <= i < |r| ==> r[i] as int == lo as int + i
    ensures forall c :: c in r <==> lo <= c <= hi
    ensures NoDup(r)
  {
    var r := seq(hi as int - lo as int + 1, i requires 0 <= i <= hi as int - lo as int => (lo as int + i) as char);
    forall c | lo <= c <= hi
      ensures c in r
    {
      assert r[c as int - lo as int] == c;
    }
    r
  }

  /** JavaScript's `toUpperCase` on one character, for the ASCII letters it is applied to here. */
  function ToUpperAscii(c: char): (u: char)
    ensures 'a' <= c <= 'z' ==> u as int == c as int - 32
    ensures !('a' <= c <= 'z') ==> u == c
  {
    if 'a' <= c <= 'z' then (c as int - 32) as char else c
  }

  function ToUpperCase(s: string): (r: string)
    ensures |r| == |s|
    ensures forall i :: 0 <= i < |s| ==> r[i] == ToUpperAscii(s[i])
  {
    if s == [] then [] else [ToUpperAscii(s[0])] + ToUpperCase(s[1..])
  }

  const LettersLowercase: string := CharRange('a', 'z')
  const LettersUppercase: string := CharRange('A', 'Z')
  /** Lower-case letters followed by upper-case letters. */
  const Letters: string := LettersLowercase + LettersUppercase
  const Digits: string := CharRange('0', '9')
  /** The ASCII punctuation characters, in code-point order. */
  const Punctuation: string := CharRange('!', '/') + CharRange(':', '@') + CharRange('[', '`') + CharRange('{', '~')
  /** The separator between password segments. */
  const Delimiter: char := '-'

  /** The lower-case letters are the string the popup writes out. */
  lemma LowercaseDefinition()
    ensures LettersLowercase == "abcdefghijklmnopqrstuvwxyz"
  {
  }

  /** The upper-case letters are `toUpperCase` of the lower-case ones. */
  lemma UppercaseDefinition()
    ensures LettersUppercase == ToUpperCase(LettersLowercase)
  {
    var l := LettersLowercase;
    var u := ToUpperCase(l);
    forall i | 0 <= i < |l|
      ensures u[i] == LettersUppercase[i]
    {
      assert 'a' <= l[i] <= 'z';
    }
  }

  /** The digits are `unique_array` of the digit string. */
  lemma DigitsDefinition()
    ensures Digits == Unique("0123456789")
  {
    assert Digits == "0123456789";
    UniqueOfNoDup(Digits);
  }

  /** The punctuation characters are `unique_array` of the punctuation string. */
  lemma PunctuationDefinition()
    ensures Punctuation == Unique("!\"#$%&'()*+,-./:;<=>?@[\\]^_`{|}~")
  {
    PunctuationFacts();
    assert Punctuation == "!\"#$%&'()*+,-./:;<=>?@[\\]^_`{|}~";
    UniqueOfNoDup(Punctuation);
  }

  /** 52 distinct letters: exactly the ASCII letters, lower case first. */
  lemma LettersFacts()
    ensures |Letters| == 52 && NoDup(Letters)
    ensures forall c :: c in Letters <==> 'a' <= c <= 'z' || 'A' <= c <= 'Z'
  {
    NoDupConcat(LettersLowercase, LettersUppercase);
  }

  /** 10 distinct digits. */
  lemma DigitsFacts()
    ensures |Digits| == 10 && NoDup(Digits)
    ensures forall c :: c in Digits <==> '0' <= c <= '9'
  {
  }

  /** 32 distinct characters: every ASCII punctuation character. */
  lemma PunctuationFacts()
    ensures |Punctuation| == 32 && NoDup(Punctuation)
    ensures forall c :: c in Punctuation <==> '!' <= c <= '/' || ':' <= c <= '@' || '[' <= c <= '`' || '{' <= c <= '~'
  {
    var a, b, c, d := CharRange('!', '/'), CharRange(':', '@'), CharRange('[', '`'), CharRange('{', '~');
    NoDupConcat(a, b);
    NoDupConcat(a + b, c);
    NoDupConcat(a + b + c, d);
  }

  /** No character belongs to two classes. */
  lemma ClassesDisjoint(c: char)
    ensures c in Letters ==> c !in Digits && c !in Punctuation
    ensures c in Digits ==> c !in Punctuation
  {
    LettersFacts();
    DigitsFacts();
    PunctuationFacts();
  }

  /** The delimiter is itself a punctuation character. */
  lemma DelimiterIsPunctuation()
    ensures Delimiter in Punctuation
  {
    PunctuationFacts();
  }
}
