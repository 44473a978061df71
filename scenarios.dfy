/** Concrete configurations: the defaults, and how forbidden characters and empty segments behave. */
module Scenarios {
  import opened JsArrays
  import opened Charsets
  import opened Random
  import opened Generator
  import opened Popup

  /** No character of the default forbidden string "°^\" occurs in the classes or in "!§$%&?". */
  lemma DefaultForbiddenAbsent()
    ensures forall c :: c in DefForbidden ==> c !in Pool(Defaults)
  {
    LettersFacts();
    DigitsFacts();
    assert Pool(Defaults) == Letters + Digits + DefAdditional;
  }

  /** The default alphabet: the 52 letters, the 10 digits and "!§$%&?", 68 characters in that order. */
  lemma DefaultAlphabet()
    ensures Alphabet(Defaults) == Letters + Digits + DefAdditional
    ensures |Alphabet(Defaults)| == 68
  {
    DefaultForbiddenAbsent();
    RemoveEachAbsent(Pool(Defaults), DefForbidden);
    DefaultPoolNoDup();
    UniqueOfNoDup(Pool(Defaults));
  }

  /** The default pool has no duplicates. */
  lemma DefaultPoolNoDup()
    ensures Pool(Defaults) == Letters + Digits + DefAdditional
    ensures |Pool(Defaults)| == 68 && NoDup(Pool(Defaults))
  {
    LettersFacts();
    DigitsFacts();
    NoDupConcat(Letters, Digits);
    NoDupConcat(Letters + Digits, DefAdditional);
  }

  /** A default password has three segments of six characters: 20 characters in all. */
  lemma DefaultPasswordLength(rs: seq<real>)
    requires |rs| == DefSegments * DefLength && AllUnit(rs)
    ensures |Password(Defaults, rs)| == 20
  {
    DefaultAlphabet();
    PasswordShape(Defaults, rs);
  }

  /**
   * Forbidding a character does not always keep it out of the password: with
   * punctuation checked, '!' is both a punctuation character and one of the
   * default additional characters, and one '!' in the forbidden string removes
   * only the first copy.
   */
  lemma ForbiddenCharacterSurvives()
    ensures var s := Defaults.(punctuation := true, forbidden := "!");
      '!' in s.forbidden && '!' in Alphabet(s)
  {
    var s := Defaults.(punctuation := true, forbidden := "!");
    PunctuationFacts();
    ClassesDisjoint('!');
    PoolCount(s, '!');
    assert multiset(s.additional)['!'] == 1;
    AlphabetMembership(s, '!');
  }

  /** Forbidding '!' twice in the same configuration does remove it. */
  lemma ForbiddenTwiceRemoved()
    ensures '!' !in Alphabet(Defaults.(punctuation := true, forbidden := "!!"))
  {
    var s := Defaults.(punctuation := true, forbidden := "!!");
    PunctuationFacts();
    ClassesDisjoint('!');
    PoolCount(s, '!');
    assert multiset(s.additional)['!'] == 1;
    AlphabetMembership(s, '!');
  }

  /** Only digits: two segments of four digits around one delimiter. */
  lemma DigitsOnly(rs: seq<real>)
    requires |rs| == 8 && AllUnit(rs)
    ensures var s := Settings(2, 4, false, true, false, "", "");
      var p := Password(s, rs);
      |p| == 9 && p[4] == Delimiter
      && (forall i :: 0 <= i < 4 ==> '0' <= p[i] <= '9')
      && (forall i :: 5 <= i < 9 ==> '0' <= p[i] <= '9')
  {
    var s := Settings(2, 4, false, true, false, "", "");
    assert Pool(s) == Digits;
    DigitsFacts();
    UniqueOfNoDup(Digits);
    assert Alphabet(s) == Digits;
    PasswordShape(s, rs);
    PasswordSegment(s, rs, 0, 0);
    PasswordSegment(s, rs, 1, 5);
    var p := Password(s, rs);
    forall i | 0 <= i < 4
      ensures '0' <= p[i] <= '9'
    {
      assert p[0..4][i] == p[i];
      assert p[i] in Digits;
    }
    forall i | 5 <= i < 9
      ensures '0' <= p[i] <= '9'
    {
      assert p[5..9][i - 5] == p[i];
      assert p[i] in Digits;
    }
  }

  /** Letters with every lower-case letter forbidden: the alphabet is the upper-case letters. */
  lemma UppercaseAlphabet()
    ensures Alphabet(Settings(1, 5, true, false, false, "", LettersLowercase)) == LettersUppercase
  {
    var s := Settings(1, 5, true, false, false, "", LettersLowercase);
    assert Pool(s) == LettersLowercase + LettersUppercase;
    RemoveEachPrefix(LettersLowercase, LettersUppercase);
    UniqueOfNoDup(LettersUppercase);
  }

  /** ... and the password is five upper-case letters. */
  lemma UppercaseOnly(rs: seq<real>)
    requires |rs| == 5 && AllUnit(rs)
    ensures var p := Password(Settings(1, 5, true, false, false, "", LettersLowercase), rs);
      |p| == 5 && forall c :: c in p ==> 'A' <= c <= 'Z'
  {
    var s := Settings(1, 5, true, false, false, "", LettersLowercase);
    UppercaseAlphabet();
    PasswordShape(s, rs);
    var segs := Segments(Alphabet(s), 1, 5, rs);
    SegmentsShape(Alphabet(s), 1, 5, rs);
    var p := Password(s, rs);
    assert p == segs[0];
    forall c | c in p
      ensures 'A' <= c <= 'Z'
    {
      assert c in LettersUppercase;
    }
  }

  /** Segments of length 0 with three segments: the password is "--". */
  lemma EmptySegments()
    ensures Password(Defaults.(length := 0), []) == "--"
  {
    var s := Defaults.(length := 0);
    DefaultAlphabet();
    assert Alphabet(s) == Alphabet(Defaults);
    assert Segments(Alphabet(s), 3, 0, []) == ["", "", ""];
  }

  /** Nothing checked and no additional characters: the alphabet is empty and so is every segment. */
  lemma EmptyAlphabet(rs: seq<real>)
    requires |rs| == 18 && AllUnit(rs)
    ensures var s := Defaults.(letter := false, digit := false, additional := "");
      Alphabet(s) == [] && Password(s, rs) == "--"
  {
    var s := Defaults.(letter := false, digit := false, additional := "");
    assert Pool(s) == [];
    RemoveEachAbsent([], s.forbidden);
    assert Alphabet(s) == Unique([]);
    PasswordEmptyAlphabet(s, rs);
  }
}
