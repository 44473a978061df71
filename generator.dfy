/**
 * The body of `generate_password`: the alphabet of valid characters built from
 * the settings, and the password drawn from it.
 */
module Generator {
  import opened Wrappers
  import opened JsArrays
  import opened Charsets
  import opened Random

  /** The values of the popup's seven inputs. */
  datatype Settings = Settings(
    segments: nat,
    length: nat,
    letter: bool,
    digit: bool,
    punctuation: bool,
    additional: string,
    forbidden: string)

  /** The valid characters before any removal: the enabled classes, then the additional characters. */
  function Pool(s: Settings): string {
    Enabled(s.letter, Letters) + Enabled(s.digit, Digits) + Enabled(s.punctuation, Punctuation) + s.additional
  }

  /** A character class when its checkbox is checked, nothing otherwise. */
  function Enabled(checked: bool, chars: string): string {
    if checked then chars else []
  }

  /** An enabled duplicate-free class contributes one copy of each of its characters. */
  lemma EnabledCount(checked: bool, chars: string, c: char)
    requires NoDup(chars)
    ensures multiset(Enabled(checked, chars))[c] == if checked && c in chars then 1 else 0
  {
    NoDupCount(chars, c);
  }

  /** How often `c` occurs in the pool: once per enabled class holding it, plus its count in the additional characters. */
  lemma PoolCount(s: Settings, c: char)
    ensures multiset(Pool(s))[c] ==
      (if s.letter && c in Letters then 1 else 0)
      + (if s.digit && c in Digits then 1 else 0)
      + (if s.punctuation && c in Punctuation then 1 else 0)
      + multiset(s.additional)[c]
  {
    LettersPart(s.letter, c);
    DigitsPart(s.digit, c);
    PunctuationPart(s.punctuation, c);
    ConcatCount(Enabled(s.letter, Letters), Enabled(s.digit, Digits), Enabled(s.punctuation, Punctuation), s.additional, c);
  }

  lemma LettersPart(checked: bool, c: char)
    ensures multiset(Enabled(checked, Letters))[c] == if checked && c in Letters then 1 else 0
  {
    LettersFacts();
    EnabledCount(checked, Letters, c);
  }

  lemma DigitsPart(checked: bool, c: char)
    ensures multiset(Enabled(checked, Digits))[c] == if checked && c in Digits then 1 else 0
  {
    DigitsFacts();
    EnabledCount(checked, Digits, c);
  }

  lemma PunctuationPart(checked: bool, c: char)
    ensures multiset(Enabled(checked, Punctuation))[c] == if checked && c in Punctuation then 1 else 0
  {
    PunctuationFacts();
    EnabledCount(checked, Punctuation, c);
  }

  lemma ConcatCount(a: string, b: string, p: string, t: string, c: char)
    ensures multiset(a + b + p + t)[c] == multiset(a)[c] + multiset(b)[c] + multiset(p)[c] + multiset(t)[c]
  {
    assert multiset(a + b + p + t) == multiset(a) + multiset(b) + multiset(p) + multiset(t);
  }

  /** Collects the enabled classes and then the additional characters, in that order. */
  method CollectChars(s: Settings) returns (validChars: string)
    ensures validChars == Pool(s)
  {
    validChars := [];
    if s.letter {
      validChars := validChars + Letters;
    }
    if s.digit {
      validChars := validChars + Digits;
    }
    if s.punctuation {
      validChars := validChars + Punctuation;
    }
    if s.additional != [] {
      validChars := validChars + s.additional;
    }
  }

  /** Each character of `fs`, in order, removes the first copy of itself still present. */
  function RemoveEach(v: string, fs: string): string {
    if fs == [] then v
    else RemoveFirst(RemoveEach(v, fs[..|fs| - 1]), fs[|fs| - 1])
  }

  /** Removal takes out `min(count in v, count in fs)` copies of each character: multiset difference. */
  lemma {:induction false} RemoveEachCount(v: string, fs: string)
    ensures multiset(RemoveEach(v, fs)) == multiset(v) - multiset(fs)
  {
    if fs != [] {
      var p, x := fs[..|fs| - 1], fs[|fs| - 1];
      RemoveEachCount(v, p);
      RemoveFirstCount(RemoveEach(v, p), x);
      assert fs == p + [x];
      assert multiset(fs) == multiset(p) + multiset{x};
      MultisetSubtract(multiset(v), multiset(p), x);
    }
  }

  lemma MultisetSubtract(a: multiset<char>, b: multiset<char>, x: char)
    ensures a - b - multiset{x} == a - (b + multiset{x})
  {
    forall y
      ensures (a - b - multiset{x})[y] == (a - (b + multiset{x}))[y]
    {
    }
  }

  /** The characters that survive keep their relative order. */
  lemma {:induction false} RemoveEachOrder(v: string, fs: string)
    ensures IsSubsequence(RemoveEach(v, fs), v)
  {
    if fs == [] {
      SubsequenceRefl(v);
    } else {
      var p := fs[..|fs| - 1];
      RemoveEachOrder(v, p);
      RemoveFirstOrder(RemoveEach(v, p), fs[|fs| - 1]);
      SubsequenceTrans(RemoveEach(v, fs), RemoveEach(v, p), v);
    }
  }

  /** Forbidden characters that do not occur change nothing. */
  lemma {:induction false} RemoveEachAbsent(v: string, fs: string)
    requires forall c :: c in fs ==> c !in v
    ensures RemoveEach(v, fs) == v
  {
    if fs != [] {
      var p := fs[..|fs| - 1];
      assert forall c :: c in p ==> c in fs;
      RemoveEachAbsent(v, p);
      RemoveFirstAbsent(v, fs[|fs| - 1]);
    }
  }

  /** Forbidding exactly the leading characters `p` strips them off. */
  lemma {:induction false} RemoveEachPrefix(p: string, t: string)
    ensures RemoveEach(p + t, p) == t
    decreases |p|
  {
    if p != [] {
      var q := p[..|p| - 1];
      var x := p[|p| - 1];
      assert p + t == q + ([x] + t);
      RemoveEachPrefix(q, [x] + t);
      assert RemoveEach(p + t, p) == RemoveFirst([x] + t, x);
      assert IndexOf([x] + t, x) == 0;
      assert ([x] + t)[1..] == t;
    }
  }

  /** The removal loop over `id_forbidden.value`, with `indexOf` and `splice(index, 1)`. */
  method RemoveForbidden(chars: string, forbidden: string) returns (validChars: string)
    ensures validChars == RemoveEach(chars, forbidden)
  {
    validChars := chars;
    if forbidden != [] {
      for j := 0 to |forbidden|
        invariant validChars == RemoveEach(chars, forbidden[..j])
      {
        var f := forbidden[j];
        assert forbidden[..j + 1][..j] == forbidden[..j];
        var index := IndexOf(validChars, f);
        if index > -1 {
          validChars := validChars[..index] + validChars[index + 1..];
        }
      }
      assert forbidden[..|forbidden|] == forbidden;
    }
  }

  /** The alphabet drawn from: the pool, minus the forbidden characters, deduplicated. */
  function Alphabet(s: Settings): string {
    Unique(RemoveEach(Pool(s), s.forbidden))
  }

  /**
   * A character is in the alphabet exactly when it occurs more often in the pool
   * than in the forbidden string; the alphabet has no duplicates.
   */
  lemma AlphabetMembership(s: Settings, c: char)
    ensures c in Alphabet(s) <==> multiset(Pool(s))[c] > multiset(s.forbidden)[c]
  {
    var removed := RemoveEach(Pool(s), s.forbidden);
    RemoveEachCount(Pool(s), s.forbidden);
    UniqueSpec(removed);
    assert c in removed <==> multiset(removed)[c] > 0;
  }

  /** The alphabet holds no character twice. */
  lemma AlphabetNoDup(s: Settings)
    ensures NoDup(Alphabet(s))
  {
    UniqueSpec(RemoveEach(Pool(s), s.forbidden));
  }

  /** Forbidding a character that the pool holds at most once excludes it. */
  lemma ForbiddenSingleExcluded(s: Settings, c: char)
    requires c in s.forbidden && multiset(Pool(s))[c] <= 1
    ensures c !in Alphabet(s)
  {
    AlphabetMembership(s, c);
  }

  /** Without forbidden characters the alphabet is the pool's distinct characters, in pool order. */
  lemma AlphabetNothingForbidden(s: Settings)
    requires s.forbidden == []
    ensures Alphabet(s) == Unique(Pool(s))
  {
  }

  /** Computes the alphabet: collects the pool, removes the forbidden characters, deduplicates. */
  method BuildAlphabet(s: Settings) returns (validChars: string)
    ensures validChars == Alphabet(s)
    ensures NoDup(validChars)
    ensures forall c :: c in validChars <==> multiset(Pool(s))[c] > multiset(s.forbidden)[c]
  {
    var pool := CollectChars(s);
    validChars := RemoveForbidden(pool, s.forbidden);
    validChars := Unique(validChars);
    AlphabetNoDup(s);
    forall c
      ensures c in validChars <==> multiset(Pool(s))[c] > multiset(s.forbidden)[c]
    {
      AlphabetMembership(s, c);
    }
  }

  /** The random values consumed by segment `i`: `length` of them per segment, in order. */
  function SegmentDraws(rs: seq<real>, i: nat, length: nat): (d: seq<real>)
    requires (i + 1) * length <= |rs|
    ensures |d| == length
    ensures AllUnit(rs) ==> AllUnit(d)
  {
    Distribute(i, length);
    rs[i * length..(i + 1) * length]
  }

  lemma Distribute(i: nat, n: nat)
    ensures (i + 1) * n == i * n + n && n * (i + 1) == n * i + n
  {
  }

  /** The first `count` segments, each `length` characters drawn from `alphabet`. */
  function Segments(alphabet: string, count: nat, length: nat, rs: seq<real>): seq<string>
    requires count * length <= |rs| && AllUnit(rs)
  {
    if count == 0 then []
    else
      Distribute(count - 1, length);
      Segments(alphabet, count - 1, length, rs) + [Concat(Draws(alphabet, SegmentDraws(rs, count - 1, length)))]
  }

  /**
   * There are `count` segments; with a non-empty alphabet each has `length`
   * characters of the alphabet, and with an empty one each is empty.
   */
  lemma {:induction false} SegmentsShape(alphabet: string, count: nat, length: nat, rs: seq<real>)
    requires count * length <= |rs| && AllUnit(rs)
    ensures |Segments(alphabet, count, length, rs)| == count
    ensures forall k :: 0 <= k < count && |alphabet| > 0 ==>
      |Segments(alphabet, count, length, rs)[k]| == length
      && forall c :: c in Segments(alphabet, count, length, rs)[k] ==> c in alphabet
    ensures forall k :: 0 <= k < count && |alphabet| == 0 ==> Segments(alphabet, count, length, rs)[k] == ""
  {
    if count > 0 {
      Distribute(count - 1, length);
      SegmentsShape(alphabet, count - 1, length, rs);
      DrawnString(alphabet, SegmentDraws(rs, count - 1, length));
    }
  }

  /** The password for settings `s` when `Math.random()` returns `rs`, one value per character. */
  function Password(s: Settings, rs: seq<real>): string
    requires |rs| == s.segments * s.length && AllUnit(rs)
  {
    Join(Segments(Alphabet(s), s.segments, s.length, rs), Delimiter)
  }

  /** The length and layout of a password drawn from a non-empty alphabet. */
  lemma PasswordShape(s: Settings, rs: seq<real>)
    requires |rs| == s.segments * s.length && AllUnit(rs)
    requires |Alphabet(s)| > 0
    ensures s.segments == 0 ==> Password(s, rs) == ""
    ensures s.segments > 0 ==> |Password(s, rs)| == s.segments * s.length + s.segments - 1
    ensures forall c :: c in Password(s, rs) ==> c == Delimiter || c in Alphabet(s)
  {
    var segs := Segments(Alphabet(s), s.segments, s.length, rs);
    SegmentsShape(Alphabet(s), s.segments, s.length, rs);
    JoinLength(segs, Delimiter, s.length);
    Distribute(s.length, s.segments);
    forall c | c in Password(s, rs)
      ensures c == Delimiter || c in Alphabet(s)
    {
      JoinMembers(segs, Delimiter, c);
    }
  }

  /**
   * Segment `k` of the password is `length` characters of the alphabet at offset
   * `k * (length + 1)`, followed by the delimiter unless it is the last.
   */
  lemma PasswordSegment(s: Settings, rs: seq<real>, k: nat, o: nat)
    requires |rs| == s.segments * s.length && AllUnit(rs)
    requires |Alphabet(s)| > 0 && k < s.segments && o == k * (s.length + 1)
    ensures o + s.length <= |Password(s, rs)|
    ensures forall c :: c in Password(s, rs)[o..o + s.length] ==> c in Alphabet(s)
    ensures k + 1 < s.segments ==> o + s.length < |Password(s, rs)| && Password(s, rs)[o + s.length] == Delimiter
  {
    var segs := Segments(Alphabet(s), s.segments, s.length, rs);
    SegmentsShape(Alphabet(s), s.segments, s.length, rs);
    var p := Password(s, rs);
    assert p == Join(segs, Delimiter);
    JoinLayout(segs, Delimiter, s.length, k, o);
    forall c | c in p[o..o + s.length]
      ensures c in Alphabet(s)
    {
      assert c in segs[k];
    }
  }

  /** With an empty alphabet every segment is empty: the password is only delimiters. */
  lemma PasswordEmptyAlphabet(s: Settings, rs: seq<real>)
    requires |rs| == s.segments * s.length && AllUnit(rs)
    requires |Alphabet(s)| == 0
    ensures s.segments > 0 ==> Password(s, rs) == seq(s.segments - 1, _ => Delimiter)
    ensures s.segments == 0 ==> Password(s, rs) == ""
  {
    var segs := Segments(Alphabet(s), s.segments, s.length, rs);
    SegmentsShape(Alphabet(s), s.segments, s.length, rs);
    if s.segments > 0 {
      JoinEmpty(segs, Delimiter);
    }
  }

  /** Draws `segments` strings of `length` characters from `alphabet` and joins them with the delimiter. */
  method BuildPassword(alphabet: string, segments: nat, length: nat, rs: seq<real>) returns (password: string)
    requires |rs| == segments * length && AllUnit(rs)
    ensures password == Join(Segments(alphabet, segments, length, rs), Delimiter)
  {
    var parts: seq<string> := [];
    var i := 0;
    while i < segments
      invariant 0 <= i <= segments
      invariant parts == Segments(alphabet, i, length, rs)
    {
      MulMonotone(i + 1, segments, length);
      var choices := RandomChoices(alphabet, length, SegmentDraws(rs, i, length));
      parts := parts + [Concat(choices)];
      i := i + 1;
    }
    password := Join(parts, Delimiter);
  }

  lemma MulMonotone(a: nat, b: nat, n: nat)
    requires a <= b
    ensures a * n <= b * n
  {
  }
}
