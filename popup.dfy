/**
 * The popup's form: its seven inputs, the password field, the default values,
 * loading the stored values, the reset button and password generation.
 */
module Popup {
  import opened Wrappers
  import opened Random
  import opened Generator

  const DefSegments: nat := 3
  const DefLength: nat := 6
  const DefLetter: bool := true
  const DefDigit: bool := true
  const DefPunctuation: bool := false
  /** "!§$%&?" */
  const DefAdditional: string := "!\U{A7}$%&?"
  /** "°^\" */
  const DefForbidden: string := "\U{B0}^\\"

  const Defaults: Settings :=
    Settings(DefSegments, DefLength, DefLetter, DefDigit, DefPunctuation, DefAdditional, DefForbidden)

  /** What `chrome.storage.local.get` hands back: each field stored or absent (`null`/`undefined`). */
  datatype Stored = Stored(
    segments: Option<nat>,
    length: Option<nat>,
    letter: Option<bool>,
    digit: Option<bool>,
    punctuation: Option<bool>,
    additional: Option<string>,
    forbidden: Option<string>)

  const NothingStored: Stored := Stored(None, None, None, None, None, None, None)

  /** Each input takes its stored value when there is one and its default otherwise. */
  function Resolve(st: Stored): Settings {
    Settings(
      st.segments.GetOr(DefSegments),
      st.length.GetOr(DefLength),
      st.letter.GetOr(DefLetter),
      st.digit.GetOr(DefDigit),
      st.punctuation.GetOr(DefPunctuation),
      st.additional.GetOr(DefAdditional),
      st.forbidden.GetOr(DefForbidden))
  }

  /** The object `store_user_interface` passes to `chrome.storage.local.set`. */
  function Snapshot(s: Settings): Stored {
    Stored(Some(s.segments), Some(s.length), Some(s.letter), Some(s.digit), Some(s.punctuation),
      Some(s.additional), Some(s.forbidden))
  }

  /** A field that was stored is used as is: a stored 0, `false` or "" does not fall back. */
  lemma ResolveStored(st: Stored)
    ensures st.segments.Some? ==> Resolve(st).segments == st.segments.value
    ensures st.length.Some? ==> Resolve(st).length == st.length.value
    ensures st.letter.Some? ==> Resolve(st).letter == st.letter.value
    ensures st.digit.Some? ==> Resolve(st).digit == st.digit.value
    ensures st.punctuation.Some? ==> Resolve(st).punctuation == st.punctuation.value
    ensures st.additional.Some? ==> Resolve(st).additional == st.additional.value
    ensures st.forbidden.Some? ==> Resolve(st).forbidden == st.forbidden.value
  {
  }

  /** A field that was not stored takes its default. */
  lemma ResolveAbsent(st: Stored)
    ensures st.segments.None? ==> Resolve(st).segments == Defaults.segments
    ensures st.length.None? ==> Resolve(st).length == Defaults.length
    ensures st.letter.None? ==> Resolve(st).letter == Defaults.letter
    ensures st.digit.None? ==> Resolve(st).digit == Defaults.digit
    ensures st.punctuation.None? ==> Resolve(st).punctuation == Defaults.punctuation
    ensures st.additional.None? ==> Resolve(st).additional == Defaults.additional
    ensures st.forbidden.None? ==> Resolve(st).forbidden == Defaults.forbidden
  {
  }

  /** With nothing stored, loading gives exactly what the reset button sets. */
  lemma ResolveNothing()
    ensures Resolve(NothingStored) == Defaults
  {
  }

  /** Storing the inputs and loading them again gives the same inputs back. */
  lemma StoreThenLoad(s: Settings)
    ensures Resolve(Snapshot(s)) == s
  {
  }

  /** Every field has a stored value, as after one `store_user_interface`. */
  predicate Complete(st: Stored) {
    && st.segments.Some? && st.length.Some? && st.letter.Some? && st.digit.Some?
    && st.punctuation.Some? && st.additional.Some? && st.forbidden.Some?
  }

  /** Loading a complete record and storing the result writes back the same record. */
  lemma LoadThenStore(st: Stored)
    requires Complete(st)
    ensures Snapshot(Resolve(st)) == st
  {
  }

  /** The popup's inputs, its password field and what `chrome.storage.local` holds. */
  class Form {
    var segments: nat
    var length: nat
    var letter: bool
    var digit: bool
    var punctuation: bool
    var additional: string
    var forbidden: string
    var password: string
    var storage: Stored

    /** The values of the seven inputs. */
    function Current(): Settings
      reads this
    {
      Settings(segments, length, letter, digit, punctuation, additional, forbidden)
    }

    /** The values `store_user_interface` writes. */
    function StoredValues(): (st: Stored)
      reads this
      ensures Resolve(st) == Current()
    {
      StoreThenLoad(Current());
      Snapshot(Current())
    }

    /** A popup whose inputs hold `s`, opened over the stored record `st`. */
    constructor (s: Settings, st: Stored)
      ensures Current() == s && password == "" && storage == st
    {
      segments, length, letter, digit := s.segments, s.length, s.letter, s.digit;
      punctuation, additional, forbidden := s.punctuation, s.additional, s.forbidden;
      password := "";
      storage := st;
    }

    /** The assignments of the reset button's handler: every input back to its default. */
    method Reset()
      modifies this
      ensures Current() == Defaults
      ensures password == old(password) && storage == old(storage)
    {
      segments := DefSegments;
      length := DefLength;
      letter := DefLetter;
      digit := DefDigit;
      punctuation := DefPunctuation;
      additional := DefAdditional;
      forbidden := DefForbidden;
    }

    /**
     * The assignments of the `chrome.storage.local.get` callback: each input gets
     * the stored value when it is not null, else its default (`GetOr`).
     */
    method Load(st: Stored)
      modifies this
      ensures Current() == Resolve(st)
      ensures password == old(password) && storage == old(storage)
    {
      segments := st.segments.GetOr(DefSegments);
      length := st.length.GetOr(DefLength);
      letter := st.letter.GetOr(DefLetter);
      digit := st.digit.GetOr(DefDigit);
      punctuation := st.punctuation.GetOr(DefPunctuation);
      additional := st.additional.GetOr(DefAdditional);
      forbidden := st.forbidden.GetOr(DefForbidden);
    }

    /**
     * `generate_password`: builds the alphabet from the inputs, draws the password,
     * puts it in the password field and stores the inputs (`store_user_interface`);
     * `rs` are the values `Math.random()` returns.
     */
    method GeneratePassword(rs: seq<real>)
      requires |rs| == segments * length && AllUnit(rs)
      modifies this`password, this`storage
      ensures password == Password(Current(), rs)
      ensures storage == Snapshot(Current()) && Resolve(storage) == Current()
    {
      var alphabet := BuildAlphabet(Current());
      password := BuildPassword(alphabet, segments, length, rs);
      storage := StoredValues();
    }

    /** The reset button: defaults, then a new password. */
    method ResetClicked(rs: seq<real>)
      requires |rs| == DefSegments * DefLength && AllUnit(rs)
      modifies this
      ensures Current() == Defaults
      ensures password == Password(Defaults, rs)
      ensures storage == Snapshot(Defaults)
    {
      Reset();
      GeneratePassword(rs);
    }

    /** The storage callback at start-up: stored values or defaults, then a new password. */
    method StorageLoaded(rs: seq<real>)
      requires |rs| == Resolve(storage).segments * Resolve(storage).length && AllUnit(rs)
      modifies this
      ensures Current() == Resolve(old(storage))
      ensures password == Password(Resolve(old(storage)), rs)
      ensures storage == Snapshot(Resolve(old(storage)))
    {
      Load(storage);
      GeneratePassword(rs);
    }
  }
}
