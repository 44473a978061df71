# Password generator popup — a Dafny model

This project models the logic in the browser-extension popup of the password generator
(`popup/popup.js`). The popup builds an alphabet from the following:

- the character classes that are switched on (letters, digits, punctuation);
- the user's additional characters;
- the user's forbidden characters.

It then draws `segments` groups of `length` random characters from that alphabet and
joins the groups with `-`. The model also covers:

- the choice of interface language (`get_user_language`);
- the stored-or-default rule by which the form is filled when the popup opens;
- the reset button;
- the storing of the inputs after every generation.

Modules, one per concern of the script:

- `Wrappers`: `Option`, standing for a JavaScript value that may be `null`/`undefined`.
- `JsArrays`: the array operations the script relies on.
  - `indexOf` and `splice(i, 1)`, modelled as `IndexOf` and `RemoveFirst`.
  - `unique_array`, which is `[...new Set(a)]`, modelled as `Unique`.
  - `join(sep)`, modelled as `Join`.
  - Their sequence facts.
- `Charsets`: the constants `letters`, `digits`, `punctuation` and `delimiter`.
- `Random`: `random_choice` and `random_choices`. `Math.random()` is an oracle: a sequence of
  reals in `[0, 1)`, one per draw.
- `Generator`: `generate_password`.
  - Collecting the enabled classes: `CollectChars`, specified by `Pool`.
  - Removing forbidden characters: `RemoveForbidden`, specified by `RemoveEach`.
  - Deduplication: `BuildAlphabet`, specified by `Alphabet`.
  - Assembling the segments: `BuildPassword`, specified by `Segments`, `Join` and `Password`.
- `Locale`: `get_user_language` over a model of `window.navigator`.
- `Popup`: the `def_*` constants, the stored record and the class `Form`.
  - `Form` holds the seven inputs, the password field and the store's contents.
  - Its methods are reset, load, generate, the reset click and the start-up callback.
- `Scenarios`: concrete consequences. Examples: the default alphabet has 68 characters, and a
  default password has 20 characters.

Two behaviours of the code deserve a note. The model follows the code in both.

- **Forbidden characters can survive.** One might expect a forbidden character never to appear
  in the password. Instead, each character of the forbidden field removes only the *first*
  occurrence of that character, and removal comes *before* deduplication.
  - So a character is in the final alphabet exactly when it occurs in the collected pool more
    often than in the forbidden field (`Generator.AlphabetMembership`).
  - With punctuation switched on, `!` occurs twice in the pool: once in `punctuation` and once
    in the default additional characters. Forbidding it once therefore leaves one copy
    (`Scenarios.ForbiddenCharacterSurvives`).
- **An empty alphabet gives empty segments.** Nothing signals an error when the alphabet is
  empty.
  - `a[Math.floor(r * 0)]` is `undefined`, and `join('')` renders it as the empty string.
  - A password with `n > 0` segments is then `n - 1` delimiters (`Generator.PasswordEmptyAlphabet`).

## Model

| member | source | states |
|---|---|---|
| JsArrays.IndexOf | popup/popup.js:209 | `indexOf` gives -1 exactly when the element is absent; otherwise it gives a position holding the element with no earlier occurrence |
| JsArrays.RemoveFirstCount | popup/popup.js:209-212 | removing the first occurrence takes exactly one copy of the element out of the multiset, or none when it is absent; the length drops by one exactly when the element is present |
| JsArrays.RemoveFirstAbsent | popup/popup.js:210 | removing an element that is not present leaves the array unchanged |
| JsArrays.RemoveFirstOrder | popup/popup.js:211 | the elements that remain after a splice keep their relative order (the result is a subsequence) |
| JsArrays.UniqueSpec | popup/popup.js:40-42 | `unique_array` has no duplicates, has the same members as its input, lists them in order of first occurrence, and is no longer than its input |
| JsArrays.UniqueOfNoDup | popup/popup.js:40-42 | an array without duplicates comes back from `unique_array` unchanged |
| JsArrays.UniqueIdempotent | popup/popup.js:40-42 | applying `unique_array` twice equals applying it once |
| JsArrays.JoinLength | popup/popup.js:227 | joining n > 0 parts of length len with one separator gives n*(len+1)-1 characters; joining no parts gives "" |
| JsArrays.JoinLayout | popup/popup.js:227 | in the joined string, part k occupies positions k*(len+1) .. k*(len+1)+len, and a separator follows it unless it is the last part |
| JsArrays.JoinMembers | popup/popup.js:227 | every character of the joined string is the separator or a character of one of the parts |
| Charsets.CharRange | popup/popup.js:32-36 | the run of consecutive ASCII characters from lo to hi: its length, each position's code, its membership, and no duplicates |
| Charsets.LowercaseDefinition | popup/popup.js:32 | `letters_lowercase` is the string a..z |
| Charsets.UppercaseDefinition | popup/popup.js:33 | `letters_uppercase` is `toUpperCase` of `letters_lowercase` |
| Charsets.ToUpperCase | popup/popup.js:33 | upper-casing keeps the length and maps each ASCII lower-case letter to its capital, leaving every other character alone |
| Charsets.LettersFacts | popup/popup.js:32-34 | `letters` has 52 characters, no duplicates, and holds exactly a-z and A-Z |
| Charsets.DigitsDefinition | popup/popup.js:35 | `digits` is `unique_array` of "0123456789" |
| Charsets.DigitsFacts | popup/popup.js:35 | `digits` has 10 characters, no duplicates, and holds exactly 0-9 |
| Charsets.PunctuationDefinition | popup/popup.js:36 | `punctuation` is `unique_array` of the 32 ASCII punctuation characters in the order they are written |
| Charsets.PunctuationFacts | popup/popup.js:36 | `punctuation` has 32 characters, no duplicates, and holds exactly the four ASCII punctuation ranges |
| Charsets.ClassesDisjoint | popup/popup.js:32-36 | no character belongs to two of letters, digits and punctuation |
| Charsets.DelimiterIsPunctuation | popup/popup.js:36-37 | the delimiter `-` is itself a punctuation character, so splitting a password on it is not an inverse |
| Random.ScaledIndex | popup/popup.js:46 | `Math.floor(r * n)` for r in [0,1) is a valid index below n when n > 0, and 0 when n = 0 |
| Random.ScaledIndexInterval | popup/popup.js:46 | index k is chosen exactly when r lies in [k/n, (k+1)/n), so each index is chosen on an interval of width 1/n |
| Random.RandomChoice | popup/popup.js:45-47 | `random_choice` yields an element exactly when the array is non-empty, and that element is in the array; otherwise `undefined` |
| Random.RandomChoiceReaches | popup/popup.js:45-47 | every element of a non-empty array is chosen by some value of the oracle |
| Random.DrawsSpec | popup/popup.js:50-57 | the draws have one entry per oracle value, and entry i is `random_choice` with the i-th value |
| Random.RandomChoices | popup/popup.js:50-57 | `random_choices(a, n)` returns exactly n entries, each defined exactly when a is non-empty and then an element of a; the result equals the draw specification |
| Random.ConcatDefined | popup/popup.js:222 | `join('')` of defined characters is the string of those characters, position by position |
| Random.ConcatUndefined | popup/popup.js:222 | `join('')` of `undefined` entries is the empty string |
| Random.DrawnString | popup/popup.js:222 | a segment drawn from a non-empty alphabet has one character per draw, all from the alphabet; from an empty alphabet it is "" |
| Generator.PoolCount | popup/popup.js:201-205 | the count of a character in the collected pool is one per enabled class containing it, plus its count in the additional characters |
| Generator.CollectChars | popup/popup.js:201-205 | pushing the enabled classes yields letters, then digits, then punctuation, then the additional characters, each only when enabled |
| Generator.RemoveEachCount | popup/popup.js:207-214 | removing the forbidden characters one by one subtracts the forbidden multiset from the pool's multiset |
| Generator.RemoveEachOrder | popup/popup.js:207-214 | the characters left after removal keep their relative order |
| Generator.RemoveEachAbsent | popup/popup.js:207-214 | forbidden characters that are not in the pool leave it unchanged |
| Generator.RemoveEachPrefix | popup/popup.js:207-214 | forbidding a prefix of the pool removes exactly that prefix |
| Generator.RemoveForbidden | popup/popup.js:207-214 | the `indexOf`/`splice` loop over the forbidden characters computes the removal specification, including the empty forbidden field |
| Generator.AlphabetMembership | popup/popup.js:207-217 | a character is in the final alphabet if and only if its count in the pool exceeds its count in the forbidden field |
| Generator.AlphabetNoDup | popup/popup.js:217 | the final alphabet has no duplicates |
| Generator.ForbiddenSingleExcluded | popup/popup.js:207-217 | a forbidden character that occurs at most once in the pool is absent from the alphabet |
| Generator.AlphabetNothingForbidden | popup/popup.js:207-217 | with nothing forbidden, the alphabet is `unique_array` of the pool |
| Generator.BuildAlphabet | popup/popup.js:201-217 | the alphabet code computes the alphabet specification; the result has no duplicates and obeys the counting rule for membership |
| Generator.SegmentsShape | popup/popup.js:220-224 | there are `segments` segments; each is `length` characters of the alphabet, or "" when the alphabet is empty |
| Generator.BuildPassword | popup/popup.js:220-227 | the counted loop builds the segments from consecutive slices of the oracle and joins them with the delimiter |
| Generator.PasswordShape | popup/popup.js:220-227 | with a non-empty alphabet the password is "" for 0 segments, otherwise segments*length + segments - 1 characters, each the delimiter or from the alphabet |
| Generator.PasswordSegment | popup/popup.js:220-227 | segment k of the password sits at offset k*(length+1) and consists of alphabet characters, followed by a delimiter unless it is the last segment |
| Generator.PasswordEmptyAlphabet | popup/popup.js:220-227 | with an empty alphabet the password is segments-1 delimiters (or "" for 0 segments) |
| Locale.Substr2 | popup/popup.js:71 | `substr(0, 2)` is a prefix of length min(2, |s|) |
| Locale.FindAvailable | popup/popup.js:72 | a found language is both available and one of the candidates searched; nothing is found exactly when no candidate is available |
| Locale.UserLanguage | popup/popup.js:60-75 | `get_user_language` always returns "de" or "en" |
| Locale.ChainStep | popup/popup.js:63-72 | the filter/map/find chain over the candidate list takes the first candidate when it qualifies, and otherwise continues with the rest |
| Locale.PickFirstQualifying | popup/popup.js:63-74 | the result is the two-letter prefix of the first truthy candidate whose prefix is available |
| Locale.PickFallback | popup/popup.js:72-74 | when no candidate qualifies the result is "en" |
| Locale.RegionalCode | popup/popup.js:63-72 | a regional tag such as "de-AT" first in `navigator.languages` selects "de" |
| Popup.ResolveStored | popup/popup.js:160-166 | a field that was stored is used as is, even when it is 0, false or "" |
| Popup.ResolveAbsent | popup/popup.js:160-166 | a field that was not stored takes its `def_*` value |
| Popup.ResolveNothing | popup/popup.js:119-126 | with nothing stored, loading yields exactly the values the reset button assigns |
| Popup.StoreThenLoad | popup/popup.js:185-196 | loading what `store_user_interface` wrote gives back the same inputs |
| Popup.LoadThenStore | popup/popup.js:158-196 | a record with every field present is written back unchanged after a load |
| Popup.Form.StoredValues | popup/popup.js:187-195 | the record written for the current inputs loads back to those inputs |
| Popup.Form.Reset | popup/popup.js:119-126 | the reset assignments set all seven inputs to their defaults and change nothing else |
| Popup.Form.Load | popup/popup.js:160-166 | each input becomes its stored value when present, else its default; nothing else changes |
| Popup.Form.GeneratePassword | popup/popup.js:199-231 | the password field becomes the specified password for the current inputs, and the store then holds the current inputs |
| Popup.Form.ResetClicked | popup/popup.js:119-130 | after a click on reset the inputs are the defaults, the password is drawn from the default settings and the defaults are stored |
| Popup.Form.StorageLoaded | popup/popup.js:158-170 | at start-up the inputs are the stored-or-default values, the password is drawn from them and they are stored back |
| Scenarios.DefaultForbiddenAbsent | popup/popup.js:25-36 | none of the default forbidden characters occur in the default pool |
| Scenarios.DefaultPoolNoDup | popup/popup.js:25-36 | the default pool is letters, digits and the default additional characters, 68 characters with no duplicates |
| Scenarios.DefaultAlphabet | popup/popup.js:199-217 | with the default settings the alphabet is letters, digits and "!§$%&?" in that order, 68 characters |
| Scenarios.DefaultPasswordLength | popup/popup.js:220-227 | a password from the default settings has 20 characters |
| Scenarios.ForbiddenCharacterSurvives | popup/popup.js:204-217 | with punctuation on, forbidding "!" once leaves "!" in the alphabet |
| Scenarios.ForbiddenTwiceRemoved | popup/popup.js:204-217 | forbidding "!" twice removes it |
| Scenarios.DigitsOnly | popup/popup.js:199-227 | two segments of four digits give a 9-character password of digits with "-" at position 4 |
| Scenarios.UppercaseAlphabet | popup/popup.js:202-217 | letters with every lower-case letter forbidden leave exactly the capitals |
| Scenarios.UppercaseOnly | popup/popup.js:199-227 | such a password is 5 capital letters |
| Scenarios.EmptySegments | popup/popup.js:220-227 | length 0 with three segments gives "--" |
| Scenarios.EmptyAlphabet | popup/popup.js:199-227 | with every class off and nothing additional the alphabet is empty, and for every oracle the default-shaped password is "--" |

## Left out

- DOM lookup, event-listener wiring, `innerHTML` updates and `update_user_interface`
  (popup/popup.js:94-118, 128, 133-155, 174-182): these are user-interface plumbing. The handlers
  are modelled as `Form` methods.
- `loadJSON` and the parsing of the language files (popup/popup.js:78-89, 132-155): asynchronous
  I/O. Only the language choice that picks the file is modelled.
- `chrome.storage.local.get`/`set` as an asynchronous foreign store: the store is a `Stored`
  record held in `Form.storage`, where each field is present or absent. Callbacks running in
  another order are not modelled.
- `Math.random` is an ideal oracle of reals in [0, 1), passed in as a sequence. IEEE
  floating-point rounding of `r * n` is not modelled. The floor is exact.
- Form values are typed: `segments` and `length` are `nat`, and the check boxes are `bool`.
  JavaScript's coercions (a numeric string compared with `i`, a negative or non-numeric input)
  are not modelled.
- `toUpperCase` is modelled on ASCII only (`Charsets.ToUpperAscii`). That is all the script
  applies it to. `split('')` is modelled as one element per character. The UTF-16 splitting of
  characters outside the Basic Multilingual Plane is not modelled.
- The oracle values are consumed in call order: segment k uses values k*length .. (k+1)*length - 1.
  Nothing about the statistical quality of `Math.random` is modelled.
