/** `get_user_language`: the language whose strings the popup loads. */
module Locale {
  import opened Wrappers

  /** The language properties of `window.navigator`; any of them may be undefined. */
  datatype Navigator = Navigator(
    languages: Option<seq<Option<string>>>,
    language: Option<string>,
    browserLanguage: Option<string>,
    userLanguage: Option<string>,
    systemLanguage: Option<string>)

  const Available: seq<string> := ["de", "en"]
  const Fallback: string := "en"

  /** `navigator.languages` (or nothing), then the four single-language properties. */
  function Candidates(nav: Navigator): seq<Option<string>> {
    nav.languages.GetOr([]) + [nav.language, nav.browserLanguage, nav.userLanguage, nav.systemLanguage]
  }

  /** `Boolean(v)` for a string that may be undefined: defined and non-empty. */
  predicate Truthy(v: Option<string>) {
    v.Some? && v.value != ""
  }

  /** `s.substr(0, 2)`. */
  function Substr2(s: string): (r: string)
    ensures |r| == if |s| < 2 then |s| else 2
    ensures r <= s
  {
    if |s| < 2 then s else s[..2]
  }

  /** `.filter(Boolean)` */
  function FilterTruthy(xs: seq<Option<string>>): seq<string> {
    if xs == [] then []
    else (if Truthy(xs[0]) then [xs[0].value] else []) + FilterTruthy(xs[1..])
  }

  /** `.map(language => language.substr(0, 2))` */
  function MapPrefix(xs: seq<string>): seq<string> {
    if xs == [] then [] else [Substr2(xs[0])] + MapPrefix(xs[1..])
  }

  /** `.find(language => available.includes(language))` */
  function FindAvailable(xs: seq<string>): (r: Option<string>)
    ensures r.Some? ==> r.value in Available && r.value in xs
    ensures r.None? <==> forall i :: 0 <= i < |xs| ==> xs[i] !in Available
  {
    if xs == [] then None
    else if xs[0] in Available then Some(xs[0])
    else FindAvailable(xs[1..])
  }

  /** The `filter`/`map`/`find` chain over the candidates, with `|| "en"`. */
  function PickLanguage(cands: seq<Option<string>>): string {
    FindAvailable(MapPrefix(FilterTruthy(cands))).GetOr(Fallback)
  }

  /** `get_user_language()` */
  function UserLanguage(nav: Navigator): (r: string)
    ensures r == "de" || r == "en"
  {
    PickLanguage(Candidates(nav))
  }

  /** A candidate the chain accepts: defined, non-empty, and its two-letter prefix available. */
  predicate Qualifies(v: Option<string>) {
    Truthy(v) && Substr2(v.value) in Available
  }

  /** The chain looks at the candidates one by one and stops at the first that qualifies. */
  lemma ChainStep(cands: seq<Option<string>>)
    requires cands != []
    ensures FindAvailable(MapPrefix(FilterTruthy(cands))) ==
      if Qualifies(cands[0]) then Some(Substr2(cands[0].value))
      else FindAvailable(MapPrefix(FilterTruthy(cands[1..])))
  {
    var rest := FilterTruthy(cands[1..]);
    if Truthy(cands[0]) {
      var v := cands[0].value;
      assert FilterTruthy(cands) == [v] + rest;
      assert ([v] + rest)[1..] == rest;
      var m := MapPrefix(rest);
      assert MapPrefix([v] + rest) == [Substr2(v)] + m;
      assert ([Substr2(v)] + m)[1..] == m;
    } else {
      assert FilterTruthy(cands) == [] + rest == rest;
    }
  }

  /** The language is the prefix of the first candidate that qualifies. */
  lemma {:induction false} PickFirstQualifying(cands: seq<Option<string>>, k: nat)
    requires k < |cands| && Qualifies(cands[k])
    requires forall j :: 0 <= j < k ==> !Qualifies(cands[j])
    ensures PickLanguage(cands) == Substr2(cands[k].value)
  {
    ChainStep(cands);
    if k > 0 {
      PickFirstQualifying(cands[1..], k - 1);
    }
  }

  /** When no candidate qualifies the language is "en". */
  lemma {:induction false} PickFallback(cands: seq<Option<string>>)
    requires forall j :: 0 <= j < |cands| ==> !Qualifies(cands[j])
    ensures PickLanguage(cands) == Fallback
  {
    if cands != [] {
      ChainStep(cands);
      PickFallback(cands[1..]);
    }
  }

  /** A regional code like "de-AT" selects its language. */
  lemma RegionalCode(rest: Option<string>)
    ensures UserLanguage(Navigator(Some([Some("de-AT")]), rest, None, None, None)) == "de"
  {
    var nav := Navigator(Some([Some("de-AT")]), rest, None, None, None);
    assert Candidates(nav)[0] == Some("de-AT");
    assert Substr2("de-AT") == "de";
    PickFirstQualifying(Candidates(nav), 0);
  }
}
