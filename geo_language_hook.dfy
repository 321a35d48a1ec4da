/**
 * Language choice in the browser (hooks/use-geo-language.ts): the
 * `geo-lang` cookie, then `navigator.language`, then `navigator.languages`,
 * then the default. The browser state is passed in.
 */
module GeoLanguageHook {
  import opened Wrappers
  import opened Text
  import GeoLanguage

  /** What the hook reads from the browser: `document.cookie` and the navigator's languages. */
  datatype Browser = Browser(cookie: string, language: string, languages: Option<seq<string>>)

  const CookieName: string := "geo-lang="

  /** The cookie value up to the next ';' (the `[^;]*` group). */
  function UpToSemicolon(s: string): (r: string)
    ensures |r| <= |s| && r == s[..|r|]
    ensures forall i :: 0 <= i < |r| ==> r[i] != ';'
    ensures |r| < |s| ==> s[|r|] == ';'
  {
    if s == [] || s[0] == ';' then "" else [s[0]] + UpToSemicolon(s[1..])
  }

  /**
   * `document.cookie.match(/(?:^|; )geo-lang=([^;]*)/)?.[1]`: the value of the
   * first `geo-lang=` that starts the string or follows "; ".
   * `atBoundary` says whether `s` starts at such a boundary.
   */
  function CookieScan(s: string, atBoundary: bool): (r: Option<string>)
    ensures r.Some? ==> forall i :: 0 <= i < |r.value| ==> r.value[i] != ';'
    decreases |s|
  {
    if atBoundary && HasPrefix(s, CookieName) then Some(UpToSemicolon(s[|CookieName|..]))
    else if s == [] then None
    else if HasPrefix(s, "; ") then CookieScan(s[2..], true)
    else CookieScan(s[1..], false)
  }

  function GeoCookie(cookie: string): Option<string> {
    CookieScan(cookie, true)
  }

  /** The base of a language tag: the text before the first '-', lower-cased. */
  function Base(tag: string): string {
    Lower(SplitBy(tag, GeoLanguage.IsHyphen)[0])
  }

  /** The `for … of navigator.languages` search: the first supported base. */
  function FirstSupportedBase(langs: seq<string>): (r: Option<string>)
    ensures r.Some? ==> r.value in GeoLanguage.SupportedLanguages
    ensures r.Some? ==> exists i :: (0 <= i < |langs| && Base(langs[i]) == r.value
                                     && forall j :: 0 <= j < i ==> Base(langs[j]) !in GeoLanguage.SupportedLanguages)
    ensures r.None? ==> forall i :: 0 <= i < |langs| ==> Base(langs[i]) !in GeoLanguage.SupportedLanguages
  {
    if langs == [] then None
    else if Base(langs[0]) in GeoLanguage.SupportedLanguages then Some(Base(langs[0]))
    else
      var r := FirstSupportedBase(langs[1..]);
      assert forall i :: 1 <= i < |langs| ==> langs[i] == langs[1..][i - 1];
      if r.Some? then
        var i :| (0 <= i < |langs[1..]| && Base(langs[1..][i]) == r.value
                  && forall j :: 0 <= j < i ==> Base(langs[1..][j]) !in GeoLanguage.SupportedLanguages);
        assert Base(langs[i + 1]) == r.value;
        r
      else r
  }

  /**
   * `getGeoLanguage()`; `window` is `None` during server rendering. Unless
   * the cookie wins outright, the answer is a supported language: the
   * cookie value the last step falls back to can only be "en".
   */
  function GetGeoLanguage(window: Option<Browser>): (r: string)
    ensures window.None? ==> r == "en"
    ensures (window.Some? && GeoCookie(window.value.cookie).Some?
      && GeoCookie(window.value.cookie).value !in {"", "en"}) ==> r == GeoCookie(window.value.cookie).value
    ensures window.None? || GeoCookie(window.value.cookie).None? || GeoCookie(window.value.cookie).value in {"", "en"}
      ==> r in GeoLanguage.SupportedLanguages
  {
    if window.None? then "en"
    else
      var b := window.value;
      var cookie := GeoCookie(b.cookie);
      if cookie.Some? && cookie.value != "" && cookie.value != "en" then cookie.value
      else if b.language != "" && Base(b.language) in GeoLanguage.SupportedLanguages then Base(b.language)
      else
        var fromList := if b.languages.Some? then FirstSupportedBase(b.languages.value) else None;
        if fromList.Some? then fromList.value
        else if cookie.Some? && cookie.value != "" then cookie.value
        else "en"
  }

  /** Without a usable cookie, a supported base of `navigator.language` wins over `navigator.languages`. */
  lemma NavigatorLanguageFirst(b: Browser)
    requires GeoCookie(b.cookie).None? || GeoCookie(b.cookie).value in {"", "en"}
    requires b.language != "" && Base(b.language) in GeoLanguage.SupportedLanguages
    ensures GetGeoLanguage(Some(b)) == Base(b.language)
  {
  }

  /**
   * Without a usable cookie and without a supported `navigator.language`, the
   * first supported base in `navigator.languages` wins; failing that the
   * answer is "en". The last step's cookie can then only be "en" itself,
   * since any other non-empty value already won at the first step.
   */
  lemma LanguagesThenDefault(b: Browser)
    requires GeoCookie(b.cookie).None? || GeoCookie(b.cookie).value in {"", "en"}
    requires b.language == "" || Base(b.language) !in GeoLanguage.SupportedLanguages
    ensures b.languages.Some? && FirstSupportedBase(b.languages.value).Some? ==>
      GetGeoLanguage(Some(b)) == FirstSupportedBase(b.languages.value).value
    ensures (b.languages.None? || FirstSupportedBase(b.languages.value).None?) ==> GetGeoLanguage(Some(b)) == "en"
  {
  }

  /** A `geo-lang` pair at the very start of the cookie string is read up to its ';'. */
  lemma CookieAtStart(value: string)
    ensures GeoCookie(CookieName + value) == Some(UpToSemicolon(value))
  {
    assert (CookieName + value)[..|CookieName|] == CookieName;
    assert (CookieName + value)[|CookieName|..] == value;
  }

  lemma {:induction false} CookieScanSkipsPair(pair: string, rest: string)
    requires forall i :: 0 <= i < |pair| ==> pair[i] != ';'
    ensures CookieScan(pair + "; " + rest, false) == GeoCookie(rest)
    decreases |pair|
  {
    var s := pair + "; " + rest;
    if pair == [] {
      assert s == "; " + rest && HasPrefix(s, "; ") && s[2..] == rest;
    } else {
      assert s[0] == pair[0] && !HasPrefix(s, "; ");
      assert s[1..] == pair[1..] + "; " + rest;
      CookieScanSkipsPair(pair[1..], rest);
    }
  }

  /** Any other cookie pair in front of "; " is skipped: the search goes on after it. */
  lemma CookieSkipsOtherPair(pair: string, rest: string)
    requires pair != [] && forall i :: 0 <= i < |pair| ==> pair[i] != ';'
    requires !HasPrefix(pair + "; " + rest, CookieName)
    ensures GeoCookie(pair + "; " + rest) == GeoCookie(rest)
  {
    var s := pair + "; " + rest;
    assert s[0] == pair[0] && !HasPrefix(s, "; ");
    assert s[1..] == pair[1..] + "; " + rest;
    CookieScanSkipsPair(pair[1..], rest);
  }
}
