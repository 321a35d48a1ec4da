/**
 * Language choice on the server (lib/geo-language.ts): by the visitor's
 * country code, and by the `Accept-Language` request header (section 12.5.4
 * of RFC 9110, with the quality values of section 12.4.2 read by a
 * simplified parser).
 */
module GeoLanguage {
  import opened Wrappers
  import opened Text

  const CountryToLanguage: map<string, string> := map[
    "UA" := "uk",
    "RU" := "ru", "BY" := "ru", "KZ" := "ru", "KG" := "ru", "TJ" := "ru", "UZ" := "ru",
    "TM" := "ru", "MD" := "ru", "AM" := "ru", "AZ" := "ru", "GE" := "ru",
    "IT" := "it",
    "ES" := "es", "MX" := "es", "AR" := "es", "CO" := "es", "CL" := "es", "PE" := "es",
    "FR" := "fr", "BE" := "fr", "CH" := "fr"
  ]

  const SupportedLanguages: set<string> := {"uk", "en", "ru", "es", "it", "fr"}

  /** The language for a country code; a missing, empty or unmapped code gives "en". */
  function LanguageByCountry(countryCode: Option<string>): (r: string)
    ensures r in {"uk", "ru", "it", "es", "fr", "en"}
    ensures countryCode.None? || countryCode.value == "" ==> r == "en"
    ensures countryCode.Some? && Upper(countryCode.value) !in CountryToLanguage ==> r == "en"
    ensures countryCode.Some? && Upper(countryCode.value) in CountryToLanguage ==>
      r == CountryToLanguage[Upper(countryCode.value)]
  {
    if countryCode.None? || countryCode.value == "" then "en"
    else
      var code := Upper(countryCode.value);
      if code in CountryToLanguage then CountryToLanguage[code] else "en"
  }

  /** A Ukrainian visitor, whatever the case of the code, gets Ukrainian. */
  lemma UkraineIsUkrainian()
    ensures LanguageByCountry(Some("ua")) == "uk" && LanguageByCountry(Some("UA")) == "uk"
  {
    assert Upper("ua") == "UA" by {
      assert UpperChar('u') == 'U' && UpperChar('a') == 'A';
    }
    assert Upper("UA") == "UA" by {
      assert UpperChar('U') == 'U' && UpperChar('A') == 'A';
    }
  }

  /** Country codes are matched without regard to case. */
  lemma LanguageByCountryIgnoresCase(code: string)
    ensures LanguageByCountry(Some(Lower(code))) == LanguageByCountry(Some(code))
    ensures LanguageByCountry(Some(Upper(code))) == LanguageByCountry(Some(code))
  {
    LowerOfUpper(code);
    LowerOfUpper(Upper(code));
    assert Upper(Upper(code)) == Upper(code) by {
      forall i | 0 <= i < |code| { CaseMappingAbsorbs(code[i]); }
    }
  }

  /** One entry of the header: a lower-cased language tag and its quality. */
  datatype LangPref = LangPref(lang: string, q: real)

  predicate IsComma(c: char) { c == ',' }
  predicate IsHyphen(c: char) { c == '-' }

  /**
   * One comma-separated part: `part.trim().split(';q=')` gives the tag (trimmed
   * and lower-cased) and the text of the quality; an absent or empty quality
   * reads as 1. `parseQ` stands for `parseFloat`.
   */
  function ParsePart(part: string, parseQ: string -> real): (p: LangPref)
    ensures IndexOf(Trim(part), ";q=").None? ==> p == LangPref(Lower(Trim(Trim(part))), 1.0)
  {
    var t := Trim(part);
    match IndexOf(t, ";q=")
    case None => LangPref(Lower(Trim(t)), 1.0)
    case Some(i) =>
      var rest := t[i + 3..];
      var q := match IndexOf(rest, ";q=") case None => rest case Some(j) => rest[..j];
      LangPref(Lower(Trim(t[..i])), if q != "" then parseQ(q) else 1.0)
  }

  /** The parts of the header, in header order. */
  function Preferences(header: string, parseQ: string -> real): (prefs: seq<LangPref>)
    ensures |prefs| == |SplitBy(header, IsComma)|
    ensures forall i :: 0 <= i < |prefs| ==> prefs[i] == ParsePart(SplitBy(header, IsComma)[i], parseQ)
  {
    var parts := SplitBy(header, IsComma);
    seq(|parts|, i requires 0 <= i < |parts| => ParsePart(parts[i], parseQ))
  }

  predicate SortedByQuality(s: seq<LangPref>) {
    forall i, j :: 0 <= i < j < |s| ==> s[i].q >= s[j].q
  }

  /** Puts `x` before the first element whose quality does not exceed its own. */
  function Insert(x: LangPref, s: seq<LangPref>): (r: seq<LangPref>)
    requires SortedByQuality(s)
    ensures SortedByQuality(r)
    ensures multiset(r) == multiset(s) + multiset{x}
    ensures r != [] && (r[0] == x || (s != [] && r[0] == s[0]))
  {
    if s == [] || x.q >= s[0].q then
      ConsSorted(x, s);
      [x] + s
    else
      assert s == [s[0]] + s[1..];
      var t := Insert(x, s[1..]);
      assert t[0] == x || t[0] == s[1];
      ConsSorted(s[0], t);
      [s[0]] + t
  }

  /** An element at least as good as the head of a sorted list keeps it sorted when put in front. */
  lemma ConsSorted(h: LangPref, t: seq<LangPref>)
    requires SortedByQuality(t) && (t == [] || h.q >= t[0].q)
    ensures SortedByQuality([h] + t)
  {
    var r := [h] + t;
    forall i, j | 0 <= i < j < |r| ensures r[i].q >= r[j].q {
      if i == 0 && j > 1 {
        assert t[0].q >= t[j - 1].q;
      }
    }
  }

  /**
   * `sort((a, b) => b.q - a.q)`: descending quality, and stable, as
   * `Array.prototype.sort` is: equal qualities keep header order.
   */
  function SortByQuality(s: seq<LangPref>): (r: seq<LangPref>)
    ensures SortedByQuality(r)
    ensures multiset(r) == multiset(s)
  {
    if s == [] then []
    else
      assert s == [s[0]] + s[1..];
      Insert(s[0], SortByQuality(s[1..]))
  }

  /** The supported language a tag names: the tag itself, else its part before the first '-'. */
  function Supported(lang: string): (r: Option<string>)
    ensures r.Some? ==> r.value in SupportedLanguages
    ensures lang in SupportedLanguages ==> r == Some(lang)
    ensures r.Some? ==> r.value == lang || r.value == SplitBy(lang, IsHyphen)[0]
    ensures r.None? <==> lang !in SupportedLanguages && SplitBy(lang, IsHyphen)[0] !in SupportedLanguages
  {
    if lang in SupportedLanguages then Some(lang)
    else
      var base := SplitBy(lang, IsHyphen)[0];
      if base in SupportedLanguages then Some(base) else None
  }

  predicate IsSupported(p: LangPref) { Supported(p.lang).Some? }

  /** The loop over the sorted tags: the first one with a supported reading. */
  function FirstSupported(s: seq<LangPref>): (r: Option<LangPref>)
    ensures r.Some? ==> r.value in s && IsSupported(r.value)
    ensures r.Some? ==> exists i :: 0 <= i < |s| && s[i] == r.value && forall j :: 0 <= j < i ==> !IsSupported(s[j])
    ensures r.None? ==> forall i :: 0 <= i < |s| ==> !IsSupported(s[i])
  {
    if s == [] then None
    else if IsSupported(s[0]) then Some(s[0])
    else
      var r := FirstSupported(s[1..]);
      if r.Some? then
        var i :| 0 <= i < |s[1..]| && s[1..][i] == r.value && forall j :: 0 <= j < i ==> !IsSupported(s[1..][j]);
        assert s[i + 1] == r.value && forall j :: 0 <= j < i + 1 ==> !IsSupported(s[j]);
        r
      else r
  }

  /** The language for an `Accept-Language` header, "en" when no tag is supported. */
  function LanguageByAcceptHeader(header: string, parseQ: string -> real): (r: string)
    ensures r in SupportedLanguages
  {
    LanguageOf(Preferences(header, parseQ))
  }

  /** The loop's answer for parsed tags: the first supported one after sorting, else "en". */
  function LanguageOf(prefs: seq<LangPref>): (r: string)
    ensures r in SupportedLanguages
  {
    match FirstSupported(SortByQuality(prefs))
    case None => "en"
    case Some(p) => Supported(p.lang).value
  }

  /**
   * Reference reading of the header, scanning it in its own order: the
   * supported tag of highest quality, the earliest one among equals.
   */
  function Best(s: seq<LangPref>): (r: Option<LangPref>)
    ensures r.Some? ==> IsSupported(r.value)
  {
    if s == [] then None
    else
      var b := Best(s[1..]);
      if IsSupported(s[0]) && (b.None? || s[0].q >= b.value.q) then Some(s[0]) else b
  }

  /** `s[i]` is supported, of maximal quality among the supported tags, and strictly better than every supported tag before it. */
  predicate BestAt(s: seq<LangPref>, i: nat)
    requires i < |s|
  {
    IsSupported(s[i])
    && (forall j :: 0 <= j < |s| && IsSupported(s[j]) ==> s[j].q <= s[i].q)
    && (forall j :: 0 <= j < i && IsSupported(s[j]) ==> s[j].q < s[i].q)
  }

  /** What `Best` picks: a supported tag of maximal quality with no supported tag of equal quality before it. */
  lemma {:induction false} BestSpec(s: seq<LangPref>)
    ensures Best(s).None? <==> forall i :: 0 <= i < |s| ==> !IsSupported(s[i])
    ensures Best(s).Some? ==> exists i :: 0 <= i < |s| && s[i] == Best(s).value && BestAt(s, i)
    decreases |s|
  {
    if s != [] {
      BestSpec(s[1..]);
      var b := Best(s[1..]);
      if IsSupported(s[0]) && (b.None? || s[0].q >= b.value.q) {
        forall j | 0 <= j < |s| - 1 && IsSupported(s[1..][j]) ensures s[1..][j].q <= s[0].q {
          var i :| 0 <= i < |s| - 1 && s[1..][i] == b.value && BestAt(s[1..], i);
        }
        BestAtHead(s);
      } else if b.Some? {
        var i :| 0 <= i < |s| - 1 && s[1..][i] == b.value && BestAt(s[1..], i);
        BestAtShift(s, i);
      } else {
        forall i | 0 <= i < |s| ensures !IsSupported(s[i]) {
          if i > 0 { assert s[1..][i - 1] == s[i]; }
        }
      }
    }
  }

  lemma BestAtHead(s: seq<LangPref>)
    requires s != [] && IsSupported(s[0])
    requires forall j :: 0 <= j < |s| - 1 && IsSupported(s[1..][j]) ==> s[1..][j].q <= s[0].q
    ensures BestAt(s, 0)
  {
    forall j | 0 <= j < |s| && IsSupported(s[j]) ensures s[j].q <= s[0].q {
      if j > 0 { assert s[1..][j - 1] == s[j]; }
    }
  }

  lemma BestAtShift(s: seq<LangPref>, i: nat)
    requires i < |s| - 1 && BestAt(s[1..], i)
    requires IsSupported(s[0]) ==> s[0].q < s[1..][i].q
    ensures BestAt(s, i + 1)
  {
    assert s[1..][i] == s[i + 1];
    forall j | 0 <= j < |s| && IsSupported(s[j]) ensures s[j].q <= s[i + 1].q {
      if j > 0 { assert s[1..][j - 1] == s[j]; }
    }
    forall j | 0 <= j < i + 1 && IsSupported(s[j]) ensures s[j].q < s[i + 1].q {
      if j > 0 { assert s[1..][j - 1] == s[j]; }
    }
  }

  /** In a sorted list no supported tag is better than the head. */
  lemma HeadBoundsFirstSupported(t: seq<LangPref>)
    requires SortedByQuality(t) && FirstSupported(t).Some?
    ensures FirstSupported(t).value.q <= t[0].q
  {
    var p := FirstSupported(t).value;
    var k :| 0 <= k < |t| && t[k] == p;
    assert p.q <= t[0].q;
  }

  lemma {:induction false} FirstSupportedOfInsert(x: LangPref, t: seq<LangPref>)
    requires SortedByQuality(t)
    ensures FirstSupported(Insert(x, t)) ==
      if IsSupported(x) && (FirstSupported(t).None? || x.q >= FirstSupported(t).value.q)
      then Some(x) else FirstSupported(t)
    decreases |t|
  {
    if t == [] || x.q >= t[0].q {
      assert Insert(x, t) == [x] + t;
      assert ([x] + t)[1..] == t;
      if FirstSupported(t).Some? {
        HeadBoundsFirstSupported(t);
      }
    } else {
      assert Insert(x, t) == [t[0]] + Insert(x, t[1..]);
      assert ([t[0]] + Insert(x, t[1..]))[1..] == Insert(x, t[1..]);
      if !IsSupported(t[0]) {
        FirstSupportedOfInsert(x, t[1..]);
      }
    }
  }

  /** Scanning the stably sorted tags finds exactly the reference reading. */
  lemma {:induction false} SortedScanFindsBest(s: seq<LangPref>)
    ensures FirstSupported(SortByQuality(s)) == Best(s)
    decreases |s|
  {
    if s != [] {
      SortedScanFindsBest(s[1..]);
      FirstSupportedOfInsert(s[0], SortByQuality(s[1..]));
    }
  }

  /**
   * The header's language is that of its supported tag of highest quality,
   * the earliest in the header among equal qualities; "en" when there is none.
   */
  lemma AcceptHeaderPicksBest(prefs: seq<LangPref>)
    ensures (forall i :: 0 <= i < |prefs| ==> !IsSupported(prefs[i])) ==> LanguageOf(prefs) == "en"
    ensures Best(prefs).Some? ==> LanguageOf(prefs) == Supported(Best(prefs).value.lang).value
  {
    SortedScanFindsBest(prefs);
    BestSpec(prefs);
  }
}
