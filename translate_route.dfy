/**
 * The `POST` handler of app/api/translate/route.ts and its two providers.
 * The HTTP calls to Google Translate and MyMemory are parameters: each gives
 * the decoded JSON the route reads, or `None` when the call throws (a
 * network error, a timeout, a status that is not ok, a body that is not
 * JSON). The caller's profile is an input; the profile write is returned as
 * the new `characters_used`.
 */
module TranslateRoute {
  import opened Wrappers
  import opened Js
  import opened Text

  /** A segment of Google's `data[0]`: `None` for a falsy segment, else its first element `seg[0]`. */
  type Segment = Option<Value>

  /** The segments `filter` keeps: present, with a truthy first element. */
  predicate Kept(seg: Segment) {
    seg.Some? && Truthy(seg.value)
  }

  /** `data[0].filter(seg => seg && seg[0]).map(seg => seg[0]).join('')`. */
  function JoinSegments(segs: seq<Segment>): (r: string)
    decreases |segs|
  {
    if segs == [] then ""
    else (if Kept(segs[0]) then ToStr(segs[0].value) else "") + JoinSegments(segs[1..])
  }

  /** Joining is taken piece by piece: the join of two runs of segments is the join of each, in order. */
  lemma {:induction false} JoinSegmentsAppend(a: seq<Segment>, b: seq<Segment>)
    ensures JoinSegments(a + b) == JoinSegments(a) + JoinSegments(b)
    decreases |a|
  {
    if a == [] {
      assert a + b == b;
    } else {
      assert (a + b)[1..] == a[1..] + b;
      JoinSegmentsAppend(a[1..], b);
    }
  }

  /** Segments the filter drops add nothing, wherever they stand. */
  lemma DroppedSegmentAddsNothing(a: seq<Segment>, seg: Segment, b: seq<Segment>)
    requires !Kept(seg)
    ensures JoinSegments(a + [seg] + b) == JoinSegments(a + b)
  {
    JoinSegmentsAppend(a + [seg], b);
    JoinSegmentsAppend(a, [seg]);
    JoinSegmentsAppend(a, b);
    assert [seg][1..] == [];
  }

  /** Segments that are all non-empty strings join to their concatenation. */
  lemma {:induction false} JoinOfStrings(texts: seq<string>)
    requires forall i :: 0 <= i < |texts| ==> texts[i] != ""
    ensures JoinSegments(seq(|texts|, i requires 0 <= i < |texts| => Some(Str(texts[i])))) == Concat(texts)
    decreases |texts|
  {
    var segs := seq(|texts|, i requires 0 <= i < |texts| => Some(Str(texts[i])));
    if texts != [] {
      JoinOfStrings(texts[1..]);
      assert segs[1..] == seq(|texts[1..]|, i requires 0 <= i < |texts[1..]| => Some(Str(texts[1..][i])));
    }
  }

  /** What Google's JSON holds for the route: `data[0]`, absent or a list of segments, and `data[2]`. */
  datatype GoogleData = GoogleData(segments: Option<seq<Segment>>, detected: Value)

  datatype Translation = Translation(translatedText: Value, detectedLang: Value)

  /**
   * `translateWithGoogle(text, sourceLang, targetLang)`: `google(text, sl, tl)`
   * is the decoded response, `None` when the call throws.
   */
  function TranslateWithGoogle(text: string, sourceLang: string, targetLang: string,
                               google: (string, string, string) -> Option<GoogleData>): (r: Option<Translation>)
    ensures r.None? <==> google(text, sourceLang, targetLang).None?
    ensures r.Some? ==>
      var data := google(text, sourceLang, targetLang).value;
      r.value.translatedText == Str(if data.segments.Some? then JoinSegments(data.segments.value) else "")
    ensures r.Some? && Truthy(google(text, sourceLang, targetLang).value.detected) ==>
      r.value.detectedLang == google(text, sourceLang, targetLang).value.detected
    ensures r.Some? && !Truthy(google(text, sourceLang, targetLang).value.detected) ==>
      r.value.detectedLang == Str(sourceLang)
  {
    match google(text, sourceLang, targetLang)
    case None => None
    case Some(data) =>
      var joined := if data.segments.Some? then JoinSegments(data.segments.value) else "";
      Some(Translation(Str(joined), Or(data.detected, Str(sourceLang))))
  }

  /**
   * `translateWithMyMemory(text, sourceLang, targetLang)`: `myMemory(text, sl, tl)`
   * is `data.responseData?.translatedText`, `None` when the call throws.
   */
  function TranslateWithMyMemory(text: string, sourceLang: string, targetLang: string,
                                 myMemory: (string, string, string) -> Option<Value>): (r: Option<Translation>)
    ensures r.None? <==> myMemory(text, sourceLang, targetLang).None?
    ensures r.Some? ==> r.value.detectedLang == Str(sourceLang)
    ensures r.Some? && Truthy(myMemory(text, sourceLang, targetLang).value) ==>
      r.value.translatedText == myMemory(text, sourceLang, targetLang).value
    ensures r.Some? && !Truthy(myMemory(text, sourceLang, targetLang).value) ==> r.value.translatedText == Str("")
  {
    match myMemory(text, sourceLang, targetLang)
    case None => None
    case Some(t) => Some(Translation(Or(t, Str("")), Str(sourceLang)))
  }

  /** `text.length`: UTF-16 code units, two for a character outside the Basic Multilingual Plane. */
  function Utf16Length(s: string): (n: nat)
    ensures |s| <= n <= 2 * |s|
    ensures (forall i :: 0 <= i < |s| ==> s[i] as int <= 0xFFFF) ==> n == |s|
    decreases |s|
  {
    if s == [] then 0 else (if s[0] as int > 0xFFFF then 2 else 1) + Utf16Length(s[1..])
  }

  datatype Request = Request(text: Value, sourceLang: Value, targetLang: Value)

  /** The fields of the caller's profile the route reads. */
  datatype Profile = Profile(tier: string, charactersUsed: int, charactersLimit: int)

  /** Why a request is refused; each answers with its own status and `error` text. */
  datatype Rejection = MissingFields | Unauthorized | LimitExceeded | Failed {
    function Status(): nat {
      match this
      case MissingFields => 400
      case Unauthorized => 401
      case LimitExceeded => 403
      case Failed => 500
    }

    function Message(): string {
      match this
      case MissingFields => "Missing fields"
      case Unauthorized => "Unauthorized"
      case LimitExceeded => "Character limit exceeded. Upgrade to Pro!"
      case Failed => "Translation failed. Please try again."
    }
  }

  datatype Response = Error(rejection: Rejection) | Translated(translatedText: Value, detectedLang: Value)

  /** A provider call the route makes, with the language pair it sends. */
  datatype Call = Google(sl: string, tl: string) | MyMemory(sl: string, tl: string)

  /** `text` is a non-blank string and both languages are given. */
  predicate FieldsPresent(req: Request) {
    req.text.Str? && !AllSpace(req.text.s) && Truthy(req.sourceLang) && Truthy(req.targetLang)
  }

  /** The free tier's quota check: the text would take the count past the limit. */
  predicate OverQuota(p: Profile, charCount: nat) {
    p.tier == "free" && p.charactersUsed + charCount > p.charactersLimit
  }

  /** The request reaches the providers. */
  predicate Passes(req: Request, authenticated: bool, profile: Profile) {
    FieldsPresent(req) && authenticated && !OverQuota(profile, Utf16Length(req.text.s))
  }

  /** Google detected the target language, which is not the source: the text is translated the other way. */
  predicate Reverses(req: Request, g: Translation) {
    StrictEquals(g.detectedLang, req.targetLang) && !StrictEquals(g.detectedLang, req.sourceLang)
  }

  /** A target language given as an array or object never triggers the reverse call: `===` compares identity. */
  lemma CompositeTargetNeverReverses(req: Request, g: Translation)
    requires req.targetLang.Composite?
    ensures !Reverses(req, g)
  {
  }

  /** What the provider cascade ends with: the text and language answered, and the calls made in order. */
  datatype Answer = Answer(translatedText: Value, detectedLang: Value, calls: seq<Call>)

  /**
   * The provider cascade: Google first with `sl = 'auto'`; Google again
   * toward the source when it detected the target language; MyMemory only
   * when a Google call threw, keeping what was set before when it throws too.
   */
  function Providers(text: string, sourceLang: Value, targetLang: Value,
                     google: (string, string, string) -> Option<GoogleData>,
                     myMemory: (string, string, string) -> Option<Value>): Answer
  {
    var sl, tl := ToStr(sourceLang), ToStr(targetLang);
    var mm := TranslateWithMyMemory(text, sl, tl, myMemory);
    match TranslateWithGoogle(text, "auto", tl, google)
    case None =>
      Answer(if mm.Some? then mm.value.translatedText else Str(""), sourceLang, [Google("auto", tl), MyMemory(sl, tl)])
    case Some(g) =>
      if !Reverses(Request(Str(text), sourceLang, targetLang), g) then
        Answer(g.translatedText, g.detectedLang, [Google("auto", tl)])
      else
        match TranslateWithGoogle(text, "auto", sl, google)
        case Some(rev) => Answer(rev.translatedText, g.detectedLang, [Google("auto", tl), Google("auto", sl)])
        case None =>
          Answer(if mm.Some? then mm.value.translatedText else g.translatedText, g.detectedLang,
                 [Google("auto", tl), Google("auto", sl), MyMemory(sl, tl)])
  }

  /** Whether a Google call of the cascade throws: the first one, or the reverse one when it is made. */
  predicate GoogleFails(text: string, sourceLang: Value, targetLang: Value,
                        google: (string, string, string) -> Option<GoogleData>)
  {
    var g := TranslateWithGoogle(text, "auto", ToStr(targetLang), google);
    g.None? || (Reverses(Request(Str(text), sourceLang, targetLang), g.value)
                && TranslateWithGoogle(text, "auto", ToStr(sourceLang), google).None?)
  }

  /**
   * The cascade's promises: Google is always asked first, toward the target;
   * MyMemory is asked exactly when a Google call threw, and last; the
   * language answered is Google's first detection, or the request's source
   * when that call threw; neither the reverse call nor MyMemory changes it.
   * The text answered is Google's when it did not detect the target
   * language; on the reverse rule the second call is Google toward the
   * source, whose text is answered when it does not throw; MyMemory's text
   * is answered whenever it is asked and does not throw.
   */
  lemma ProvidersSpec(text: string, sourceLang: Value, targetLang: Value,
                      google: (string, string, string) -> Option<GoogleData>,
                      myMemory: (string, string, string) -> Option<Value>)
    ensures var a := Providers(text, sourceLang, targetLang, google, myMemory);
      var sl, tl := ToStr(sourceLang), ToStr(targetLang);
      var g := TranslateWithGoogle(text, "auto", tl, google);
      1 <= |a.calls| <= 3 && a.calls[0] == Google("auto", tl)
      && (MyMemory(sl, tl) in a.calls <==> GoogleFails(text, sourceLang, targetLang, google))
      && (MyMemory(sl, tl) in a.calls ==> a.calls[|a.calls| - 1] == MyMemory(sl, tl))
      && a.detectedLang == (if g.Some? then g.value.detectedLang else sourceLang)
    ensures var a := Providers(text, sourceLang, targetLang, google, myMemory);
      var g := TranslateWithGoogle(text, "auto", ToStr(targetLang), google);
      g.Some? && !Reverses(Request(Str(text), sourceLang, targetLang), g.value) ==>
        a.translatedText == g.value.translatedText && a.calls == [Google("auto", ToStr(targetLang))]
    ensures var a := Providers(text, sourceLang, targetLang, google, myMemory);
      var g := TranslateWithGoogle(text, "auto", ToStr(targetLang), google);
      var rev := TranslateWithGoogle(text, "auto", ToStr(sourceLang), google);
      g.Some? && Reverses(Request(Str(text), sourceLang, targetLang), g.value) ==>
        |a.calls| >= 2 && a.calls[1] == Google("auto", ToStr(sourceLang))
        && (rev.Some? ==> a.translatedText == rev.value.translatedText && |a.calls| == 2)
    ensures var a := Providers(text, sourceLang, targetLang, google, myMemory);
      var mm := TranslateWithMyMemory(text, ToStr(sourceLang), ToStr(targetLang), myMemory);
      GoogleFails(text, sourceLang, targetLang, google) && mm.Some? ==> a.translatedText == mm.value.translatedText
  {
  }

  /**
   * When every provider call throws the route still answers, with the text
   * set before the failure: empty when the first Google call threw, else
   * Google's first translation.
   */
  lemma AllProvidersFail(text: string, sourceLang: Value, targetLang: Value,
                         google: (string, string, string) -> Option<GoogleData>,
                         myMemory: (string, string, string) -> Option<Value>)
    requires GoogleFails(text, sourceLang, targetLang, google)
    requires myMemory(text, ToStr(sourceLang), ToStr(targetLang)).None?
    ensures var g := TranslateWithGoogle(text, "auto", ToStr(targetLang), google);
      Providers(text, sourceLang, targetLang, google, myMemory).translatedText
        == (if g.None? then Str("") else g.value.translatedText)
  {
  }

  /** The provider cascade, with the locals `translatedText` and `detectedLang` the source updates. */
  method Translate(text: string, sourceLang: Value, targetLang: Value,
                   google: (string, string, string) -> Option<GoogleData>,
                   myMemory: (string, string, string) -> Option<Value>)
    returns (translatedText: Value, detectedLang: Value, calls: seq<Call>)
    ensures Answer(translatedText, detectedLang, calls) == Providers(text, sourceLang, targetLang, google, myMemory)
  {
    var sl, tl := ToStr(sourceLang), ToStr(targetLang);
    translatedText := Str("");
    detectedLang := sourceLang;
    calls := [Google("auto", tl)];
    var googleFailed := false;
    var result := TranslateWithGoogle(text, "auto", tl, google);
    if result.None? {
      googleFailed := true;
    } else {
      translatedText := result.value.translatedText;
      detectedLang := result.value.detectedLang;
      if StrictEquals(detectedLang, targetLang) && !StrictEquals(detectedLang, sourceLang) {
        calls := calls + [Google("auto", sl)];
        var reverse := TranslateWithGoogle(text, "auto", sl, google);
        if reverse.None? {
          googleFailed := true;
        } else {
          translatedText := reverse.value.translatedText;
        }
      }
    }
    if googleFailed {
      calls := calls + [MyMemory(sl, tl)];
      var mm := TranslateWithMyMemory(text, sl, tl, myMemory);
      if mm.Some? {
        translatedText := mm.value.translatedText;
      }
    }
  }

  /**
   * The refusals before any provider is called, in the order the handler
   * checks them; `None` lets the request through. A `text` that is neither a
   * string nor missing makes `trim` throw, which the outer `catch` turns
   * into a 500. `!text.trim()` is written `AllSpace(text)`: the trimmed text
   * is empty exactly when the text is all whitespace (`BlankTextIsRefused`).
   */
  function Refusal(req: Request, authenticated: bool, profile: Profile): Option<Response> {
    match req.text
    case Undefined => Some(Error(MissingFields))
    case Null => Some(Error(MissingFields))
    case Str(text) =>
      if AllSpace(text) || !Truthy(req.sourceLang) || !Truthy(req.targetLang) then Some(Error(MissingFields))
      else if !authenticated then Some(Error(Unauthorized))
      else if OverQuota(profile, Utf16Length(text)) then Some(Error(LimitExceeded))
      else None
    case _ => Some(Error(Failed))
  }

  /**
   * A blank text or a missing language is a 400, an anonymous caller a 401,
   * and a free-tier caller whose count would pass the limit a 403; reaching
   * the limit exactly is allowed, and a caller on another tier is never
   * refused for quota.
   */
  lemma RefusalSpec(req: Request, authenticated: bool, profile: Profile)
    ensures Refusal(req, authenticated, profile).None? <==> Passes(req, authenticated, profile)
    ensures !req.text.Str? && !req.text.Undefined? && !req.text.Null? ==>
      Refusal(req, authenticated, profile) == Some(Error(Failed))
    ensures (req.text.Undefined? || req.text.Null? || (req.text.Str? && AllSpace(req.text.s))) ==>
      Refusal(req, authenticated, profile) == Some(Error(MissingFields))
    ensures req.text.Str? && !AllSpace(req.text.s) && (!Truthy(req.sourceLang) || !Truthy(req.targetLang)) ==>
      Refusal(req, authenticated, profile) == Some(Error(MissingFields))
    ensures FieldsPresent(req) && !authenticated ==> Refusal(req, authenticated, profile) == Some(Error(Unauthorized))
    ensures FieldsPresent(req) && authenticated && OverQuota(profile, Utf16Length(req.text.s)) ==>
      Refusal(req, authenticated, profile) == Some(Error(LimitExceeded))
    ensures FieldsPresent(req) && authenticated && profile.tier != "free" ==> Refusal(req, authenticated, profile).None?
    ensures FieldsPresent(req) && authenticated && profile.charactersUsed + Utf16Length(req.text.s) == profile.charactersLimit ==>
      Refusal(req, authenticated, profile).None?
  {
  }

  /** A text that trims to nothing is refused as a missing field, whatever else the request holds. */
  lemma BlankTextIsRefused(req: Request, authenticated: bool, profile: Profile)
    requires req.text.Str? && Trim(req.text.s) == ""
    ensures Refusal(req, authenticated, profile) == Some(Error(MissingFields))
  {
    BlankIsAllSpace(req.text.s);
  }

  lemma BlankIsAllSpace(s: string)
    requires Trim(s) == ""
    ensures AllSpace(s)
  {
    TrimEmptyIff(s);
  }

  /** What the handler answers, what it writes back as the caller's count (`None`: nothing), and the provider calls it made. */
  datatype Reply = Reply(resp: Response, charactersUsed: Option<int>, calls: seq<Call>)

  /**
   * The handler as a function: a refusal answers at once, anything else runs
   * the provider cascade and adds the text's length to the caller's count.
   */
  function Respond(req: Request, authenticated: bool, profile: Profile,
                   google: (string, string, string) -> Option<GoogleData>,
                   myMemory: (string, string, string) -> Option<Value>): Reply
  {
    match Refusal(req, authenticated, profile)
    case Some(refused) => Reply(refused, None, [])
    case None =>
      var a := Providers(req.text.s, req.sourceLang, req.targetLang, google, myMemory);
      Reply(Translated(a.translatedText, a.detectedLang), Some(profile.charactersUsed + Utf16Length(req.text.s)), a.calls)
  }

  /** A refused request is answered with its refusal: no provider is called and nothing is written. */
  lemma RefusedRequest(req: Request, authenticated: bool, profile: Profile,
                       google: (string, string, string) -> Option<GoogleData>,
                       myMemory: (string, string, string) -> Option<Value>)
    requires !Passes(req, authenticated, profile)
    ensures var r := Respond(req, authenticated, profile, google, myMemory);
      r.resp.Error? && r.charactersUsed.None? && r.calls == []
  {
    RefusalSpec(req, authenticated, profile);
  }

  /**
   * An admitted request is translated, Google being asked first, and the
   * text's UTF-16 length, at least its number of characters, is added to
   * the count; on the free tier the new count stays within the limit.
   */
  lemma AdmittedRequest(req: Request, authenticated: bool, profile: Profile,
                        google: (string, string, string) -> Option<GoogleData>,
                        myMemory: (string, string, string) -> Option<Value>)
    requires Passes(req, authenticated, profile)
    ensures var r := Respond(req, authenticated, profile, google, myMemory);
      r.resp.Translated? && r.calls != [] && r.calls[0] == Google("auto", ToStr(req.targetLang))
      && r.charactersUsed == Some(profile.charactersUsed + Utf16Length(req.text.s))
      && r.charactersUsed.value >= profile.charactersUsed + |req.text.s|
    ensures profile.tier == "free" ==>
      Respond(req, authenticated, profile, google, myMemory).charactersUsed.value <= profile.charactersLimit
  {
    RefusalSpec(req, authenticated, profile);
    GoogleAskedFirst(req.text.s, req.sourceLang, req.targetLang, google, myMemory);
  }

  lemma GoogleAskedFirst(text: string, sourceLang: Value, targetLang: Value,
                         google: (string, string, string) -> Option<GoogleData>,
                         myMemory: (string, string, string) -> Option<Value>)
    ensures var a := Providers(text, sourceLang, targetLang, google, myMemory);
      a.calls != [] && a.calls[0] == Google("auto", ToStr(targetLang))
  {
  }

  /**
   * The handler. `authenticated` is the outcome of the session lookup,
   * `profile` the caller's profile row. `charactersUsed` is the value written
   * back to the profile, `None` when nothing is written; `calls` lists the
   * provider calls in order.
   */
  method Post(req: Request, authenticated: bool, profile: Profile,
              google: (string, string, string) -> Option<GoogleData>,
              myMemory: (string, string, string) -> Option<Value>)
    returns (resp: Response, charactersUsed: Option<int>, calls: seq<Call>)
    ensures Reply(resp, charactersUsed, calls) == Respond(req, authenticated, profile, google, myMemory)
  {
    match req.text {
      case Undefined =>
        return Error(MissingFields), None, [];
      case Null =>
        return Error(MissingFields), None, [];
      case Str(text) =>
        if AllSpace(text) || !Truthy(req.sourceLang) || !Truthy(req.targetLang) {
          return Error(MissingFields), None, [];
        }
        if !authenticated {
          return Error(Unauthorized), None, [];
        }
        var charCount := Utf16Length(text);
        if profile.tier == "free" && profile.charactersUsed + charCount > profile.charactersLimit {
          return Error(LimitExceeded), None, [];
        }
        assert Refusal(req, authenticated, profile).None?;
        var translatedText, detectedLang;
        translatedText, detectedLang, calls := Translate(text, req.sourceLang, req.targetLang, google, myMemory);
        charactersUsed := Some(profile.charactersUsed + charCount);
        resp := Translated(translatedText, detectedLang);
      case _ =>
        return Error(Failed), None, [];
    }
  }
}
