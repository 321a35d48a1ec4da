/**
 * `tryAnalyze`, the model fallback chain and the `POST` handler of
 * app/api/analyze/route.ts. The language-model call, the clean-up of its
 * reply before `extractJSON`, `JSON.parse`, the shared word-cache query and
 * the clock are parameters; the memory cache is the `Cache` object, and the
 * fire-and-forget database writes are returned as a value.
 */
module AnalyzeRoute {
  import opened Wrappers
  import opened Js
  import opened Text
  import opened Tokenizer
  import opened AnalysisCache
  import opened AnalyzeWords
  import JsonExtract

  /** The three OpenRouter models of `MODELS`. */
  datatype Model = GlmAir | Llama | Trinity {
    /** The model's OpenRouter identifier. */
    function Id(): string {
      match this
      case GlmAir => "z-ai/glm-4.5-air:free"
      case Llama => "meta-llama/llama-3.3-70b-instruct:free"
      case Trinity => "arcee-ai/trinity-large-preview:free"
    }
  }

  /** The models tried, in order. */
  const Models: seq<Model> := [GlmAir, Llama, Trinity]

  /** What `JSON.parse` gives back, as far as the route reads it: `words` when it is an array. */
  datatype Reply = Reply(words: Option<seq<RawWord>>)

  /** `extractJSON` on a reply: the clean-up, then the brace scan as written, whose depth may go below zero. */
  function JsonOf(content: string, clean: string -> string): Outcome<string> {
    JsonExtract.Extract(clean(content), JsonExtract.AsWritten)
  }

  /**
   * `tryAnalyze(model, …)`. `complete(model)` is the reply's content (`''`
   * when it has none), or `None` when the call throws; `clean` is the
   * clean-up `extractJSON` does before its scan; `parse` is `JSON.parse`,
   * `None` when it throws. A failure is a thrown error.
   */
  function TryAnalyze(model: Model, complete: Model -> Option<string>, clean: string -> string,
                      parse: string -> Option<Reply>): (r: Outcome<seq<RawWord>>)
    ensures r.Success? ==> r.value != []
  {
    match complete(model)
    case None => Failure("Request to " + model.Id() + " failed")
    case Some(content) =>
      if |content| < 10 then Failure("Empty response from " + model.Id())
      else
        match JsonOf(content, clean)
        case Failure(e) => Failure(e)
        case Success(json) =>
          match parse(json)
          case None => Failure("Invalid JSON from " + model.Id())
          case Some(reply) =>
            if reply.words.None? || reply.words.value == [] then Failure("No words in response from " + model.Id())
            else Success(reply.words.value)
  }

  /**
   * A model's attempt succeeds exactly when its reply is at least ten
   * characters long, holds a balanced object that parses, and that object's
   * `words` is a non-empty array; the words are then that array.
   */
  lemma TryAnalyzeSpec(model: Model, complete: Model -> Option<string>, clean: string -> string,
                       parse: string -> Option<Reply>)
    ensures var r := TryAnalyze(model, complete, clean, parse);
      r.Success? ==>
        complete(model).Some? && |complete(model).value| >= 10
        && var json := JsonOf(complete(model).value, clean);
        json.Success? && JsonExtract.Balanced(json.value) && parse(json.value) == Some(Reply(Some(r.value)))
    ensures complete(model).Some? && |complete(model).value| >= 10 ==>
      var json := JsonOf(complete(model).value, clean);
      (json.Success? && parse(json.value).Some? && parse(json.value).value.words.Some?
       && parse(json.value).value.words.value != []) ==> TryAnalyze(model, complete, clean, parse).Success?
    ensures complete(model).None? ==> TryAnalyze(model, complete, clean, parse).Failure?
    ensures complete(model).Some? && |complete(model).value| < 10 ==>
      TryAnalyze(model, complete, clean, parse) == Failure("Empty response from " + model.Id())
  {
    if complete(model).Some? {
      JsonExtract.ExtractSpec(clean(complete(model).value), JsonExtract.AsWritten);
    }
  }

  /** What each model of the chain would give, in order. */
  function Attempts(complete: Model -> Option<string>, clean: string -> string, parse: string -> Option<Reply>)
    : (r: seq<Outcome<seq<RawWord>>>)
    ensures |r| == |Models|
    ensures ChainAttempts(r)
    ensures forall i :: 0 <= i < |Models| ==> r[i] == TryAnalyze(Models[i], complete, clean, parse)
  {
    seq(|Models|, i requires 0 <= i < |Models| => TryAnalyze(Models[i], complete, clean, parse))
  }

  /** One outcome per model, and a success always carries words. */
  predicate ChainAttempts(attempts: seq<Outcome<seq<RawWord>>>) {
    |attempts| == |Models| && forall j :: 0 <= j < |attempts| && attempts[j].Success? ==> attempts[j].value != []
  }

  /** The first successful attempt, with its position, or `None` when all fail. */
  function FirstSuccess(attempts: seq<Outcome<seq<RawWord>>>): (r: Option<(nat, seq<RawWord>)>)
    ensures r.Some? ==>
      r.value.0 < |attempts| && attempts[r.value.0] == Success(r.value.1)
      && forall j :: 0 <= j < r.value.0 ==> attempts[j].Failure?
    ensures r.None? <==> forall j :: 0 <= j < |attempts| ==> attempts[j].Failure?
    decreases |attempts|
  {
    if attempts == [] then None
    else match attempts[0]
      case Success(ws) => Some((0, ws))
      case Failure(_) =>
        var rest := FirstSuccess(attempts[1..]);
        assert forall j :: 1 <= j < |attempts| ==> attempts[j] == attempts[1..][j - 1];
        match rest
        case None => None
        case Some(p) => Some((p.0 + 1, p.1))
  }

  /** A success with every earlier attempt failing is the first success. */
  lemma FirstSuccessAt(attempts: seq<Outcome<seq<RawWord>>>, i: nat)
    requires i < |attempts| && attempts[i].Success?
    requires forall j :: 0 <= j < i ==> attempts[j].Failure?
    ensures FirstSuccess(attempts) == Some((i, attempts[i].value))
  {
    var r := FirstSuccess(attempts);
    assert r.Some?;
    assert !(r.value.0 < i);
    assert !(i < r.value.0);
  }

  /**
   * The `for (const model of MODELS)` loop: each model is tried in turn until
   * one succeeds. `tried` lists the models called, in order.
   */
  method RunModelChain(complete: Model -> Option<string>, clean: string -> string, parse: string -> Option<Reply>)
    returns (rawWords: Option<seq<RawWord>>, tried: seq<Model>)
    ensures rawWords.Some? ==> rawWords.value != []
    ensures match FirstSuccess(Attempts(complete, clean, parse))
      case Some(p) => rawWords == Some(p.1) && tried == Models[..p.0 + 1]
      case None => rawWords.None? && tried == Models
  {
    ghost var attempts := Attempts(complete, clean, parse);
    rawWords := None;
    tried := [];
    for i := 0 to |Models|
      invariant tried == Models[..i]
      invariant forall j :: 0 <= j < i ==> attempts[j].Failure?
    {
      assert Models[..i + 1] == Models[..i] + [Models[i]];
      tried := tried + [Models[i]];
      var r := TryAnalyze(Models[i], complete, clean, parse);
      assert r == attempts[i];
      if r.Success? {
        FirstSuccessAt(attempts, i);
        rawWords := Some(r.value);
        return;
      }
    }
  }

  /** How the handler reads `sourceText` or `translatedText` through `?.trim()`. */
  datatype Field = Blank | Text(s: string) | NotAString

  /**
   * `!v?.trim()` is written `AllSpace(v.s)` for a string: the trimmed text is
   * empty exactly when the text is all whitespace (`ReadTextTrims`).
   */
  function ReadText(v: Value): (f: Field)
    ensures f.Text? ==> v.Str? && f.s == v.s
    ensures f.NotAString? <==> !(v.Undefined? || v.Null? || v.Str?)
  {
    match v
    case Undefined => Blank
    case Null => Blank
    case Str(s) => if AllSpace(s) then Blank else Text(s)
    case _ => NotAString
  }

  /** A missing text, or one that trims to nothing, is blank; a string that trims to something is read as is. */
  lemma ReadTextTrims(v: Value)
    ensures ReadText(v).Text? <==> v.Str? && Trim(v.s) != ""
    ensures ReadText(v).Blank? <==> v.Undefined? || v.Null? || (v.Str? && Trim(v.s) == "")
  {
    if v.Str? {
      TrimEmptyIff(v.s);
    }
  }

  /** The request body. The source language only shapes the prompt, which is inside `complete`. */
  datatype Request = Request(sourceText: Value, translatedText: Value, targetLang: string, uiLang: string)

  /** Why a request is refused; each answers with its own status and `error` text. */
  datatype Rejection = MissingFields | Unauthorized {
    function Status(): nat {
      match this
      case MissingFields => 400
      case Unauthorized => 401
    }

    function Message(): string {
      match this
      case MissingFields => "Missing fields"
      case Unauthorized => "Unauthorized"
    }
  }

  datatype Response = Error(rejection: Rejection) | Words(words: seq<Word>)

  /** The fire-and-forget write to the shared word cache that a request starts. */
  datatype DbWrite = NoWrite | Bump(wordLowers: seq<string>, targetLang: string, uiLang: string) | Store(rows: seq<StoredWord>)

  /** Both texts are present and the caller is signed in: the request gets past the guards. */
  predicate Admitted(req: Request, authenticated: bool) {
    ReadText(req.sourceText).Text? && ReadText(req.translatedText).Text? && authenticated
  }

  function TextOf(v: Value): string {
    if v.Str? then v.s else ""
  }

  function KeyOf(req: Request): string {
    CacheKey(TextOf(req.translatedText), req.targetLang, req.uiLang)
  }

  function TextWords(req: Request): seq<Token> {
    SplitIntoWords(TextOf(req.translatedText))
  }

  /** The shared word cache answers for every distinct word of the translation. */
  predicate SharedHit(req: Request, lookup: seq<string> -> Option<map<string, CachedWord>>) {
    var lowers := DistinctLowers(TextWords(req));
    lowers != [] && lookup(lowers).Some? && AllCached(lowers, lookup(lowers).value)
  }

  /** The word list rebuilt on a shared-cache hit. */
  function SharedWords(req: Request, lookup: seq<string> -> Option<map<string, CachedWord>>): (r: seq<RawWord>)
    requires SharedHit(req, lookup)
    ensures r != []
  {
    var lowers := DistinctLowers(TextWords(req));
    AllCachedCoversEveryToken(TextWords(req), lookup(lowers).value);
    BuildFromSharedCache(TextWords(req), SplitIntoWords(TextOf(req.sourceText)), lookup(lowers).value)
  }

  /**
   * `storeCachedWords`: nothing is sent when building the rows throws on a
   * `null` element (the function catches its own error) or when no row has a
   * `word_lower`.
   */
  function StoreWrite(raw: seq<RawWord>, targetLang: string, uiLang: string): DbWrite {
    var rows := StoredRows(raw, targetLang, uiLang);
    if !Normalizable(raw) || rows == [] then NoWrite else Store(rows)
  }

  /**
   * The answer for a word list: the list normalised, or, when `normalizeWord`
   * throws on a `null` element, the outer `catch`'s empty list.
   */
  function Answer(raw: seq<RawWord>): (resp: Response)
    ensures Normalizable(raw) ==> resp == Words(NormalizeAll(raw).value) && |resp.words| == |raw|
    ensures !Normalizable(raw) ==> resp == Words([])
  {
    match NormalizeAll(raw)
    case None => Words([])
    case Some(words) => Words(words)
  }

  /** What a request ends with: the answer, the database write, the models called and the memory cache afterwards. */
  datatype Handled = Handled(resp: Response, write: DbWrite, tried: seq<Model>, cache: CacheState)

  /**
   * The handler as a function of the memory cache before the request. `now`
   * is the clock when the cache is read and `doneAt` when it is written;
   * `attempts` is what each model would give. A text that is neither a
   * string nor missing makes `trim` throw, and the outer `catch` answers
   * with no words.
   */
  function Handle(st: CacheState, req: Request, authenticated: bool, now: int, doneAt: int,
                  lookup: seq<string> -> Option<map<string, CachedWord>>,
                  attempts: seq<Outcome<seq<RawWord>>>): Handled
    requires |attempts| == |Models|
  {
    match ReadText(req.sourceText)
    case NotAString => Handled(Words([]), NoWrite, [], st)
    case Blank => Handled(Error(MissingFields), NoWrite, [], st)
    case Text(_) =>
      match ReadText(req.translatedText)
      case NotAString => Handled(Words([]), NoWrite, [], st)
      case Blank => Handled(Error(MissingFields), NoWrite, [], st)
      case Text(_) =>
        if !authenticated then Handled(Error(Unauthorized), NoWrite, [], st)
        else Served(st, req, now, doneAt, lookup, attempts)
  }

  /** An admitted request: the memory cache, then the shared word cache, then the models. */
  function Served(st: CacheState, req: Request, now: int, doneAt: int,
                  lookup: seq<string> -> Option<map<string, CachedWord>>,
                  attempts: seq<Outcome<seq<RawWord>>>): Handled
    requires |attempts| == |Models|
  {
    var key := KeyOf(req);
    match Lookup(st, key, now)
    case Some(cached) => Handled(Answer(cached), NoWrite, [], AfterLookup(st, key, now))
    case None =>
      if SharedHit(req, lookup) then SharedAnswer(AfterLookup(st, key, now), req, doneAt, lookup)
      else ModelAnswer(AfterLookup(st, key, now), KeyOf(req), req.targetLang, req.uiLang, doneAt, attempts)
  }

  /** A shared-cache hit: the rebuilt words are answered, kept in memory, and their usage counts bumped. */
  function SharedAnswer(st: CacheState, req: Request, doneAt: int,
                        lookup: seq<string> -> Option<map<string, CachedWord>>): Handled
    requires SharedHit(req, lookup)
  {
    var dbWords := SharedWords(req, lookup);
    Handled(Answer(dbWords), Bump(DistinctLowers(TextWords(req)), req.targetLang, req.uiLang), [],
            AfterSet(st, KeyOf(req), dbWords, doneAt))
  }

  /** The model chain: the first success is answered, kept in memory and stored; no success answers no words. */
  function ModelAnswer(st: CacheState, key: string, targetLang: string, uiLang: string, doneAt: int,
                       attempts: seq<Outcome<seq<RawWord>>>): Handled
    requires |attempts| == |Models|
  {
    match FirstSuccess(attempts)
    case None => Handled(Words([]), NoWrite, Models, st)
    case Some(p) =>
      Handled(Answer(p.1), StoreWrite(p.1, targetLang, uiLang), Models[..p.0 + 1],
              AfterSet(st, key, p.1, doneAt))
  }

  /** The handler. */
  method Post(cache: Cache, req: Request, authenticated: bool, now: int, doneAt: int,
              lookup: seq<string> -> Option<map<string, CachedWord>>,
              complete: Model -> Option<string>, clean: string -> string, parse: string -> Option<Reply>)
    returns (resp: Response, write: DbWrite, tried: seq<Model>)
    requires cache.Valid()
    modifies cache
    ensures cache.Valid()
    ensures Handled(resp, write, tried, cache.State())
      == Handle(old(cache.State()), req, authenticated, now, doneAt, lookup, Attempts(complete, clean, parse))
  {
    var source := ReadText(req.sourceText);
    if source.NotAString? {
      return Words([]), NoWrite, [];
    }
    if source.Blank? {
      return Error(MissingFields), NoWrite, [];
    }
    var translated := ReadText(req.translatedText);
    if translated.NotAString? {
      return Words([]), NoWrite, [];
    }
    if translated.Blank? {
      return Error(MissingFields), NoWrite, [];
    }
    if !authenticated {
      return Error(Unauthorized), NoWrite, [];
    }

    resp, write, tried := Serve(cache, req, now, doneAt, lookup, complete, clean, parse);
  }

  /** The handler past its guards: the memory cache, then the shared word cache, then the models. */
  method Serve(cache: Cache, req: Request, now: int, doneAt: int,
               lookup: seq<string> -> Option<map<string, CachedWord>>,
               complete: Model -> Option<string>, clean: string -> string, parse: string -> Option<Reply>)
    returns (resp: Response, write: DbWrite, tried: seq<Model>)
    requires cache.Valid() && req.translatedText.Str?
    modifies cache
    ensures cache.Valid()
    ensures Handled(resp, write, tried, cache.State())
      == Served(old(cache.State()), req, now, doneAt, lookup, Attempts(complete, clean, parse))
  {
    var cacheKey := CacheKey(req.translatedText.s, req.targetLang, req.uiLang);
    var cached := cache.Get(cacheKey, now);
    if cached.Some? {
      return Answer(cached.value), NoWrite, [];
    }

    var textWords := SplitIntoWords(req.translatedText.s);
    var wordLowers := DistinctLowers(textWords);
    if wordLowers != [] {
      var dbCache := lookup(wordLowers);
      if dbCache.Some? && AllCached(wordLowers, dbCache.value) {
        var dbWords := SharedWords(req, lookup);
        cache.Set(cacheKey, dbWords, doneAt);
        return Answer(dbWords), Bump(wordLowers, req.targetLang, req.uiLang), [];
      }
    }
    resp, write, tried := AskModels(cache, cacheKey, req.targetLang, req.uiLang, doneAt, complete, clean, parse);
  }

  /** The model chain, then the memory cache write and the stored rows of its answer. */
  method AskModels(cache: Cache, key: string, targetLang: string, uiLang: string, doneAt: int,
                   complete: Model -> Option<string>, clean: string -> string, parse: string -> Option<Reply>)
    returns (resp: Response, write: DbWrite, tried: seq<Model>)
    requires cache.Valid()
    modifies cache
    ensures cache.Valid()
    ensures Handled(resp, write, tried, cache.State())
      == ModelAnswer(old(cache.State()), key, targetLang, uiLang, doneAt, Attempts(complete, clean, parse))
  {
    var rawWords;
    rawWords, tried := RunModelChain(complete, clean, parse);
    if rawWords.None? {
      return Words([]), NoWrite, tried;
    }
    cache.Set(key, rawWords.value, doneAt);
    write := StoreWrite(rawWords.value, targetLang, uiLang);
    resp := Answer(rawWords.value);
  }

  /** A request stopped by a guard leaves the memory cache alone, calls no model and writes nothing. */
  lemma GuardsChangeNothing(st: CacheState, req: Request, authenticated: bool, now: int, doneAt: int,
                            lookup: seq<string> -> Option<map<string, CachedWord>>, attempts: seq<Outcome<seq<RawWord>>>)
    requires |attempts| == |Models|
    requires !Admitted(req, authenticated)
    ensures var h := Handle(st, req, authenticated, now, doneAt, lookup, attempts);
      h.cache == st && h.write == NoWrite && h.tried == []
      && (h.resp == Words([]) || h.resp == Error(MissingFields) || h.resp == Error(Unauthorized))
    ensures var h := Handle(st, req, authenticated, now, doneAt, lookup, attempts);
      (ReadText(req.sourceText).Blank? || (ReadText(req.sourceText).Text? && ReadText(req.translatedText).Blank?))
      ==> h.resp == Error(MissingFields)
    ensures var h := Handle(st, req, authenticated, now, doneAt, lookup, attempts);
      ReadText(req.sourceText).Text? && ReadText(req.translatedText).Text? ==> h.resp == Error(Unauthorized)
  {
  }

  /** A live memory-cache entry answers the request: no model, no shared cache, no write. */
  lemma MemoryHitAnswers(st: CacheState, req: Request, now: int, doneAt: int,
                         lookup: seq<string> -> Option<map<string, CachedWord>>, attempts: seq<Outcome<seq<RawWord>>>)
    requires |attempts| == |Models|
    requires ValidState(st)
    requires KeyOf(req) in st.entries && now - st.entries[KeyOf(req)].ts <= CacheTtl
    ensures Served(st, req, now, doneAt, lookup, attempts)
      == Handled(Answer(st.entries[KeyOf(req)].words), NoWrite, [], st)
  {
    LookupSpec(st, KeyOf(req), now);
  }

  /**
   * The all-or-nothing rule of the shared word cache: after a memory miss,
   * the shared cache answers exactly when the text has words, the lookup
   * succeeds and every word of the text has a row; the answer is then the
   * rebuilt list, with no model call. Otherwise the request falls through to
   * the models.
   */
  lemma SharedCacheRule(st: CacheState, req: Request, now: int, doneAt: int,
                        lookup: seq<string> -> Option<map<string, CachedWord>>, attempts: seq<Outcome<seq<RawWord>>>)
    requires |attempts| == |Models|
    requires Lookup(st, KeyOf(req), now).None?
    ensures var lowers := DistinctLowers(TextWords(req));
      SharedHit(req, lookup) <==>
        TextWords(req) != [] && lookup(lowers).Some?
        && forall i :: 0 <= i < |TextWords(req)| ==> TextWords(req)[i].lower in lookup(lowers).value
    ensures !SharedHit(req, lookup) ==>
      Served(st, req, now, doneAt, lookup, attempts)
        == ModelAnswer(AfterLookup(st, KeyOf(req), now), KeyOf(req), req.targetLang, req.uiLang, doneAt, attempts)
    ensures SharedHit(req, lookup) ==>
      var lowers := DistinctLowers(TextWords(req));
      var h := Served(st, req, now, doneAt, lookup, attempts);
      h.tried == [] && h.write == Bump(lowers, req.targetLang, req.uiLang)
      && h.resp == Answer(BuildFromSharedCache(TextWords(req), SplitIntoWords(TextOf(req.sourceText)), lookup(lowers).value))
  {
    var lowers := DistinctLowers(TextWords(req));
    if lookup(lowers).Some? {
      AllCachedCoversEveryToken(TextWords(req), lookup(lowers).value);
    }
  }

  /** When every model fails the caller gets an empty list with status 200, and nothing is cached or stored. */
  lemma AllModelsFailed(st: CacheState, key: string, targetLang: string, uiLang: string, doneAt: int,
                        attempts: seq<Outcome<seq<RawWord>>>)
    requires |attempts| == |Models|
    requires forall j :: 0 <= j < |attempts| ==> attempts[j].Failure?
    ensures ModelAnswer(st, key, targetLang, uiLang, doneAt, attempts) == Handled(Words([]), NoWrite, Models, st)
  {
  }

  /**
   * The answer after a model succeeds is what that model returned,
   * normalised; the chain stops at it, and reading the memory cache back
   * gives the same words.
   */
  lemma ModelAnswers(st: CacheState, key: string, targetLang: string, uiLang: string, doneAt: int,
                     attempts: seq<Outcome<seq<RawWord>>>, i: nat)
    requires |attempts| == |Models|
    requires i < |attempts| && attempts[i].Success?
    requires forall j :: 0 <= j < i ==> attempts[j].Failure?
    ensures var h := ModelAnswer(st, key, targetLang, uiLang, doneAt, attempts);
      h.resp == Answer(attempts[i].value) && h.tried == Models[..i + 1]
      && h.write == StoreWrite(attempts[i].value, targetLang, uiLang)
      && Lookup(h.cache, key, doneAt) == Some(attempts[i].value)
  {
    FirstSuccessAt(attempts, i);
    SetThenLookup(st, key, attempts[i].value, doneAt, doneAt);
  }

  /**
   * A request whose analysis came from a model is answered again from
   * memory, with the same words and no model call, when a request with the
   * same key comes within the time-to-live.
   */
  lemma RepeatIsServedFromMemory(st: CacheState, req: Request, req2: Request, now: int, doneAt: int, later: int,
                                 lookup: seq<string> -> Option<map<string, CachedWord>>,
                                 lookup2: seq<string> -> Option<map<string, CachedWord>>,
                                 attempts: seq<Outcome<seq<RawWord>>>, attempts2: seq<Outcome<seq<RawWord>>>, i: nat)
    requires |attempts| == |Models| && |attempts2| == |Models|
    requires Admitted(req, true) && Lookup(st, KeyOf(req), now).None? && !SharedHit(req, lookup)
    requires i < |attempts| && attempts[i].Success?
    requires forall j :: 0 <= j < i ==> attempts[j].Failure?
    requires Admitted(req2, true) && KeyOf(req2) == KeyOf(req) && later - doneAt <= CacheTtl
    ensures var h := Handle(st, req, true, now, doneAt, lookup, attempts);
      var h2 := Handle(h.cache, req2, true, later, later, lookup2, attempts2);
      h2.resp == h.resp && h2.tried == [] && h2.write == NoWrite && h2.cache == h.cache
  {
    var key := KeyOf(req);
    var afterGet := AfterLookup(st, key, now);
    assert Handle(st, req, true, now, doneAt, lookup, attempts)
      == ModelAnswer(afterGet, key, req.targetLang, req.uiLang, doneAt, attempts);
    ModelAnswers(afterGet, key, req.targetLang, req.uiLang, doneAt, attempts, i);
    FirstSuccessAt(attempts, i);
    SetThenLookup(afterGet, key, attempts[i].value, doneAt, later);
  }

  /** The memory cache's invariants carry over from `st` to `st'`: non-empty lists, and truthy keys with at most 200 entries. */
  predicate CacheInvariantsKept(st: CacheState, st': CacheState)
  {
    (NoEmptyResults(st) ==> NoEmptyResults(st'))
    && (TruthyKeys(st) && |st.entries| <= MaxCacheSize ==> TruthyKeys(st') && |st'.entries| <= MaxCacheSize)
  }

  lemma ModelAnswerKeepsInvariants(st: CacheState, key: string, targetLang: string, uiLang: string, doneAt: int,
                                   attempts: seq<Outcome<seq<RawWord>>>)
    requires ChainAttempts(attempts) && ValidState(st) && key != ""
    ensures var h := ModelAnswer(st, key, targetLang, uiLang, doneAt, attempts);
      ValidState(h.cache) && CacheInvariantsKept(st, h.cache)
  {
    if FirstSuccess(attempts).Some? {
      var p := FirstSuccess(attempts).value;
      KeepBounds(st, key, p.1, doneAt);
      SetSpec(st, key, p.1, doneAt);
    }
  }

  lemma SharedAnswerKeepsInvariants(st: CacheState, req: Request, doneAt: int,
                                    lookup: seq<string> -> Option<map<string, CachedWord>>)
    requires SharedHit(req, lookup) && ValidState(st)
    ensures var h := SharedAnswer(st, req, doneAt, lookup);
      ValidState(h.cache) && CacheInvariantsKept(st, h.cache)
  {
    KeepBounds(st, KeyOf(req), SharedWords(req, lookup), doneAt);
    SetSpec(st, KeyOf(req), SharedWords(req, lookup), doneAt);
  }

  /**
   * Every request keeps the memory cache's invariants: it only ever holds
   * non-empty word lists, and, since every key the route writes is
   * non-empty, it never holds more than 200 entries.
   */
  lemma HandleKeepsCacheInvariants(st: CacheState, req: Request, authenticated: bool, now: int, doneAt: int,
                                   lookup: seq<string> -> Option<map<string, CachedWord>>,
                                   attempts: seq<Outcome<seq<RawWord>>>)
    requires ChainAttempts(attempts) && ValidState(st)
    ensures var h := Handle(st, req, authenticated, now, doneAt, lookup, attempts);
      ValidState(h.cache) && CacheInvariantsKept(st, h.cache)
  {
    if Admitted(req, authenticated) {
      var key := KeyOf(req);
      var afterGet := AfterLookup(st, key, now);
      LookupSpec(st, key, now);
      if NoEmptyResults(st) {
        NoEmptyResultsPreserved(st, key, [], now);
      }
      if TruthyKeys(st) {
        LookupKeepsBounds(st, key, now);
      }
      if Lookup(st, key, now).None? {
        if SharedHit(req, lookup) {
          SharedAnswerKeepsInvariants(afterGet, req, doneAt, lookup);
        } else {
          ModelAnswerKeepsInvariants(afterGet, key, req.targetLang, req.uiLang, doneAt, attempts);
        }
      }
    }
  }

  /** Writing a non-empty list under a non-empty key keeps the cache's non-empty lists, truthy keys and bound. */
  lemma KeepBounds(st: CacheState, key: string, words: seq<RawWord>, doneAt: int)
    requires ValidState(st) && key != "" && words != []
    ensures CacheInvariantsKept(st, AfterSet(st, key, words, doneAt))
  {
    if NoEmptyResults(st) {
      NoEmptyResultsPreserved(st, key, words, doneAt);
    }
    if TruthyKeys(st) && |st.entries| <= MaxCacheSize {
      SetBounded(st, key, words, doneAt);
    }
  }

  /**
   * A model whose `words` array holds `null` poisons the memory cache:
   * `tryAnalyze` accepts the array, `setCache` keeps it before
   * `normalizeWord` throws on it, and the outer `catch` answers no words.
   * Every request with the same key in the next 30 minutes is answered from
   * that entry, again with no words and without asking any model.
   */
  lemma NullWordPoisonsCache(st: CacheState, req: Request, req2: Request, now: int, doneAt: int, later: int,
                             lookup: seq<string> -> Option<map<string, CachedWord>>,
                             lookup2: seq<string> -> Option<map<string, CachedWord>>,
                             attempts: seq<Outcome<seq<RawWord>>>, attempts2: seq<Outcome<seq<RawWord>>>)
    requires |attempts| == |Models| && |attempts2| == |Models|
    requires attempts[0] == Success([Other(Null)])
    requires Admitted(req, true) && Lookup(st, KeyOf(req), now).None? && !SharedHit(req, lookup)
    requires Admitted(req2, true) && KeyOf(req2) == KeyOf(req) && later - doneAt <= CacheTtl
    ensures var h := Handle(st, req, true, now, doneAt, lookup, attempts);
      h.resp == Words([]) && h.tried == [GlmAir] && h.write == NoWrite
      && Lookup(h.cache, KeyOf(req), later) == Some([Other(Null)])
    ensures var h := Handle(st, req, true, now, doneAt, lookup, attempts);
      var h2 := Handle(h.cache, req2, true, later, later, lookup2, attempts2);
      h2.resp == Words([]) && h2.tried == [] && h2.write == NoWrite
  {
    var afterGet := AfterLookup(st, KeyOf(req), now);
    assert !Normalizable([Other(Null)]) by {
      assert Nullish([Other(Null)][0]);
    }
    ModelAnswers(afterGet, KeyOf(req), req.targetLang, req.uiLang, doneAt, attempts, 0);
    SetThenLookup(afterGet, KeyOf(req), [Other(Null)], doneAt, later);
    RepeatIsServedFromMemory(st, req, req2, now, doneAt, later, lookup, lookup2, attempts, attempts2, 0);
  }

  /**
   * A model's attempt with the check the route evidently relies on: an answer
   * whose `words` hold `null` is refused like one without words, so the chain
   * moves on to the next model.
   */
  function CheckedAttempt(a: Outcome<seq<RawWord>>): (r: Outcome<seq<RawWord>>)
    ensures r.Success? ==> Normalizable(r.value) && a == r
    ensures a.Success? && Normalizable(a.value) ==> r == a
  {
    if a.Success? && !Normalizable(a.value) then Failure("No usable words") else a
  }

  function CheckedAttempts(attempts: seq<Outcome<seq<RawWord>>>): (r: seq<Outcome<seq<RawWord>>>)
    ensures |r| == |attempts|
    ensures forall i :: 0 <= i < |attempts| ==> r[i] == CheckedAttempt(attempts[i])
  {
    seq(|attempts|, i requires 0 <= i < |attempts| => CheckedAttempt(attempts[i]))
  }

  /** Every word list in the memory cache can be normalised. */
  ghost predicate CacheNormalizable(st: CacheState) {
    forall k :: k in st.entries ==> Normalizable(st.entries[k].words)
  }

  lemma SetKeepsNormalizable(st: CacheState, key: string, words: seq<RawWord>, now: int)
    requires ValidState(st) && CacheNormalizable(st) && Normalizable(words)
    ensures CacheNormalizable(AfterSet(st, key, words, now))
  {
    SetSpec(st, key, words, now);
  }

  /**
   * With the check, the memory cache only ever holds word lists that
   * normalise, so a memory hit always answers the cached list normalised,
   * one word per cached element, and never the `catch`'s empty list.
   */
  lemma CheckedChainKeepsCacheNormalizable(st: CacheState, req: Request, authenticated: bool, now: int, doneAt: int,
                                           lookup: seq<string> -> Option<map<string, CachedWord>>,
                                           attempts: seq<Outcome<seq<RawWord>>>)
    requires |attempts| == |Models| && ValidState(st) && CacheNormalizable(st)
    ensures var h := Handle(st, req, authenticated, now, doneAt, lookup, CheckedAttempts(attempts));
      CacheNormalizable(h.cache)
    ensures Admitted(req, authenticated) && Lookup(st, KeyOf(req), now).Some? ==>
      var h := Handle(st, req, authenticated, now, doneAt, lookup, CheckedAttempts(attempts));
      var cached := Lookup(st, KeyOf(req), now).value;
      NormalizeAll(cached).Some? && h.resp == Words(NormalizeAll(cached).value) && |h.resp.words| == |cached|
  {
    var checked := CheckedAttempts(attempts);
    if Admitted(req, authenticated) {
      var key := KeyOf(req);
      var afterGet := AfterLookup(st, key, now);
      LookupSpec(st, key, now);
      assert CacheNormalizable(afterGet);
      if Lookup(st, key, now).None? {
        if SharedHit(req, lookup) {
          var lowers := DistinctLowers(TextWords(req));
          AllCachedCoversEveryToken(TextWords(req), lookup(lowers).value);
          SharedCacheHitWords(TextWords(req), SplitIntoWords(TextOf(req.sourceText)), lookup(lowers).value);
          SetKeepsNormalizable(afterGet, key, SharedWords(req, lookup), doneAt);
        } else if FirstSuccess(checked).Some? {
          var p := FirstSuccess(checked).value;
          assert checked[p.0] == CheckedAttempt(attempts[p.0]);
          SetKeepsNormalizable(afterGet, key, p.1, doneAt);
        }
      }
    }
  }
}
