# learnarytai core, modelled in Dafny

This project models the server-side core of learnarytai, a translator that
explains every word of a translation. It also models the small client helpers
around that core. Each source file is one Dafny module:

- **`AnalyzeRoute`, `AnalysisCache`, `AnalyzeWords`, `Tokenizer`, `JsonExtract`** —
  `POST /api/analyze` (app/api/analyze/route.ts). It covers:
  - the process-local analysis cache, a `Map` with lazy 30-minute expiry and
    eviction of the first-inserted key at 200 entries, modelled as the class
    `AnalysisCache.Cache`;
  - the cache key;
  - the word splitter;
  - the all-or-nothing rule of the shared word cache and the word list rebuilt
    from it;
  - the brace-depth scan of `extractJSON`, as written (its depth may go
    below zero; see "## Findings");
  - the acceptance checks of `tryAnalyze`;
  - the ordered fallback over the three models;
  - `normalizeWord` into the twelve parts of speech of `PartsOfSpeech`,
    including the `TypeError` it raises on a `null` or `undefined` word, which
    the handler's `catch` turns into `{words: []}`.
- **`TranslateRoute`** — `POST /api/translate`. It covers:
  - the field and sign-in guards and the free-tier quota;
  - the Google-then-MyMemory cascade and the reverse-direction rule;
  - the join of Google's segments;
  - the new `characters_used`.
- **`GeoLanguage`** — country and `Accept-Language` language choice (lib/geo-language.ts),
  following section 12.5.4 of RFC 9110, with the quality values of section 12.4.2.
- **`GeoLanguageHook`** — the cookie, `navigator.language`, `navigator.languages`,
  default cascade of hooks/use-geo-language.ts.
- **`I18n`** — the `t(locale, key)` fallback lookup.
- **`ProfileRoute`** — the allow-list of `PATCH /api/profile`.
- **`BillingWebhook`** — the guards of the billing webhook and its
  event-to-tier transition.
- **`WordList`** — the dictionary search filter and count label.
- **`DictionaryHook`** — the `entries` state of hooks/use-dictionary.ts.
- **`ProfileDropdown`** — the avatar initials and display name.

Helper modules give the JavaScript semantics the routes rely on:

- `Js`: truthiness, `||`, `===`, `String(v)` and decimal rendering;
- `Text`: whitespace, `trim`, case mapping, `split` on a character class,
  `indexOf` and `includes`;
- `Seqs`: `filter`, subsequences, `[...new Set(s)]` and `flatMap`;
- `Wrappers`: `Option` and `Outcome`.

External services are parameters of the operations that use them:

- the language-model call;
- the shared word-cache query;
- Google Translate and MyMemory;
- HMAC-SHA256 and `JSON.parse`;
- the clock.

Fire-and-forget database writes are returned as values (`DbWrite`,
`charactersUsed`), and persistent tables that are updated in place are class
fields (`BillingStore`, `DictionaryState`).

Where the routes' documented behaviour and their code disagree, the model
follows the code:

- After a translate request whose first Google call succeeded, a failure of
  both the reverse Google call and MyMemory still answers 200. The answer
  carries Google's first text. No error is returned.
- The reverse-direction rule applies to Google only.
- When Google reports no language, `detectedLang` is `'auto'`. That is the
  `sourceLang` the handler passes to `translateWithGoogle`, not the request's
  source language.
- When the analysis cache is full, `setCache` evicts the first-inserted key
  only when that key is truthy. Setting a key that is already held keeps that
  key's place. After such an eviction, the map then holds 199 entries rather
  than 200 (`SetEvictsOldest`).
- The analysis route runs `extractJSON` as written, so a `}` before the first
  `{` defeats the scan (`JsonExtract.AsWritten`). The clamped scan
  `JsonExtract.ExtractJson` is only the corrected half of the first finding;
  no route uses it.
- `tryAnalyze` accepts any non-empty `words` array, whatever its elements
  are. A `null` element is cached before `normalizeWord` throws on it (second
  finding).

## Model

| member | source | states |
|---|---|---|
| AnalyzeWords.CacheKey | app/api/analyze/route.ts:31-33 | the key is non-empty and starts with `targetLang:uiLang:` |
| AnalyzeWords.CacheKeyIgnoresCase | app/api/analyze/route.ts:31-33 | texts that lower-case alike, differing only in case, get the same key |
| AnalyzeWords.CacheKeyOfUpper | app/api/analyze/route.ts:31-33 | upper-casing the text leaves its key unchanged |
| AnalyzeWords.CacheKeyIgnoresPadding | app/api/analyze/route.ts:31-33 | whitespace around the text leaves its key unchanged |
| AnalyzeWords.CacheKeyInjective | app/api/analyze/route.ts:31-33 | with languages free of `:`, equal keys mean equal languages and equal trimmed lower-cased texts |
| AnalysisCache.Remove | app/api/analyze/route.ts:39 | deleting a key leaves exactly the other keys, keeps them distinct, changes nothing when the key is absent, and leaves the tail when the first key is deleted |
| AnalysisCache.RemoveKeepsOrder | app/api/analyze/route.ts:39 | deleting a key keeps every other key in its insertion order: the result is the key order filtered by `x !== k` |
| AnalysisCache.LookupSpec | app/api/analyze/route.ts:35-43 | a live entry (`now - ts <= 30 min`) is returned and the map is unchanged; an expired entry yields null and is deleted, nothing else changes; an absent key yields null |
| AnalysisCache.Cache.Get | app/api/analyze/route.ts:35-43 | `getFromCache` returns the lookup and leaves the map as the lazy-expiry rule says, keeping its key order valid |
| AnalysisCache.SetSpec | app/api/analyze/route.ts:45-52 | after `setCache`, the key order is the old one (minus a truthy first key when full) with a new key appended; the key maps to `{words, ts: now}`; every other entry is unchanged |
| AnalysisCache.Cache.Set | app/api/analyze/route.ts:45-52 | `setCache` evicts the first key when full and truthy, then sets the entry, keeping the key order valid |
| AnalysisCache.Cache.constructor | app/api/analyze/route.ts:27 | the cache starts empty |
| AnalysisCache.SizeIsKeyCount | app/api/analyze/route.ts:47 | the map's `size` equals the length of its insertion order |
| AnalysisCache.SetBounded | app/api/analyze/route.ts:45-52 | with truthy keys, a map of at most 200 entries still holds at most 200 after `setCache` of a non-empty key |
| AnalysisCache.SetEvictsOldest | app/api/analyze/route.ts:45-52 | on a full map exactly the first-inserted key leaves; a new key goes last, while a key already held keeps its place and the map shrinks to 199 |
| AnalysisCache.SetThenLookup | app/api/analyze/route.ts:35-52 | reading a key back within 30 minutes of setting it returns exactly the words set and changes nothing |
| AnalysisCache.LookupKeepsBounds | app/api/analyze/route.ts:35-43 | a read never adds a key: truthy keys stay truthy and the map does not grow |
| AnalysisCache.NoEmptyResultsPreserved | app/api/analyze/route.ts:35-52 | reads, and writes of non-empty lists, keep every cached list non-empty |
| Tokenizer.StripStartSlice | app/api/analyze/route.ts:59 | stripping the front removes a prefix with no letter or digit |
| Tokenizer.StripEndSlice | app/api/analyze/route.ts:59 | stripping the back removes a suffix with no letter or digit |
| Tokenizer.StripNonAlnum | app/api/analyze/route.ts:59 | the stripped word begins and ends with a letter or digit, and is empty exactly when the piece has none |
| Tokenizer.StripNonAlnumIsSlice | app/api/analyze/route.ts:59 | the stripped word is the slice of the piece between a prefix and a suffix that hold no letter or digit |
| Tokenizer.TokenOfWellFormed | app/api/analyze/route.ts:59-61 | a piece yields a token exactly when it holds a letter or digit, and that token is well formed |
| Tokenizer.TokensWellFormed | app/api/analyze/route.ts:56-62 | every token of a split is non-empty, has letters or digits at both ends, and `lower` is the lower-cased `raw` |
| Tokenizer.SplitIntoWords | app/api/analyze/route.ts:56-62 | every word returned is well formed as above |
| Tokenizer.SplitIntoWordsJoin | app/api/analyze/route.ts:56-62 | order is kept: the words of `a + space + b` are the words of `a` followed by the words of `b` |
| Tokenizer.SplitIntoWordsOfWord | app/api/analyze/route.ts:56-62 | a text without whitespace is one word, itself stripped, or none when it has no letter or digit |
| Tokenizer.NoWordsIff | app/api/analyze/route.ts:56-62 | a text yields no word exactly when it holds no letter and no digit |
| AnalyzeWords.NormalizeWord | app/api/analyze/route.ts:340-356 | a `null` or `undefined` word throws (`None`), any other value gives a word; `pos` is the normalised tag; a truthy id is kept, else `w{i+1}`; each text field is `String` of the value when truthy and `''` otherwise; a string translation is kept |
| AnalyzeWords.NormalizeAll | app/api/analyze/route.ts:329 | `map(normalizeWord)` throws exactly when some element is `null` or `undefined`; otherwise it keeps the length and word `i` is element `i` normalised with index `i` |
| AnalyzeWords.PositionalIdsDistinct | app/api/analyze/route.ts:347 | two words without ids get different positional ids |
| AnalyzeWords.FirstValid | app/api/analyze/route.ts:343-344 | the result is noun or the name of one of the parts |
| AnalyzeWords.FirstValidIsFirst | app/api/analyze/route.ts:344 | `find` returns the first valid part |
| AnalyzeWords.FirstValidNone | app/api/analyze/route.ts:344 | with no valid part the fallback is noun |
| AnalyzeWords.NormalizeTag | app/api/analyze/route.ts:342 | a tag in the set is kept as it is |
| AnalyzeWords.NormalizeTagOrigin | app/api/analyze/route.ts:341-345 | the result is noun, the tag itself, or one of its `+ / ,`/whitespace-separated parts |
| AnalyzeWords.PosTagOfPlain | app/api/analyze/route.ts:341 | a lower-case tag without surrounding whitespace reaches the set check unchanged |
| AnalyzeWords.NormalizePosOfName | app/api/analyze/route.ts:341-342 | every tag of the twelve-value set normalises to itself |
| AnalyzeWords.NameIsPlain | app/api/analyze/route.ts:9-12 | every tag of the set is non-empty, lower-case and has no surrounding whitespace |
| AnalyzeWords.NormalizePosMissing | app/api/analyze/route.ts:341 | a missing or falsy `pos` becomes noun |
| AnalyzeWords.NormalizePosIgnoresCase | app/api/analyze/route.ts:341 | the case of the model's tag does not matter |
| AnalyzeWords.NameHasNoSeparator | app/api/analyze/route.ts:9-12 | every tag of the set is spelt in `a`–`z`, so it holds no separator |
| AnalyzeWords.ValidTagHasNoSeparator | app/api/analyze/route.ts:9-12 | a tag in the set holds no separator |
| AnalyzeWords.CompoundTagTakesFirstValidPart | app/api/analyze/route.ts:342-344 | a compound tag whose first part is valid (`pronoun+verb`) takes that part |
| AnalyzeWords.NormalizeTagFirstValidPart | app/api/analyze/route.ts:342-344 | a tag not in the set takes its first valid part, wherever it stands (`xyz+verb` gives verb) |
| AnalyzeWords.UnknownTagIsNoun | app/api/analyze/route.ts:341-344 | any tag that is not in the set and none of whose separated parts is in the set becomes noun |
| Seqs.Dedup | app/api/analyze/route.ts:235 | `[...new Set(s)]` holds each element of `s` once and nothing else |
| AnalyzeWords.DistinctLowers | app/api/analyze/route.ts:235 | the distinct lower-cased words hold no duplicate and are empty exactly when the text has no words |
| AnalyzeWords.AllCachedCoversEveryToken | app/api/analyze/route.ts:237-239 | every distinct lower-cased word has a row exactly when every word of the text has one |
| AnalyzeWords.BuildFromSharedCache | app/api/analyze/route.ts:243-255 | the rebuilt list has one object per word of the translation |
| AnalyzeWords.SharedCacheWordFields | app/api/analyze/route.ts:244-255 | the rebuilt object carries id `w{i+1}`, both words and the row's analysis, and no explanation |
| AnalyzeWords.SharedCacheWordNormalized | app/api/analyze/route.ts:243-262 | a rebuilt object normalises to its id, both words, the row's analysis and an empty explanation |
| AnalyzeWords.SharedCacheHitWords | app/api/analyze/route.ts:243-262 | on a shared-cache hit, word `i` has id `w{i+1}`, the `i`-th translated word, the `i`-th source word or `''`, and its row's analysis |
| AnalyzeWords.StoredRowsSpec | app/api/analyze/route.ts:102-119 | stored rows are keyed, carry the request's languages and follow word order; every word with a non-empty string translation is stored, under its lower-cased translation |
| JsonExtract.FindOpen | app/api/analyze/route.ts:158-163 | the first index from `k` where the scanner starts an object, and none earlier |
| JsonExtract.FindClose | app/api/analyze/route.ts:164-168 | the first index where the depth returns to its value before the start, and none earlier |
| JsonExtract.StaysAbove | app/api/analyze/route.ts:160-168 | after a `{` the depth stays above its start until it first returns |
| JsonExtract.SpanBalanced | app/api/analyze/route.ts:160-168 | the slice from a `{` to the first return of the depth is a balanced object |
| JsonExtract.NoBalancedSpan | app/api/analyze/route.ts:170-172 | when the depth never returns, no slice from the start is balanced |
| JsonExtract.ExtractFromSpec | app/api/analyze/route.ts:157-172 | from a `{`, the result is a balanced slice starting there; failure means none exists |
| JsonExtract.ExtractSpec | app/api/analyze/route.ts:149-173 | a success is a balanced object (opens with `{`, closes with `}`, and its depth first returns to zero at its last character) and is the slice of the reply starting at the scanner's first `{`; a failure is always "No JSON object found", and then no slice from that `{` is balanced |
| JsonExtract.ExtractJsonAsWritten | app/api/analyze/route.ts:157-172 | the source's loop, depth allowed below zero, returns the as-written scanner's result |
| JsonExtract.ExtractJson | app/api/analyze/route.ts:157-172 | the loop with the depth kept at zero or above returns the clamped scanner's result |
| JsonExtract.StrayCloserDefeatsAsWritten | app/api/analyze/route.ts:158-168 | `}{}` holds the balanced object `{}`, yet the loop as written throws; the clamped loop returns `{}` |
| JsonExtract.ClampedIgnoresLeadingText | app/api/analyze/route.ts:157-172 | with the clamped scan, text without `{` in front of the reply does not change the result |
| JsonExtract.ScannersAgree | app/api/analyze/route.ts:157-172 | when no `}` precedes the first `{`, the loop as written and the clamped loop agree |
| AnalyzeRoute.TryAnalyze | app/api/analyze/route.ts:175-208 | a successful attempt returns a non-empty word list, found by the as-written `extractJSON` scan |
| AnalyzeRoute.TryAnalyzeSpec | app/api/analyze/route.ts:193-207 | success needs a reply of at least 10 characters, an object found by the as-written scan that parses, and a non-empty `words`, which is the result; these together suffice; a failed call or a short reply fails |
| AnalyzeRoute.Attempts | app/api/analyze/route.ts:309-318 | one attempt per model of `MODELS`, in order |
| AnalyzeRoute.FirstSuccess | app/api/analyze/route.ts:309-318 | the first successful attempt, every earlier one failing; none exactly when all fail |
| AnalyzeRoute.FirstSuccessAt | app/api/analyze/route.ts:309-318 | a success preceded only by failures is the first success |
| AnalyzeRoute.RunModelChain | app/api/analyze/route.ts:305-318 | the loop calls the models in order up to and including the first success of `tryAnalyze` (as-written scan), whose words it returns; all three when none succeeds |
| AnalyzeRoute.ReadText | app/api/analyze/route.ts:214 | a text is read as is when it is a string, and as not-a-string exactly when it is neither missing nor a string |
| AnalyzeRoute.ReadTextTrims | app/api/analyze/route.ts:214-216 | a field is usable exactly when it is a string that trims to something, and blank when missing or trimming to nothing |
| AnalyzeRoute.GuardsChangeNothing | app/api/analyze/route.ts:214-222 | a blank text gives 400 and a signed-out caller 401, with no model call, no write and the memory cache unchanged |
| AnalyzeRoute.MemoryHitAnswers | app/api/analyze/route.ts:224-231 | a live memory entry is answered with its words normalised, or `{words: []}` when one of them is `null` or `undefined`, with no model call and no write |
| AnalyzeRoute.SharedCacheRule | app/api/analyze/route.ts:233-264 | after a memory miss, the shared cache answers exactly when the text has words, the lookup succeeds and every word has a row; it then answers the rebuilt list, bumps usage and calls no model; otherwise the models are asked |
| AnalyzeRoute.AllModelsFailed | app/api/analyze/route.ts:320-323 | when every model fails the answer is `{words: []}`, all three were tried, and neither cache is written |
| AnalyzeRoute.ModelAnswers | app/api/analyze/route.ts:325-336 | the first success is stored in memory and readable back; it is answered normalised and written to the shared cache, or, when an element is `null` or `undefined`, answered `{words: []}` with no shared-cache write; the chain stops at it |
| AnalyzeRoute.RepeatIsServedFromMemory | app/api/analyze/route.ts:224-326 | a request with the same key within 30 minutes after a model answer gets the same words from memory, with no model call and no write |
| AnalyzeRoute.ModelAnswerKeepsInvariants | app/api/analyze/route.ts:320-329 | the model path keeps the cache valid, its lists non-empty and its size at most 200 |
| AnalyzeRoute.SharedAnswerKeepsInvariants | app/api/analyze/route.ts:257-263 | the shared-cache path keeps the cache valid, its lists non-empty and its size at most 200 |
| AnalyzeRoute.HandleKeepsCacheInvariants | app/api/analyze/route.ts:210-338 | every request keeps the memory cache valid, holding only non-empty lists and at most 200 entries |
| AnalyzeRoute.KeepBounds | app/api/analyze/route.ts:45-52 | writing a non-empty list under a non-empty key keeps non-empty lists, truthy keys and the bound |
| AnalyzeRoute.Post | app/api/analyze/route.ts:210-338 | the handler's answer, database write, models called and new memory cache are those of the specification function `Handle`, with the as-written scan and the `catch` around `normalizeWord` |
| AnalyzeRoute.Serve | app/api/analyze/route.ts:224-336 | past the guards: memory cache, then shared cache, then models, as `Served` states, each answer going through `Answer` |
| AnalyzeRoute.AskModels | app/api/analyze/route.ts:305-336 | the model chain (as-written scan), then `setCache`, `storeCachedWords` and normalisation, as `ModelAnswer` states |
| AnalyzeRoute.Answer | app/api/analyze/route.ts:329-336 | the answer is the normalised list, one word per element, or `{words: []}` exactly when `normalizeWord` throws on a `null` or `undefined` element |
| AnalyzeRoute.NullWordPoisonsCache | app/api/analyze/route.ts:203-207 | a model answer `{"words":[null]}` is answered `{words: []}`, stored in memory without a shared-cache write, and every same-key request in the next 30 minutes is answered `{words: []}` from memory without a model call |
| AnalyzeRoute.CheckedAttempt | app/api/analyze/route.ts:203-207 | with the null check added, a success always normalises and a normalisable success passes unchanged |
| AnalyzeRoute.CheckedChainKeepsCacheNormalizable | app/api/analyze/route.ts:224-336 | with the null check, every cached list normalises, so a memory hit answers one normalised word per cached element |
| PartsOfSpeech.Parse | lib/types.ts:1-13 | a recognised tag is the name of the part of speech it yields |
| PartsOfSpeech.ParseName | lib/types.ts:1-13 | every one of the twelve names is recognised as its own part of speech |
| PartsOfSpeech.NameInjective | lib/types.ts:1-13 | the twelve names are distinct |
| TranslateRoute.JoinSegmentsAppend | app/api/translate/route.ts:19-23 | the join of two runs of segments is the join of each, in order |
| TranslateRoute.DroppedSegmentAddsNothing | app/api/translate/route.ts:21 | a segment with a falsy first element contributes nothing, wherever it stands |
| TranslateRoute.JoinOfStrings | app/api/translate/route.ts:19-23 | non-empty string segments join to their concatenation |
| TranslateRoute.TranslateWithGoogle | app/api/translate/route.ts:7-27 | fails exactly when the call throws; the text is the join of the kept segments, `''` without `data[0]`; the language is `data[2]` when truthy, else the `sourceLang` argument |
| TranslateRoute.TranslateWithMyMemory | app/api/translate/route.ts:30-46 | fails exactly when the call throws; reports the requested source language; the text is the response's text, or `''` when that is falsy |
| TranslateRoute.Utf16Length | app/api/translate/route.ts:69 | `text.length` lies between the number of characters and twice that, and equals it inside the Basic Multilingual Plane |
| TranslateRoute.ProvidersSpec | app/api/translate/route.ts:80-102 | Google is called first toward the target; without the reverse rule Google's text is answered after that one call; on the reverse rule the second call is Google toward the source, and its text is answered when it does not throw; MyMemory is called exactly when a Google call threw, and last, and its text is answered when it does not throw; the language answered is Google's first detection, else the request's source |
| TranslateRoute.CompositeTargetNeverReverses | app/api/translate/route.ts:90 | `===` compares arrays and objects by identity, so a target language given as one never triggers the reverse call |
| TranslateRoute.AllProvidersFail | app/api/translate/route.ts:80-102 | when every provider fails, the text is `''` if the first Google call threw, else Google's first translation |
| TranslateRoute.Translate | app/api/translate/route.ts:80-102 | the cascade's locals and calls, as the specification function `Providers` gives them |
| TranslateRoute.RefusalSpec | app/api/translate/route.ts:52-78 | a text that is not a string fails with 500; a missing or blank text, or a falsy language, gives 400; a signed-out caller 401; a count plus `text.length` over the limit 403; reaching the limit exactly is allowed and a tier other than free is never refused; a request gets through exactly when none of these holds |
| TranslateRoute.BlankTextIsRefused | app/api/translate/route.ts:52-54 | a text that trims to nothing gives 400 |
| TranslateRoute.RefusedRequest | app/api/translate/route.ts:52-78 | a refused request calls no provider and writes no count |
| TranslateRoute.AdmittedRequest | app/api/translate/route.ts:80-118 | an admitted request is answered with a translation, asks Google first, and writes the count plus `text.length`; on the free tier the new count is within the limit |
| TranslateRoute.Post | app/api/translate/route.ts:48-126 | the handler's answer, count written and provider calls are those of the specification function `Respond` |
| GeoLanguage.LanguageByCountry | lib/geo-language.ts:33-36 | a mapped code gives the language `COUNTRY_TO_LANGUAGE` lists for its upper-cased form; a missing, empty or unmapped code gives `en`; the result is always one of `uk ru it es fr en` |
| GeoLanguage.UkraineIsUkrainian | lib/geo-language.ts:33-36 | `ua` and `UA` both give `uk` |
| GeoLanguage.LanguageByCountryIgnoresCase | lib/geo-language.ts:35 | country codes are matched without regard to case |
| GeoLanguage.ParsePart | lib/geo-language.ts:42-45 | a part without `;q=` is its trimmed, lower-cased tag with quality 1 |
| GeoLanguage.Preferences | lib/geo-language.ts:40-45 | one preference per comma-separated part, in header order: preference `i` is part `i` parsed |
| GeoLanguage.Insert | lib/geo-language.ts:46 | inserting into a list sorted by descending quality keeps it sorted and adds exactly the element |
| GeoLanguage.SortByQuality | lib/geo-language.ts:46 | the result is sorted by descending quality and is a permutation of the input |
| GeoLanguage.Supported | lib/geo-language.ts:49-53 | a tag in `SUPPORTED_LANGUAGES` is read as itself; otherwise its base before the first `-` is read when supported; none exactly when neither is supported |
| GeoLanguage.FirstSupported | lib/geo-language.ts:48-54 | the first tag with a supported reading; none exactly when no tag has one |
| GeoLanguage.LanguageOf | lib/geo-language.ts:48-56 | the answer is always a supported language |
| GeoLanguage.LanguageByAcceptHeader | lib/geo-language.ts:38-57 | the answer is always a supported language |
| GeoLanguage.Best | lib/geo-language.ts:38-57 | the reference reading, in header order, is a supported tag |
| GeoLanguage.BestSpec | lib/geo-language.ts:38-57 | the reference reading is a supported tag of maximal quality, with no supported tag of equal quality before it; none exactly when no tag is supported |
| GeoLanguage.FirstSupportedOfInsert | lib/geo-language.ts:46-54 | inserting a tag into a sorted list changes the first supported tag only when the new tag is supported and at least as good |
| GeoLanguage.SortedScanFindsBest | lib/geo-language.ts:46-54 | scanning the stably sorted tags finds exactly the reference reading |
| GeoLanguage.AcceptHeaderPicksBest | lib/geo-language.ts:38-57 | the header's language is that of its best supported tag, the earliest among equals, else `en` |
| GeoLanguageHook.UpToSemicolon | hooks/use-geo-language.ts:9 | the cookie value is the longest prefix without `;` |
| GeoLanguageHook.CookieScan | hooks/use-geo-language.ts:9 | a found cookie value holds no `;` |
| GeoLanguageHook.CookieAtStart | hooks/use-geo-language.ts:9 | a `geo-lang=` pair at the start of the cookie string is read up to its `;` |
| GeoLanguageHook.CookieSkipsOtherPair | hooks/use-geo-language.ts:9 | another pair before `; ` is skipped and the search continues after it |
| GeoLanguageHook.FirstSupportedBase | hooks/use-geo-language.ts:18-24 | the first `navigator.languages` entry whose base is supported; none exactly when no base is |
| GeoLanguageHook.GetGeoLanguage | hooks/use-geo-language.ts:5-27 | no window gives `en`; a non-empty cookie other than `en` wins as is; otherwise the answer is a supported language |
| GeoLanguageHook.NavigatorLanguageFirst | hooks/use-geo-language.ts:13-16 | without a usable cookie, a supported base of `navigator.language` wins |
| GeoLanguageHook.LanguagesThenDefault | hooks/use-geo-language.ts:18-26 | without a usable cookie or a supported `navigator.language`, the first supported base in `navigator.languages` wins, and failing that the answer is `en` (the cookie left at that step can only be `en`) |
| I18n.T | lib/i18n.ts:385-387 | the result is the locale's non-empty text, the English non-empty text, or the key; a non-empty key never gives `''` |
| I18n.TPrefersLocale | lib/i18n.ts:386 | a non-empty text in the locale always wins |
| I18n.TFallsBackToEnglish | lib/i18n.ts:386 | a locale lacking the key, or mapping it to `''`, answers as English does |
| ProfileRoute.Patch | app/api/profile/route.ts:6-49 | signed out gives 401 with no write; no allowed field present gives 400 with no write; otherwise the write holds exactly the allowed fields present (`null` counts), copied unchanged, plus `updated_at`, and the status is 200, or 500 when the database refuses |
| BillingWebhook.Decide | app/api/webhooks/lemonsqueezy/route.ts:10-80 | a missing signature or secret, or a wrong digest, gives 401; no user id gives 400; created/updated upserts, and sets pro with limit 999999999 exactly when active; cancelled/expired sets free with limit 1000; other events change nothing |
| BillingWebhook.SetTier | app/api/webhooks/lemonsqueezy/route.ts:56-75 | only the user's row changes, only its tier and limit, and a missing row stays missing |
| BillingWebhook.SetTierIdempotent | app/api/webhooks/lemonsqueezy/route.ts:56-77 | applying the same event twice leaves the profiles as applying it once |
| BillingWebhook.BillingStore.Receive | app/api/webhooks/lemonsqueezy/route.ts:10-80 | a rejected delivery changes nothing; an accepted one upserts and sets the tier as decided and answers 200 |
| WordList.FilteredSpec | components/dictionary/word-list.tsx:16-20 | the shown entries are a subsequence of the entries, in order, and are exactly those whose lower-cased word or translation contains the lower-cased search |
| WordList.EmptySearchShowsAll | components/dictionary/word-list.tsx:16-20 | an empty search shows every entry |
| WordList.FilteredIdempotent | components/dictionary/word-list.tsx:16-20 | filtering the shown entries again changes nothing |
| WordList.CountLabel | components/dictionary/word-list.tsx:55 | the label is the count followed by "word", with an "s" exactly when the count is not 1 |
| DictionaryHook.WithoutIdSpec | hooks/use-dictionary.ts:54 | deleting removes every entry with the id and keeps every other entry, in order |
| DictionaryHook.DeleteUndoesAdd | hooks/use-dictionary.ts:39-54 | deleting a just-added entry with a fresh id restores the list |
| DictionaryHook.DictionaryState.constructor | hooks/use-dictionary.ts:7-8 | no entries, loading |
| DictionaryHook.DictionaryState.FetchEntries | hooks/use-dictionary.ts:10-23 | an ok response replaces the list; loading is false afterwards whatever happens |
| DictionaryHook.DictionaryState.AddEntry | hooks/use-dictionary.ts:29-48 | an ok response puts the new entry in front of the old list and answers true; otherwise false, list unchanged |
| DictionaryHook.DictionaryState.DeleteEntry | hooks/use-dictionary.ts:50-61 | an ok response filters out the id and answers true; otherwise false, list unchanged |
| ProfileDropdown.FirstCharsAreWordStarts | components/dashboard/profile-dropdown.tsx:35-40 | the split-map-join takes exactly the first character of every space-separated word |
| ProfileDropdown.BlankNameHasNoStarts | components/dashboard/profile-dropdown.tsx:35-40 | a name made only of spaces has no word starts |
| ProfileDropdown.InitialsFromName | components/dashboard/profile-dropdown.tsx:35-40 | with a full name, the initials are its upper-cased word starts, and `''` for a name of spaces |
| ProfileDropdown.InitialsWithoutName | components/dashboard/profile-dropdown.tsx:41 | without a full name, the initials are the email's upper-cased first character, else `?` |
| ProfileDropdown.DisplayName | components/dashboard/profile-dropdown.tsx:75 | the full name when there is one, else "User"; never empty |
| Text.TrimEmptyIff | app/api/translate/route.ts:52 | a text trims to nothing exactly when it is all whitespace |
| Text.TrimIdempotent | app/api/analyze/route.ts:32 | trimming twice is trimming once |
| Text.TrimIgnoresPadding | app/api/analyze/route.ts:32 | whitespace around a string does not survive `trim` |
| Text.LowerTrimCommute | app/api/analyze/route.ts:32 | `trim` and `toLowerCase` commute |
| Text.CaseDisjoint | app/api/analyze/route.ts:32 | no character is both upper- and lower-case in the modelled mapping |
| Text.CaseMappingAbsorbs | app/api/analyze/route.ts:32 | each mapping is idempotent, and lower-casing (upper-casing) after either mapping is lower-casing (upper-casing) the character itself |
| Text.UpperOfLowerChar | app/api/analyze/route.ts:32 | an upper-case letter lower-cases to a letter that upper-cases back to it |
| Text.LowerOfUpperChar | app/api/analyze/route.ts:32 | a lower-case letter upper-cases to a letter that lower-cases back to it |
| Text.SplitByPieces | app/api/analyze/route.ts:58 | no piece of a split holds a separator, and the pieces hold every other character in order |
| Text.IndexOf | lib/geo-language.ts:43 | the first occurrence of the separator, and none before it |
| Text.ContainsEmpty | components/dictionary/word-list.tsx:18 | every string includes the empty string |
| Seqs.FilterIsSubsequence | components/dictionary/word-list.tsx:16-20 | `filter` keeps a subsequence, in order |
| Seqs.FilterIdempotent | components/dictionary/word-list.tsx:16-20 | filtering twice with the same predicate is filtering once |
| Js.NatToStringInjective | app/api/analyze/route.ts:347 | distinct numbers render to distinct decimal strings, so `w1`, `w2`, … never collide |

## Left out

- The language-model call (openrouter), the Supabase clients, `fetch` to Google
  Translate and MyMemory, and the session lookup are parameters: a function
  giving the reply, or `None` when the call throws.
- `JSON.parse`, the clean-up `extractJSON` does before its scan (removing
  `<think>` blocks and code fences, then `trim`), and HMAC-SHA256 are
  uninterpreted functions passed in.
- `Date.now()` and `new Date().toISOString()` are parameters (`now`, `doneAt`).
- The fire-and-forget writes are returned as values and never executed:
  `storeCachedWords`, `bumpUsageCount` and the `characters_used` update. The
  billing webhook awaits its subscriptions upsert and its profile updates but
  ignores their results; they are recorded in `BillingStore` and always
  taken to succeed. How the database merges the rows is not modelled.
- The prompts, `UI_LANG_NAMES`, `maxDuration`, temperature and token limits
  only shape the model call. They are left inside that parameter.
- Logging is not modelled. Neither is `lastError`, which is only logged; the
  failure messages of `tryAnalyze` are modelled, but no answer carries them.
- `ensureProfile` is not part of this model. The caller's profile row is an input.
- Unicode `\p{L}`, `\p{N}`, `toLowerCase` and `toUpperCase` are restricted to
  Basic Latin, Latin-1, Latin Extended-A and Cyrillic (U+0400 to U+052F). Every
  one-for-one case pair of those blocks is mapped (for example Ґ/ґ and Ÿ/ÿ).
  The characters whose JavaScript mapping is not one-for-one inside those
  blocks keep their case: ß (upper case `SS`), µ, İ, ı, ŉ and ſ. Characters
  outside those blocks are not letters in the model. JavaScript's whitespace
  set is complete.
- `AnalyzeWords.CacheKeyOfUpper` holds only for the modelled one-for-one case
  mapping. In JavaScript, `toUpperCase` can change a text's lower-case form:
  "straße" upper-cases to "STRASSE", which lower-cases to "strasse", so the
  two get different keys.
- `AnalyzeWords.NormalizePosIgnoresCase` holds only for the modelled mapping.
  In JavaScript, "adjectıve" (dotless ı) lower-cases to itself and becomes
  noun, while its upper case "ADJECTIVE" lower-cases to "adjective".
- `I18n.T` reads the locale table and the key as a finite map. In JavaScript,
  `translations[locale]?.[key]` also finds members inherited from
  `Object.prototype`, so a key such as "constructor" or "toString" answers a
  function rather than falling back. The callers only pass literal keys of
  the tables, so this is not modelled.
- `parseFloat` is a parameter of the `Accept-Language` parser. Quality values
  are reals, so NaN is not modelled.
- `split(/\s+/)` and `split(/[+\/,\s]+/)` are modelled as splits on each
  single separator. The extra empty pieces this produces are dropped by both
  callers, because no empty piece is a word or a valid tag.
- `AnalysisCache.SetBounded`: the 200-entry bound is proved only for maps whose
  keys are all non-empty. An empty-string key at the head of a full map is
  never evicted, so the map can grow past 200. The route's keys always
  contain `:`, so they are never empty (`HandleKeepsCacheInvariants`).
- The analysis route takes `targetLang` and `uiLang` as strings; a request
  that omits them is not modelled.
- An `Accept-Language` tag is lower-cased after `trim`. Case mapping is
  limited to the scripts named above.
- A Google `data[0]` that is present but not an array is folded into the
  thrown call, because `filter` would throw on it.
- Numbers are integers. JSON numbers with fractions do not reach any
  modelled decision.
- The request-body parse (`request.json()`) is assumed to succeed and to give
  an object. A body that is not JSON, or that parses to `null` or another
  non-object, is not modelled: in the translate route the destructuring
  throws into the outer `catch` (500); in the profile route `body[field]`
  throws outside any `catch`, which also ends in a 500. The record and map
  request types cannot hold such a body.
- `ProfileDropdown.InitialsFromName` takes the first character of each word
  as a whole code point, where `n[0]` takes the first UTF-16 code unit. A
  word starting outside the Basic Multilingual Plane ("🙂 Ann") gives a lone
  high surrogate in JavaScript but the whole character here.
- `ProfileDropdown.InitialsWithoutName` likewise takes the email's first code
  point where `email[0]` takes its first UTF-16 code unit.
- Each analysis request is one atomic step on the memory cache (`Handle`,
  `AnalyzeRoute.Post`). The handler awaits between `getFromCache` and
  `setCache`: the shared-cache query and the model calls. So concurrent
  requests interleave on the `Map`: two misses on one key both ask the
  models, and the later `setCache` overwrites the earlier. The single-step
  lemmas (`LookupKeepsBounds`, `KeepBounds`, `SetBounded`) hold for any
  interleaving. The end state of `Handle` and `RepeatIsServedFromMemory`
  assume no other request runs in between.
- The client hook hooks/use-translation.ts is not part of this model. Its
  substance is the cancellation of a previous fetch. The rendering
  components and the percentage displays are not part of this model either.

## Findings

| source | as written | input that shows it | evidently intended | confidence | as-written member | corrected member |
|---|---|---|---|---|---|---|
| app/api/analyze/route.ts:158-168 | `depth` is decremented on every `}`, even before any `{`, so a stray `}` leaves it at -1; the next `{` is then not seen at depth 0, no start is recorded, and `extractJSON` throws | a cleaned reply `}{}` (for instance a model's stray brace before its JSON): it holds the object `{}`, but the call throws "No JSON object found" | return the first balanced `{…}` in the reply, ignoring `}` that precede any `{` | high; not executed | JsonExtract.StrayCloserDefeatsAsWritten | JsonExtract.ExtractJson |
| app/api/analyze/route.ts:203-207 | `tryAnalyze` checks only that `words` is a non-empty array. The handler then caches it (`setCache`, line 326) before `normalizeWord` reads `w.pos` (line 341), which throws on a `null` element; the `catch` answers `{words: []}` | a model reply `{"words":[null]}`: that request and every same-key request for the next 30 minutes get `{words: []}` from memory, and no model is asked again | reject such a reply like one without words, so the next model is tried and only answerable lists are cached | medium; not executed | AnalyzeRoute.NullWordPoisonsCache | AnalyzeRoute.CheckedChainKeepsCacheNormalizable |
