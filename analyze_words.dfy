/**
 * The pure helpers of app/api/analyze/route.ts: the memory-cache key, the
 * normalisation of one analysed word, and the shared word cache's row shapes
 * (reassembly on a hit, the rows stored after a model answer).
 */
module AnalyzeWords {
  import opened Wrappers
  import opened Js
  import opened Text
  import opened PartsOfSpeech
  import opened Tokenizer
  import opened AnalysisCache

  /** `getCacheKey(translatedText, targetLang, uiLang)`. */
  function CacheKey(translatedText: string, targetLang: string, uiLang: string): (key: string)
    ensures HasPrefix(key, targetLang + ":" + uiLang + ":")
    ensures key != ""
  {
    targetLang + ":" + uiLang + ":" + Lower(Trim(translatedText))
  }

  /** Texts that lower-case alike get the same key, whatever their case and surrounding whitespace. */
  lemma CacheKeyIgnoresCase(a: string, b: string, targetLang: string, uiLang: string)
    requires Lower(a) == Lower(b)
    ensures CacheKey(a, targetLang, uiLang) == CacheKey(b, targetLang, uiLang)
  {
    LowerTrimCommute(a);
    LowerTrimCommute(b);
  }

  /** Upper-casing the text does not change its key. */
  lemma CacheKeyOfUpper(text: string, targetLang: string, uiLang: string)
    ensures CacheKey(Upper(text), targetLang, uiLang) == CacheKey(text, targetLang, uiLang)
  {
    LowerOfUpper(text);
    CacheKeyIgnoresCase(Upper(text), text, targetLang, uiLang);
  }

  /** Whitespace around the text does not change its key. */
  lemma CacheKeyIgnoresPadding(pre: string, text: string, post: string, targetLang: string, uiLang: string)
    requires AllSpace(pre) && AllSpace(post)
    ensures CacheKey(pre + text + post, targetLang, uiLang) == CacheKey(text, targetLang, uiLang)
  {
    TrimIgnoresPadding(pre, text, post);
  }

  predicate NoColon(s: string) {
    forall i :: 0 <= i < |s| ==> s[i] != ':'
  }

  lemma ColonSplit(a: string, rest: string)
    requires NoColon(a)
    ensures IndexOf(a + ":" + rest, ":") == Some(|a|)
  {
    var s := a + ":" + rest;
    assert s[|a|] == ':';
    assert s[|a|..][..1] == ":";
    assert HasPrefix(s[|a|..], ":");
    forall k | 0 <= k < |a| ensures !HasPrefix(s[k..], ":") {
      assert s[k..][0] == a[k];
    }
  }

  /** A colon-free head is recovered from the text before the first `:`. */
  lemma ColonHeadUnique(a1: string, r1: string, a2: string, r2: string)
    requires NoColon(a1) && NoColon(a2) && a1 + ":" + r1 == a2 + ":" + r2
    ensures a1 == a2 && r1 == r2
  {
    var s := a1 + ":" + r1;
    ColonSplit(a1, r1);
    ColonSplit(a2, r2);
    assert a1 == s[..|a1|] == a2;
    assert r1 == s[|a1| + 1..] == r2;
  }

  lemma KeyPartsUnique(target1: string, ui1: string, r1: string, target2: string, ui2: string, r2: string)
    requires NoColon(target1) && NoColon(ui1) && NoColon(target2) && NoColon(ui2)
    requires target1 + ":" + ui1 + ":" + r1 == target2 + ":" + ui2 + ":" + r2
    ensures target1 == target2 && ui1 == ui2 && r1 == r2
  {
    assert target1 + ":" + ui1 + ":" + r1 == target1 + ":" + (ui1 + ":" + r1);
    assert target2 + ":" + ui2 + ":" + r2 == target2 + ":" + (ui2 + ":" + r2);
    ColonHeadUnique(target1, ui1 + ":" + r1, target2, ui2 + ":" + r2);
    ColonHeadUnique(ui1, r1, ui2, r2);
  }

  /** Languages without `:` are recovered from the key: different languages never share a key. */
  lemma CacheKeyInjective(t1: string, target1: string, ui1: string, t2: string, target2: string, ui2: string)
    requires NoColon(target1) && NoColon(ui1) && NoColon(target2) && NoColon(ui2)
    requires CacheKey(t1, target1, ui1) == CacheKey(t2, target2, ui2)
    ensures target1 == target2 && ui1 == ui2 && Lower(Trim(t1)) == Lower(Trim(t2))
  {
    KeyPartsUnique(target1, ui1, Lower(Trim(t1)), target2, ui2, Lower(Trim(t2)));
  }

  /** A separator of a compound part-of-speech tag: `+`, `/`, `,` or whitespace. */
  predicate IsPosSeparator(c: char) {
    c == '+' || c == '/' || c == ',' || IsSpace(c)
  }

  /** `parts.find(p => VALID_POS.has(p)) || 'noun'`. */
  function FirstValid(parts: seq<string>): (p: PartOfSpeech)
    ensures p == Noun || Name(p) in parts
  {
    if parts == [] then Noun
    else match Parse(parts[0])
      case Some(p) => p
      case None => FirstValid(parts[1..])
  }

  /** `find` stops at the first valid part: the parts before it are all invalid. */
  lemma {:induction false} FirstValidIsFirst(parts: seq<string>, i: nat)
    requires i < |parts| && Parse(parts[i]).Some?
    requires forall j :: 0 <= j < i ==> Parse(parts[j]).None?
    ensures FirstValid(parts) == Parse(parts[i]).value
    decreases i
  {
    if i > 0 {
      FirstValidIsFirst(parts[1..], i - 1);
    }
  }

  /** Without a valid part, `find` yields nothing and the fallback is noun. */
  lemma {:induction false} FirstValidNone(parts: seq<string>)
    requires forall j :: 0 <= j < |parts| ==> Parse(parts[j]).None?
    ensures FirstValid(parts) == Noun
    decreases |parts|
  {
    if parts != [] {
      FirstValidNone(parts[1..]);
    }
  }

  /** The part of speech of a lower-cased, trimmed tag: the tag itself when valid, else its first valid part, else noun. */
  function NormalizeTag(tag: string): (p: PartOfSpeech)
    ensures Parse(tag).Some? ==> p == Parse(tag).value
  {
    match Parse(tag)
    case Some(p) => p
    case None => FirstValid(SplitBy(tag, IsPosSeparator))
  }

  /** The result is noun, the tag itself, or one of its separator-delimited parts. */
  lemma NormalizeTagOrigin(tag: string)
    ensures var p := NormalizeTag(tag);
      p == Noun || Name(p) == tag || Name(p) in SplitBy(tag, IsPosSeparator)
  {
  }

  /** The tag `normalizeWord` starts from: `String(pos || 'noun')`, lower-cased and trimmed. */
  function PosTag(pos: Value): string {
    Trim(Lower(StrOr(pos, "noun")))
  }

  /**
   * The part of speech `normalizeWord` assigns. Splitting on single
   * separators keeps empty parts, which are never valid, so this agrees with
   * the source's split on runs of separators.
   */
  function NormalizePos(pos: Value): PartOfSpeech {
    NormalizeTag(PosTag(pos))
  }

  /** A tag already in lower case and without surrounding whitespace is its own `PosTag`. */
  lemma PosTagOfPlain(tag: string)
    requires tag != "" && Lower(tag) == tag && !IsSpace(tag[0]) && !IsSpace(tag[|tag| - 1])
    ensures PosTag(Str(tag)) == tag
  {
  }

  /** A valid tag is kept: normalising a part of speech's own name gives it back. */
  lemma NormalizePosOfName(p: PartOfSpeech)
    ensures NormalizePos(Str(Name(p))) == p
  {
    NameIsPlain(p);
    PosTagOfPlain(Name(p));
    ParseName(p);
  }

  /** A tag of the set is already lower-cased and has no surrounding whitespace. */
  lemma NameIsPlain(p: PartOfSpeech)
    ensures Name(p) != "" && Lower(Name(p)) == Name(p)
    ensures !IsSpace(Name(p)[0]) && !IsSpace(Name(p)[|Name(p)| - 1])
  {
    var n := Name(p);
    NameHasNoSeparator(p);
    assert |n| >= 4;
    forall i | 0 <= i < |n| ensures Lower(n)[i] == n[i] {
    }
  }

  /** A missing or empty tag is a noun. */
  lemma NormalizePosMissing(pos: Value)
    requires !Truthy(pos)
    ensures NormalizePos(pos) == Noun
  {
    assert Lower("noun") == "noun";
    PosTagOfPlain("noun");
    ParseName(Noun);
  }

  /** The case of the model's tag does not matter. */
  lemma NormalizePosIgnoresCase(tag: string)
    ensures NormalizePos(Str(Upper(tag))) == NormalizePos(Str(tag))
  {
    LowerOfUpper(tag);
  }

  /** Every tag of the set is spelt in the letters `a` to `z`, so none holds a separator. */
  lemma NameHasNoSeparator(p: PartOfSpeech)
    ensures forall i :: 0 <= i < |Name(p)| ==> 'a' <= Name(p)[i] <= 'z' && !IsPosSeparator(Name(p)[i])
  {
  }

  /** A tag of the set holds no separator. */
  lemma ValidTagHasNoSeparator(tag: string)
    ensures Parse(tag).Some? ==> forall i :: 0 <= i < |tag| ==> !IsPosSeparator(tag[i])
  {
    if Parse(tag).Some? {
      NameHasNoSeparator(Parse(tag).value);
    }
  }

  /**
   * A compound tag takes its first part when that part is valid: `pronoun+verb`
   * is a pronoun, `verb/noun` a verb.
   */
  lemma CompoundTagTakesFirstValidPart(p: PartOfSpeech, sep: char, rest: string)
    requires IsPosSeparator(sep)
    ensures NormalizeTag(Name(p) + [sep] + rest) == p
  {
    var tag := Name(p) + [sep] + rest;
    NameHasNoSeparator(p);
    ValidTagHasNoSeparator(tag);
    assert tag[|Name(p)|] == sep;
    SplitBySingle(Name(p), IsPosSeparator);
    SplitByJoin(Name(p), sep, rest, IsPosSeparator);
    ParseName(p);
    FirstValidIsFirst(SplitBy(tag, IsPosSeparator), 0);
  }

  /**
   * A tag that is not in the set takes its first valid part, wherever that
   * part stands: every part before it is invalid.
   */
  lemma NormalizeTagFirstValidPart(tag: string, i: nat)
    requires Parse(tag).None?
    requires i < |SplitBy(tag, IsPosSeparator)| && Parse(SplitBy(tag, IsPosSeparator)[i]).Some?
    requires forall j :: 0 <= j < i ==> Parse(SplitBy(tag, IsPosSeparator)[j]).None?
    ensures NormalizeTag(tag) == Parse(SplitBy(tag, IsPosSeparator)[i]).value
  {
    FirstValidIsFirst(SplitBy(tag, IsPosSeparator), i);
  }

  /** A tag that is not in the set and none of whose parts is in it becomes a noun. */
  lemma UnknownTagIsNoun(tag: string)
    requires Parse(tag).None?
    requires forall k :: 0 <= k < |SplitBy(tag, IsPosSeparator)| ==> Parse(SplitBy(tag, IsPosSeparator)[k]).None?
    ensures NormalizeTag(tag) == Noun
  {
    FirstValidNone(SplitBy(tag, IsPosSeparator));
  }

  /** A word as the route returns it. */
  datatype Word = Word(
    id: Value, original: string, translation: string, pos: PartOfSpeech,
    grammar: string, definition: string, example: string, explanation: string)

  /** The id a word without one receives at index `i`: `w{i+1}`. */
  function PositionalId(i: nat): string {
    "w" + NatToString(i + 1)
  }

  /** `null` or `undefined`: reading a property of it throws a `TypeError`. */
  predicate Nullish(w: RawWord) {
    w.Other? && (w.value.Undefined? || w.value.Null?)
  }

  /** `w.key` on an element that is not nullish: the object's field, and `undefined` on any other value. */
  function Prop(w: RawWord, key: string): Value {
    if w.Object? then Get(w.fields, key) else Undefined
  }

  /**
   * `normalizeWord(w, i)`; `None` when it throws. Each text field is
   * `String(w.f || '')`: the rendering of a truthy value, else `''`.
   */
  function NormalizeWord(w: RawWord, i: nat): (r: Option<Word>)
    ensures r.None? <==> Nullish(w)
    ensures r.Some? ==> r.value.pos == NormalizePos(Prop(w, "pos"))
    ensures r.Some? && Truthy(Prop(w, "id")) ==> r.value.id == Prop(w, "id")
    ensures r.Some? && !Truthy(Prop(w, "id")) ==> r.value.id == Str(PositionalId(i))
    ensures r.Some? ==> r.value.original == (if Truthy(Prop(w, "original")) then ToStr(Prop(w, "original")) else "")
    ensures r.Some? ==> r.value.translation == (if Truthy(Prop(w, "translation")) then ToStr(Prop(w, "translation")) else "")
    ensures r.Some? ==> r.value.grammar == (if Truthy(Prop(w, "grammar")) then ToStr(Prop(w, "grammar")) else "")
    ensures r.Some? ==> r.value.definition == (if Truthy(Prop(w, "definition")) then ToStr(Prop(w, "definition")) else "")
    ensures r.Some? ==> r.value.example == (if Truthy(Prop(w, "example")) then ToStr(Prop(w, "example")) else "")
    ensures r.Some? ==> r.value.explanation == (if Truthy(Prop(w, "explanation")) then ToStr(Prop(w, "explanation")) else "")
    ensures Prop(w, "translation").Str? ==> r.Some? && r.value.translation == Prop(w, "translation").s
  {
    if Nullish(w) then None
    else Some(Word(
      Or(Prop(w, "id"), Str(PositionalId(i))),
      StrOr(Prop(w, "original"), ""),
      StrOr(Prop(w, "translation"), ""),
      NormalizePos(Prop(w, "pos")),
      StrOr(Prop(w, "grammar"), ""),
      StrOr(Prop(w, "definition"), ""),
      StrOr(Prop(w, "example"), ""),
      StrOr(Prop(w, "explanation"), "")))
  }

  /** No element of the list is `null` or `undefined`. */
  predicate Normalizable(ws: seq<RawWord>) {
    forall i :: 0 <= i < |ws| ==> !Nullish(ws[i])
  }

  /**
   * `words.map((w, i) => normalizeWord(w, i))`; `None` when it throws, which
   * it does exactly when some element is `null` or `undefined`.
   */
  function NormalizeAll(ws: seq<RawWord>): (r: Option<seq<Word>>)
    ensures r.None? <==> !Normalizable(ws)
    ensures r.Some? ==> |r.value| == |ws| && forall i :: 0 <= i < |ws| ==> NormalizeWord(ws[i], i) == Some(r.value[i])
  {
    if Normalizable(ws) then Some(seq(|ws|, i requires 0 <= i < |ws| => NormalizeWord(ws[i], i).value)) else None
  }

  /** Words without ids get pairwise distinct positional ids. */
  lemma PositionalIdsDistinct(ws: seq<RawWord>, i: nat, j: nat)
    requires i < j < |ws| && !Truthy(Prop(ws[i], "id")) && !Truthy(Prop(ws[j], "id"))
    ensures NormalizeAll(ws).Some? ==> NormalizeAll(ws).value[i].id != NormalizeAll(ws).value[j].id
  {
    if PositionalId(i) == PositionalId(j) {
      assert NatToString(i + 1) == PositionalId(i)[1..] == PositionalId(j)[1..] == NatToString(j + 1);
      NatToStringInjective(i + 1, j + 1);
    }
  }

  /** A row of the shared word cache, as read back. */
  datatype CachedWord = CachedWord(wordLower: string, pos: string, grammar: string, definition: string, example: string)

  /** Every distinct lower-cased word of the text has a row: the all-or-nothing rule for a shared-cache hit. */
  predicate AllCached(wordLowers: seq<string>, rows: map<string, CachedWord>) {
    forall i :: 0 <= i < |wordLowers| ==> wordLowers[i] in rows
  }

  function Lowers(tokens: seq<Token>): (r: seq<string>)
    ensures |r| == |tokens|
    ensures forall i :: 0 <= i < |tokens| ==> r[i] == tokens[i].lower
  {
    seq(|tokens|, i requires 0 <= i < |tokens| => tokens[i].lower)
  }

  /** `[...new Set(textWords.map(w => w.lower))]`. */
  function DistinctLowers(tokens: seq<Token>): (r: seq<string>)
    ensures forall i, j :: 0 <= i < j < |r| ==> r[i] != r[j]
    ensures (r == []) == (tokens == [])
  {
    var lowers := Lowers(tokens);
    var r := Seqs.Dedup(lowers);
    assert tokens != [] ==> lowers[0] in r;
    r
  }

  /** Checking the distinct words is checking every word of the text. */
  lemma AllCachedCoversEveryToken(tokens: seq<Token>, rows: map<string, CachedWord>)
    ensures AllCached(DistinctLowers(tokens), rows) <==> forall i :: 0 <= i < |tokens| ==> tokens[i].lower in rows
  {
    var lowers := Lowers(tokens);
    var d := DistinctLowers(tokens);
    assert d == Seqs.Dedup(lowers);
    if AllCached(d, rows) {
      forall i | 0 <= i < |tokens| ensures tokens[i].lower in rows {
        assert lowers[i] in d;
      }
    }
    if forall i :: 0 <= i < |tokens| ==> tokens[i].lower in rows {
      forall k | 0 <= k < |d| ensures d[k] in rows {
        assert d[k] in lowers;
      }
    }
  }

  /** The `{id, original, translation, pos, grammar, definition, example}` object built for text word `i` on a shared-cache hit. */
  function SharedCacheWord(i: nat, original: string, translation: string, row: CachedWord): RawWord {
    Object(map[
      "id" := Str(PositionalId(i)),
      "original" := Str(original),
      "translation" := Str(translation),
      "pos" := Str(row.pos),
      "grammar" := Str(row.grammar),
      "definition" := Str(row.definition),
      "example" := Str(row.example)])
  }

  /** `sourceWords[i]?.raw || ''`. */
  function SourceRawAt(sourceWords: seq<Token>, i: nat): string {
    if i < |sourceWords| then sourceWords[i].raw else ""
  }

  /** The word list rebuilt from the shared cache, in the order of the text's words. */
  function BuildFromSharedCache(textWords: seq<Token>, sourceWords: seq<Token>, rows: map<string, CachedWord>): (r: seq<RawWord>)
    requires forall i :: 0 <= i < |textWords| ==> textWords[i].lower in rows
    ensures |r| == |textWords|
  {
    seq(|textWords|, i requires 0 <= i < |textWords| =>
      SharedCacheWord(i, SourceRawAt(sourceWords, i), textWords[i].raw, rows[textWords[i].lower]))
  }

  /** The fields of a rebuilt word, as `normalizeWord` reads them. */
  lemma SharedCacheWordFields(i: nat, original: string, translation: string, row: CachedWord)
    ensures var w := SharedCacheWord(i, original, translation, row);
      !Nullish(w)
      && Prop(w, "id") == Str(PositionalId(i)) && Prop(w, "original") == Str(original)
      && Prop(w, "translation") == Str(translation) && Prop(w, "pos") == Str(row.pos)
      && Prop(w, "grammar") == Str(row.grammar) && Prop(w, "definition") == Str(row.definition)
      && Prop(w, "example") == Str(row.example) && Prop(w, "explanation") == Undefined
  {
    var w := SharedCacheWord(i, original, translation, row);
    assert "explanation" !in w.fields;
  }

  /** One rebuilt word, normalised: the route's own id, both words, and the row's analysis with an empty explanation. */
  lemma SharedCacheWordNormalized(i: nat, original: string, translation: string, row: CachedWord)
    ensures NormalizeWord(SharedCacheWord(i, original, translation, row), i)
      == Some(Word(Str(PositionalId(i)), original, translation, NormalizePos(Str(row.pos)),
                   row.grammar, row.definition, row.example, ""))
  {
    SharedCacheWordFields(i, original, translation, row);
  }

  /**
   * What the caller receives on a shared-cache hit: word `i` has id `w{i+1}`,
   * the `i`-th word of the translation, the `i`-th word of the source or ''
   * when the source is shorter, and the row's analysis of its lower-cased form.
   */
  lemma SharedCacheHitWords(textWords: seq<Token>, sourceWords: seq<Token>, rows: map<string, CachedWord>)
    requires forall i :: 0 <= i < |textWords| ==> textWords[i].lower in rows
    ensures var r := NormalizeAll(BuildFromSharedCache(textWords, sourceWords, rows));
      r.Some? && |r.value| == |textWords|
      && forall i :: 0 <= i < |textWords| ==>
        var row := rows[textWords[i].lower];
        r.value[i] == Word(Str(PositionalId(i)), SourceRawAt(sourceWords, i), textWords[i].raw,
                           NormalizePos(Str(row.pos)), row.grammar, row.definition, row.example, "")
  {
    var built := BuildFromSharedCache(textWords, sourceWords, rows);
    forall i | 0 <= i < |built|
      ensures NormalizeWord(built[i], i) == Some(Word(Str(PositionalId(i)), SourceRawAt(sourceWords, i), textWords[i].raw,
                                                      NormalizePos(Str(rows[textWords[i].lower].pos)),
                                                      rows[textWords[i].lower].grammar, rows[textWords[i].lower].definition,
                                                      rows[textWords[i].lower].example, ""))
    {
      SharedCacheWordNormalized(i, SourceRawAt(sourceWords, i), textWords[i].raw, rows[textWords[i].lower]);
    }
  }

  /** A row sent to `upsert_word_analyses` after a model answer. */
  datatype StoredWord = StoredWord(wordLower: string, targetLang: string, uiLang: string, pos: string, grammar: string, definition: string, example: string)

  /** The row built from one model word, before the filter. */
  function StoredRow(w: RawWord, targetLang: string, uiLang: string): StoredWord {
    StoredWord(
      Lower(StrOr(Prop(w, "translation"), "")), targetLang, uiLang,
      Lower(StrOr(Prop(w, "pos"), "noun")),
      StrOr(Prop(w, "grammar"), ""), StrOr(Prop(w, "definition"), ""), StrOr(Prop(w, "example"), ""))
  }

  function RowsOf(ws: seq<RawWord>, targetLang: string, uiLang: string): (r: seq<StoredWord>)
    ensures |r| == |ws|
    ensures forall i :: 0 <= i < |ws| ==> r[i] == StoredRow(ws[i], targetLang, uiLang)
  {
    seq(|ws|, i requires 0 <= i < |ws| => StoredRow(ws[i], targetLang, uiLang))
  }

  predicate HasWordLower(row: StoredWord) {
    row.wordLower != ""
  }

  /** The payload of `storeCachedWords`: the rows with a non-empty `word_lower`, in the order of the words. */
  function StoredRows(ws: seq<RawWord>, targetLang: string, uiLang: string): seq<StoredWord> {
    Seqs.Filter(RowsOf(ws, targetLang, uiLang), HasWordLower)
  }

  /**
   * Every stored row is keyed, carries the request's languages and comes from
   * one of the words; every word whose translation is a non-empty string is
   * stored, under the lower-case of the translation the caller receives for it.
   */
  lemma StoredRowsSpec(ws: seq<RawWord>, targetLang: string, uiLang: string)
    ensures var r := StoredRows(ws, targetLang, uiLang);
      |r| <= |ws|
      && (forall k :: 0 <= k < |r| ==> r[k].wordLower != "" && r[k].targetLang == targetLang && r[k].uiLang == uiLang)
      && (forall k :: 0 <= k < |r| ==> r[k] in RowsOf(ws, targetLang, uiLang))
      && Seqs.IsSubsequence(r, RowsOf(ws, targetLang, uiLang))
    ensures forall i :: 0 <= i < |ws| && Prop(ws[i], "translation").Str? && Prop(ws[i], "translation").s != "" ==>
      StoredRow(ws[i], targetLang, uiLang) in StoredRows(ws, targetLang, uiLang)
      && NormalizeWord(ws[i], i).Some?
      && StoredRow(ws[i], targetLang, uiLang).wordLower == Lower(NormalizeWord(ws[i], i).value.translation)
  {
    var rows := RowsOf(ws, targetLang, uiLang);
    Seqs.FilterIsSubsequence(rows, HasWordLower);
    forall k | 0 <= k < |StoredRows(ws, targetLang, uiLang)|
      ensures StoredRows(ws, targetLang, uiLang)[k].targetLang == targetLang
      ensures StoredRows(ws, targetLang, uiLang)[k].uiLang == uiLang
    {
      var i :| 0 <= i < |rows| && rows[i] == StoredRows(ws, targetLang, uiLang)[k];
    }
    forall i | 0 <= i < |ws| && Prop(ws[i], "translation").Str? && Prop(ws[i], "translation").s != ""
      ensures HasWordLower(rows[i])
    {
    }
  }
}
