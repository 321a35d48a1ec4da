/** The search filter and the count label of components/dictionary/word-list.tsx. */
module WordList {
  import opened Seqs
  import opened Text
  import opened Js
  import opened DictionaryHook

  /** An entry matches when its word or its translation contains the search, ignoring case. */
  predicate MatchesSearch(e: DictionaryEntry, search: string) {
    Contains(Lower(e.sourceWord), Lower(search)) || Contains(Lower(e.translation), Lower(search))
  }

  /** The entries shown for a search text. */
  function Filtered(entries: seq<DictionaryEntry>, search: string): seq<DictionaryEntry> {
    Filter(entries, (e: DictionaryEntry) => MatchesSearch(e, search))
  }

  /** The shown entries are the matching entries, in the dictionary's order. */
  lemma FilteredSpec(entries: seq<DictionaryEntry>, search: string)
    ensures IsSubsequence(Filtered(entries, search), entries)
    ensures forall i :: 0 <= i < |Filtered(entries, search)| ==> MatchesSearch(Filtered(entries, search)[i], search)
    ensures forall i :: 0 <= i < |entries| && MatchesSearch(entries[i], search) ==> entries[i] in Filtered(entries, search)
  {
    FilterIsSubsequence(entries, (e: DictionaryEntry) => MatchesSearch(e, search));
  }

  /** An empty search shows every entry. */
  lemma EmptySearchShowsAll(entries: seq<DictionaryEntry>)
    ensures Filtered(entries, "") == entries
  {
    forall i | 0 <= i < |entries| ensures MatchesSearch(entries[i], "") {
      ContainsEmpty(Lower(entries[i].sourceWord));
    }
    FilterKeepsAll(entries, (e: DictionaryEntry) => MatchesSearch(e, ""));
  }

  /** Searching the shown entries again for the same text shows the same entries. */
  lemma FilteredIdempotent(entries: seq<DictionaryEntry>, search: string)
    ensures Filtered(Filtered(entries, search), search) == Filtered(entries, search)
  {
    FilterIdempotent(entries, (e: DictionaryEntry) => MatchesSearch(e, search));
  }

  /** The label above the list: "1 word", otherwise "<n> words". */
  function CountLabel(n: nat): (caption: string)
    ensures caption == NatToString(n) + " word" || caption == NatToString(n) + " words"
    ensures caption[|caption| - 1] == 's' <==> n != 1
  {
    NatToString(n) + " word" + (if n != 1 then "s" else "")
  }
}
