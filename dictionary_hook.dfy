/**
 * The client-side dictionary state of hooks/use-dictionary.ts: the list of
 * saved entries and a loading flag, replaced, prepended to or filtered as the
 * HTTP calls to the dictionary API come back. The HTTP calls themselves are
 * oracles: each method receives the outcome of its call.
 */
module DictionaryHook {
  import opened Wrappers
  import opened Seqs
  import opened PartsOfSpeech

  /** A saved word (the `DictionaryEntry` record of lib/types.ts). */
  datatype DictionaryEntry = DictionaryEntry(
    id: string,
    userId: string,
    sourceWord: string,
    translation: string,
    partOfSpeech: Option<PartOfSpeech>,
    explanation: Option<string>,
    sourceLang: Option<string>,
    targetLang: Option<string>,
    exampleSentence: Option<string>,
    createdAt: string)

  /** What a `fetch` gave back: an ok response with its decoded body, a non-ok status, or a throw. */
  datatype HttpResult<T> = Ok(body: T) | NotOk | Threw

  /** The list left after deleting `id`: the `prev.filter(e => e.id !== id)` update. */
  function WithoutId(entries: seq<DictionaryEntry>, id: string): seq<DictionaryEntry> {
    Filter(entries, (e: DictionaryEntry) => e.id != id)
  }

  /** Deleting removes every entry with the id and keeps every other entry, in order. */
  lemma WithoutIdSpec(entries: seq<DictionaryEntry>, id: string)
    ensures forall i :: 0 <= i < |WithoutId(entries, id)| ==> WithoutId(entries, id)[i].id != id
    ensures forall i :: 0 <= i < |entries| && entries[i].id != id ==> entries[i] in WithoutId(entries, id)
    ensures IsSubsequence(WithoutId(entries, id), entries)
  {
    FilterIsSubsequence(entries, (e: DictionaryEntry) => e.id != id);
  }

  /** Deleting an entry that was just added, under an id no older entry has, restores the old list. */
  lemma DeleteUndoesAdd(entries: seq<DictionaryEntry>, added: DictionaryEntry)
    requires forall i :: 0 <= i < |entries| ==> entries[i].id != added.id
    ensures WithoutId([added] + entries, added.id) == entries
  {
    var p := (e: DictionaryEntry) => e.id != added.id;
    assert ([added] + entries)[1..] == entries;
    FilterKeepsAll(entries, p);
  }

  class DictionaryState {
    var entries: seq<DictionaryEntry>
    var isLoading: bool

    /** The hook's initial state: no entries, loading. */
    constructor ()
      ensures entries == [] && isLoading
    {
      entries := [];
      isLoading := true;
    }

    /** `fetchEntries`: an ok response replaces the list; loading ends whatever happens. */
    method FetchEntries(response: HttpResult<seq<DictionaryEntry>>)
      modifies this
      ensures !isLoading
      ensures entries == if response.Ok? then response.body else old(entries)
    {
      isLoading := true;
      if response.Ok? {
        entries := response.body;
      }
      isLoading := false;
    }

    /** `addEntry`: an ok response puts the created entry in front and reports true. */
    method AddEntry(response: HttpResult<DictionaryEntry>) returns (added: bool)
      modifies this
      ensures added <==> response.Ok?
      ensures entries == if added then [response.body] + old(entries) else old(entries)
      ensures isLoading == old(isLoading)
    {
      match response
      case Ok(newEntry) =>
        entries := [newEntry] + entries;
        added := true;
      case NotOk =>
        added := false;
      case Threw =>
        added := false;
    }

    /** `deleteEntry`: an ok response drops every entry with the id and reports true. */
    method DeleteEntry(id: string, response: HttpResult<()>) returns (deleted: bool)
      modifies this
      ensures deleted <==> response.Ok?
      ensures entries == if deleted then WithoutId(old(entries), id) else old(entries)
      ensures isLoading == old(isLoading)
    {
      if response.Ok? {
        entries := WithoutId(entries, id);
        deleted := true;
      } else {
        deleted := false;
      }
    }
  }
}
