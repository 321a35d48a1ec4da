/** The twelve parts of speech a word analysis may carry (lib/types.ts). */
module PartsOfSpeech {
  import opened Wrappers

  datatype PartOfSpeech =
    | Noun | Adjective | Verb | Adverb | Pronoun | Numeral
    | Preposition | Conjunction | Particle | Interjection | Participle | Gerund

  /** The lower-case tag under which a part of speech is written in JSON. */
  function Name(p: PartOfSpeech): string {
    match p
    case Noun => "noun"
    case Adjective => "adjective"
    case Verb => "verb"
    case Adverb => "adverb"
    case Pronoun => "pronoun"
    case Numeral => "numeral"
    case Preposition => "preposition"
    case Conjunction => "conjunction"
    case Particle => "particle"
    case Interjection => "interjection"
    case Participle => "participle"
    case Gerund => "gerund"
  }

  /** Membership in the twelve-tag set, read back as the part of speech it names. */
  function Parse(tag: string): (r: Option<PartOfSpeech>)
    ensures r.Some? ==> Name(r.value) == tag
  {
    match tag
    case "noun" => Some(Noun)
    case "adjective" => Some(Adjective)
    case "verb" => Some(Verb)
    case "adverb" => Some(Adverb)
    case "pronoun" => Some(Pronoun)
    case "numeral" => Some(Numeral)
    case "preposition" => Some(Preposition)
    case "conjunction" => Some(Conjunction)
    case "particle" => Some(Particle)
    case "interjection" => Some(Interjection)
    case "participle" => Some(Participle)
    case "gerund" => Some(Gerund)
    case _ => None
  }

  /** Every tag in the set is recognised: `Parse` inverts `Name`. */
  lemma ParseName(p: PartOfSpeech)
    ensures Parse(Name(p)) == Some(p)
  {
  }

  /** The set has exactly twelve members, all with distinct names. */
  lemma NameInjective(p: PartOfSpeech, q: PartOfSpeech)
    requires Name(p) == Name(q)
    ensures p == q
  {
    ParseName(p);
    ParseName(q);
  }
}
