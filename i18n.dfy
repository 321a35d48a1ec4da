/** The translation lookup `t(locale, key)` of lib/i18n.ts, over an abstract string table. */
module I18n {

  datatype Locale = Uk | En | Ru | Es | Fr | De

  /** The string table: one key-to-text map per locale (the table's contents are not modelled). */
  type Catalog = Locale -> map<string, string>

  /** `table[key]` as JavaScript reads it, a missing key reading as the empty (falsy) string. */
  function Entry(table: map<string, string>, key: string): string {
    if key in table then table[key] else ""
  }

  /** The locale's text, else the English text, else the key itself. */
  function T(catalog: Catalog, locale: Locale, key: string): (r: string)
    ensures r == key
         || (key in catalog(locale) && r == catalog(locale)[key] && r != "")
         || (key in catalog(En) && r == catalog(En)[key] && r != "")
    ensures key != "" ==> r != ""
  {
    if Entry(catalog(locale), key) != "" then Entry(catalog(locale), key)
    else if Entry(catalog(En), key) != "" then Entry(catalog(En), key)
    else key
  }

  /** A present, non-empty translation in the requested locale always wins. */
  lemma TPrefersLocale(catalog: Catalog, locale: Locale, key: string)
    requires key in catalog(locale) && catalog(locale)[key] != ""
    ensures T(catalog, locale, key) == catalog(locale)[key]
  {
  }

  /** A locale that lacks the key (or maps it to "") answers as English does. */
  lemma TFallsBackToEnglish(catalog: Catalog, locale: Locale, key: string)
    requires Entry(catalog(locale), key) == ""
    ensures T(catalog, locale, key) == T(catalog, En, key)
  {
  }
}
