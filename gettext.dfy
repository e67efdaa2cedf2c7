/**
 The gettext engine the localizer delegates to. Its file format, plural
 rules and fallbacks are not modelled: a catalog is a value whose singular and
 plural lookups are uninterpreted functions of the catalog's language,
 the context and the keys.
 */
module Gettext {

  /** The catalog source handed to gettext.New (an embedded file system, a directory, raw bytes). */
  type Data

  /**
   A gettext instance. `language` is the language last selected on it;
   `singular(language, ctx, key)` and `plural(language, ctx, key, pluralKey, n)`
   are its PGettext and PNGettext lookups.
   */
  datatype Catalog = Catalog(
    language: string,
    singular: (string, string, string) -> string,
    plural: (string, string, string, string, int) -> string)

  /** gettext.New(domain, path, data): builds a catalog from its source. */
  type Engine = (string, string, Data) -> Catalog

  /** Gettexter.SetLanguage: selects the language, keeps the lookups. */
  function SetLanguage(c: Catalog, lang: string): (r: Catalog)
    ensures r.language == lang
    ensures r.singular == c.singular && r.plural == c.plural
  {
    c.(language := lang)
  }

  /** Build a catalog and select `lang` on it, as the localizer does before registering it. */
  function New(engine: Engine, domain: string, path: string, data: Data, lang: string): (c: Catalog)
    ensures c.language == lang
    ensures c.singular == engine(domain, path, data).singular
    ensures c.plural == engine(domain, path, data).plural
  {
    SetLanguage(engine(domain, path, data), lang)
  }

  /** Gettexter.PGettext: singular lookup in the catalog's selected language. */
  function PGettext(c: Catalog, ctx: string, key: string): string
  {
    c.singular(c.language, ctx, key)
  }

  /** Gettexter.PNGettext: plural lookup in the catalog's selected language. */
  function PNGettext(c: Catalog, ctx: string, key: string, pluralKey: string, n: int): string
  {
    c.plural(c.language, ctx, key, pluralKey, n)
  }
}
