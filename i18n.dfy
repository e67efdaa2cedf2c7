/**
 The localizer: a registry from language code to gettext catalog, a current
 language, and lookups that consult the catalog of the current language,
 falling back to the key itself when that language has no catalog.
 */
module I18n {
  import opened Fmt
  import opened Gettext

  /** Language code to the catalog registered for it. */
  type Registry = map<string, Catalog>

  /**
   What one call works on: the registry and the current language as loaded
   when the call starts. Readers never look at the localizer again after that.
   */
  datatype Snapshot = Snapshot(intlMap: Registry, lang: string)

  /** Every registered catalog has the language it is registered under selected. */
  ghost predicate Bound(m: Registry)
  {
    forall k :: k in m ==> m[k].language == k
  }

  /** Whether a catalog is registered for `lang`. */
  function Exists(s: Snapshot, lang: string): bool
  {
    lang in s.intlMap
  }

  /** Translate `orig` with the current language's catalog, or return it unchanged. */
  function T(s: Snapshot, orig: string): (r: string)
    ensures !Exists(s, s.lang) ==> r == orig
    ensures Bound(s.intlMap) && Exists(s, s.lang) ==> r == s.intlMap[s.lang].singular(s.lang, "", orig)
  {
    if s.lang !in s.intlMap then orig else PGettext(s.intlMap[s.lang], "", orig)
  }

  /** The plural key derived from a singular key. */
  function PluralKey(orig: string): (k: string)
    ensures |k| == |orig| + 7 && k[..|orig|] == orig
    ensures k[|orig|..] == ".plural"
  {
    orig + ".plural"
  }

  /**
   Translate `orig`; with a count in `args`, use the plural lookup with key
   `orig + ".plural"` and substitute the count into the template.
   */
  function N(s: Snapshot, orig: string, args: seq<int>, sprintf: Sprintf): (r: string)
    ensures !Exists(s, s.lang) ==> r == orig
    ensures |args| == 0 ==> r == T(s, orig)
    ensures Bound(s.intlMap) && Exists(s, s.lang) && |args| > 0 ==>
      r == sprintf(s.intlMap[s.lang].plural(s.lang, "", orig, PluralKey(orig), args[0]), [Int(args[0])])
  {
    if s.lang !in s.intlMap then orig
    else if |args| == 0 then PGettext(s.intlMap[s.lang], "", orig)
    else sprintf(PNGettext(s.intlMap[s.lang], "", orig, PluralKey(orig), args[0]), [Int(args[0])])
  }

  /** Translate `defaultValue` and use the translation as a format template for `args`. */
  function Tf(s: Snapshot, defaultValue: string, args: seq<Arg>, sprintf: Sprintf): (r: string)
    ensures !Exists(s, s.lang) ==> r == sprintf(defaultValue, args)
    ensures Bound(s.intlMap) && Exists(s, s.lang) ==>
      r == sprintf(s.intlMap[s.lang].singular(s.lang, "", defaultValue), args)
  {
    sprintf(T(s, defaultValue), args)
  }

  /** Like Tf, but the formatted translation becomes an error value. */
  function ErrorT(s: Snapshot, defaultValue: string, args: seq<Arg>, sprintf: Sprintf): (e: Error)
    ensures e.message == Tf(s, defaultValue, args, sprintf)
    ensures !Exists(s, s.lang) ==> e.message == sprintf(defaultValue, args)
  {
    Errorf(sprintf, T(s, defaultValue), args)
  }

  /** The state changes a localizer goes through after construction. */
  datatype Op =
    | SetLanguageOp(lang: string)
    | AppendIntlOp(lang: string, intl: Catalog)

  /** The state right after construction. */
  function Init(lang: string, intl: Catalog): (s: Snapshot)
    ensures s.intlMap.Keys == {lang} && s.intlMap[lang] == intl
    ensures s.lang == lang && Exists(s, lang)
  {
    Snapshot(map[lang := intl], lang)
  }

  /** The effect of one state change. */
  function Step(s: Snapshot, op: Op): (r: Snapshot)
    ensures op.SetLanguageOp? ==> r.lang == op.lang && r.intlMap == s.intlMap
    ensures op.AppendIntlOp? ==> r.lang == s.lang
    ensures op.AppendIntlOp? ==> r.intlMap.Keys == s.intlMap.Keys + {op.lang} && r.intlMap[op.lang] == op.intl
    ensures op.AppendIntlOp? ==>
      forall k :: k in s.intlMap && k != op.lang ==> r.intlMap[k] == s.intlMap[k]
  {
    match op
    case SetLanguageOp(x) => s.(lang := x)
    case AppendIntlOp(x, c) => s.(intlMap := s.intlMap[x := c])
  }

  /**
   Copy-on-write insert: copy every entry of `m` into a new map, then put
   `intl` under `lang`. The key count goes from |m| to |m| or |m| + 1.
   */
  method CopyOnWrite(m: Registry, lang: string, intl: Catalog) returns (newMap: Registry)
    ensures newMap.Keys == m.Keys + {lang} && newMap[lang] == intl
    ensures forall k :: k in m && k != lang ==> newMap[k] == m[k]
    ensures |newMap| == if lang in m then |m| else |m| + 1
  {
    newMap := map[];
    var todo := m.Keys;
    while todo != {}
      invariant todo <= m.Keys
      invariant newMap.Keys == m.Keys - todo
      invariant forall k :: k in newMap ==> newMap[k] == m[k]
      decreases todo
    {
      var k :| k in todo;
      newMap := newMap[k := m[k]];
      todo := todo - {k};
    }
    assert newMap == m;
    newMap := newMap[lang := intl];
  }

  /** A localizer: the registry and the current language, both replaced wholesale. */
  class Localizer {
    var intlMap: Registry
    var lang: string

    /** Load both fields, as a reader does at the start of a call. */
    function Load(): Snapshot
      reads this
    {
      Snapshot(intlMap, lang)
    }

    ghost predicate Valid()
      reads this
    {
      Bound(intlMap)
    }

    /** Build a catalog for `lang` and make it the only entry and the current language. */
    constructor (lang: string, domain: string, path: string, data: Data, engine: Engine)
      ensures Valid()
      ensures Load() == Init(lang, New(engine, domain, path, data, lang))
      ensures intlMap.Keys == {lang} && this.lang == lang && Exists(Load(), lang)
    {
      var intl := New(engine, domain, path, data, lang);
      intlMap := map[lang := intl];
      this.lang := lang;
    }

    /** Make `lang` current, registered or not; the registry is left alone. */
    method SetLanguage(lang: string)
      modifies this`lang
      ensures Load() == Step(old(Load()), SetLanguageOp(lang))
      ensures this.lang == lang && intlMap == old(intlMap)
      ensures old(Valid()) ==> Valid()
    {
      this.lang := lang;
    }

    /**
     Build a catalog for `lang` and publish a new registry that is the old one
     with `lang` mapped to it; the current language is left alone.
     */
    method AppendIntl(lang: string, domain: string, path: string, data: Data, engine: Engine)
      modifies this`intlMap
      ensures Load() == Step(old(Load()), AppendIntlOp(lang, New(engine, domain, path, data, lang)))
      ensures intlMap.Keys == old(intlMap).Keys + {lang}
      ensures intlMap[lang] == New(engine, domain, path, data, lang)
      ensures forall k :: k in old(intlMap) && k != lang ==> intlMap[k] == old(intlMap)[k]
      ensures this.lang == old(this.lang)
      ensures old(Valid()) ==> Valid()
    {
      var intl := New(engine, domain, path, data, lang);
      var m := intlMap;
      var newMap := CopyOnWrite(m, lang, intl);
      intlMap := newMap;
    }
  }
}
