# Localizer registry model

A Dafny model of the `Localizer` of the `i18n` package (`pkg/i18n/i18n.go`).
A localizer keeps a registry that maps a language code to a gettext catalog.
It also keeps a current language. Lookups (`T`, `N`, `Tf`, `ErrorT`) use the catalog of the current language.
When the current language has no catalog, `T` and `N` return the key unchanged; `Tf` formats the key itself with its arguments, and `ErrorT` wraps that formatted key as an error.
New catalogs are added copy-on-write: the registry is copied into a new map, the new entry is put in, and the new map replaces the old one.

Files:

- `gettext.dfy` (module `Gettext`): the catalog engine, treated as foreign code. A `Catalog` is a value with a selected `language` and two uninterpreted lookups, `singular` (PGettext) and `plural` (PNGettext). `Engine` stands for `gettext.New(domain, path, data)` and is passed in as a parameter. `New` builds a catalog and selects a language on it.
- `fmt.dfy` (module `Fmt`): `Sprintf` is an uninterpreted formatter passed in as a parameter. `Errorf` wraps the formatted message as an `Error`.
- `i18n.dfy` (module `I18n`): the localizer.
  - Readers work on a `Snapshot`, the registry and the current language as loaded at the start of a call. `Localizer.Load()` gives that snapshot.
  - `Step` is the state machine of the two mutators.
  - `CopyOnWrite` is the copy loop of `AppendIntl`.
  - The class `Localizer` has the fields `intlMap` and `lang`. Its methods are proved against `Step`. They keep the invariant `Valid()`: every registered catalog has its own registry key selected as its language.
- `properties.dfy` (module `Properties`): `Run` applies any sequence of state changes. Lemmas state which languages exist afterwards, which catalog each language holds, which language is current and what `T` returns.
- `wrappers.dfy`: `Option`.

## Model

| member | source | states |
|---|---|---|
| Gettext.New | pkg/i18n/i18n.go:28-29 | the catalog registered for a language is the one the engine built from `(domain, path, data)`, with the same singular and plural lookups, and with that language selected |
| I18n.Init | pkg/i18n/i18n.go:31-36 | after construction, the registry has exactly one key, `lang`, that key maps to the new catalog, the current language is `lang`, and `lang` exists |
| I18n.Localizer.constructor | pkg/i18n/i18n.go:27-38 | the new localizer's state is `Init(lang, New(...))`: the only key is `lang`, `lang` is current and `Exists(lang)` holds; the registry invariant holds |
| I18n.Step | pkg/i18n/i18n.go:41-63 | a language switch sets the current language and leaves the registry unchanged; an append leaves the language alone, adds `lang` to the key set, maps it to the new catalog (overwriting), and keeps every other entry |
| I18n.Localizer.SetLanguage | pkg/i18n/i18n.go:41-43 | the current language becomes `lang`, registered or not; the registry is unchanged; the new state is `Step` of the old one; the invariant is kept |
| I18n.CopyOnWrite | pkg/i18n/i18n.go:55-60 | the copy loop plus insert gives the old keys plus `lang`, maps `lang` to the new catalog, and keeps every other old entry; the key count goes from `len(m)` to `len(m)` or `len(m)+1` |
| I18n.Localizer.AppendIntl | pkg/i18n/i18n.go:51-63 | the new registry is the old one with `lang` mapped to the new catalog; other entries are kept, the key set only grows, and the current language is untouched; the new state is `Step` of the old one; the invariant is kept |
| I18n.T | pkg/i18n/i18n.go:67-75 | with no catalog for the current language it returns the key unchanged; otherwise it returns the singular lookup of the empty context and the key in the current language |
| I18n.PluralKey | pkg/i18n/i18n.go:90 | the plural key is the singular key followed by the seven characters `.plural` |
| I18n.N | pkg/i18n/i18n.go:80-91 | an unregistered current language gives the key unchanged, with no `.plural` suffix even when a count is given; with no count, `N` equals `T`; with a count, it formats the plural lookup of (`""`, key, key + `.plural`, `args[0]`) with `args[0]` |
| I18n.Tf | pkg/i18n/i18n.go:101-103 | formats the untranslated key when the current language is unregistered; otherwise formats the singular lookup in the current language |
| I18n.ErrorT | pkg/i18n/i18n.go:97-99 | the error's message is exactly what `Tf` returns for the same arguments; for an unregistered language, it is the formatted key |
| Properties.RunKeys | pkg/i18n/i18n.go:51-63 | after any sequence of switches and appends, the registered languages are the earlier ones plus every appended language |
| Properties.ExistsAfterRun | pkg/i18n/i18n.go:45-49 | after construction with `lang` and any sequence of changes, `Exists(x)` holds exactly when `x` is `lang` or was appended |
| Properties.ExistsIsMonotone | pkg/i18n/i18n.go:45-49 | once a language exists, it exists after any further changes |
| Properties.RunLatest | pkg/i18n/i18n.go:51-63 | after any sequence of changes, a language holds the catalog of its last append, or its earlier catalog if it was never appended again |
| Properties.RunLanguage | pkg/i18n/i18n.go:41-43 | after any sequence of changes, the current language is the one set by the last switch, or the earlier one if there was no switch |
| Properties.RunKeepsBound | pkg/i18n/i18n.go:27-63 | if every appended catalog has the language it is appended under selected, every registry entry keeps its own key as its language |
| Properties.SetLanguageIdempotent | pkg/i18n/i18n.go:41-43 | switching to the same language twice gives the same state as switching once |
| Properties.AppendOtherKeepsLookups | pkg/i18n/i18n.go:51-75 | appending a catalog for a language other than the current one changes no result of `T` |
| Properties.AppendThenSwitch | pkg/i18n/i18n.go:41-75 | append a catalog for `x`, then switch to `x`, and `T` returns that catalog's singular lookup |
| Properties.TAfterRun | pkg/i18n/i18n.go:67-75 | after construction and any sequence of changes, `T` answers from the last catalog appended for the current language; for the construction language it answers from the initial catalog; if the current language was never registered, it returns the key |

## Left out

- Concurrency: the `atomic.Pointer` loads and stores (`pkg/i18n/i18n.go:23-24`) are modelled as plain sequential fields. Lock-free reads and the lost update when two `AppendIntl` calls race are not modelled. `T` and `N` load the registry and the language in two separate atomic loads. The model reads both at one instant (`Localizer.Load`).
- The gettext engine (`gettext.New`, `SetLanguage`, `PGettext`, `PNGettext`) is foreign code. Catalogs are opaque values with uninterpreted lookups. The engine is a parameter function. Its file format, plural selection and in-catalog fallback are not modelled.
- Catalog loading errors: `gettext.New` returns no error in the code, so construction and `AppendIntl` have no error path here.
- `fmt.Sprintf` / `fmt.Errorf` format-verb semantics are not modelled. A formatter is an uninterpreted `(template, args) -> string` parameter.
- ErrorT: `fmt.Errorf` error wrapping with `%w` is not modelled. The error carries only its formatted message.
- Go map iteration order in the copy loop is not modelled. `CopyOnWrite` picks keys in an arbitrary order, and its result does not depend on that order.
- The map capacity hint `len(m)+1` (`pkg/i18n/i18n.go:56`) is a performance detail with no observable effect.
- Only localizers built by `NewLocalizer` are modelled. A zero-value `Localizer` (for example `new(i18n.Localizer)`) has a nil registry pointer, and `Exists`, `AppendIntl`, `T` and `N` then panic on its dereference (`pkg/i18n/i18n.go:46`, `:55`, `:68`, `:81`); those panics are not modelled.
- The embedded `translations` file system (`pkg/i18n/i18n.go:11-12`) is I/O. The catalog source is an opaque `Data` value.
- The `Languages` display-name table (`pkg/i18n/i18n.go:14-20`) is configuration data with no behaviour.
- I18n.Exists has no contract of its own. It only checks key membership. Its meaning is stated by `Properties.ExistsAfterRun` and `Properties.ExistsIsMonotone`.
