/**
 Properties of a localizer over any sequence of state changes after
 construction: which languages exist, which catalog each one ends up with,
 which language is current, and what lookups return.
 */
module Properties {
  import opened Wrappers
  import opened Gettext
  import opened I18n

  /** The state after applying `ops` in order. */
  function Run(s: Snapshot, ops: seq<Op>): Snapshot
    decreases |ops|
  {
    if ops == [] then s else Run(Step(s, ops[0]), ops[1..])
  }

  /** The languages that `ops` append a catalog for. */
  function Registered(ops: seq<Op>): set<string>
  {
    set i | 0 <= i < |ops| && ops[i].AppendIntlOp? :: ops[i].lang
  }

  /** Every catalog that `ops` append has the language it is appended under selected. */
  ghost predicate BoundOps(ops: seq<Op>)
  {
    forall i :: 0 <= i < |ops| && ops[i].AppendIntlOp? ==> ops[i].intl.language == ops[i].lang
  }

  /** The catalog of the last append for `lang` in `ops`, if any. */
  function Latest(ops: seq<Op>, lang: string): Option<Catalog>
    decreases |ops|
  {
    if ops == [] then None
    else
      var last := ops[|ops| - 1];
      if last.AppendIntlOp? && last.lang == lang then Some(last.intl)
      else Latest(ops[..|ops| - 1], lang)
  }

  /** The language of the last language switch in `ops`, or `current` if there is none. */
  function LatestLanguage(ops: seq<Op>, current: string): string
    decreases |ops|
  {
    if ops == [] then current
    else
      var last := ops[|ops| - 1];
      if last.SetLanguageOp? then last.lang
      else LatestLanguage(ops[..|ops| - 1], current)
  }

  /** Running one more state change is one more step. */
  lemma {:induction false} RunSnoc(s: Snapshot, ops: seq<Op>, op: Op)
    ensures Run(s, ops + [op]) == Step(Run(s, ops), op)
    decreases |ops|
  {
    if ops == [] {
      assert [op][1..] == [];
    } else {
      assert (ops + [op])[1..] == ops[1..] + [op];
      RunSnoc(Step(s, ops[0]), ops[1..], op);
    }
  }

  /** The registered languages after `ops` are the earlier ones plus every appended one. */
  lemma {:induction false} RunKeys(s: Snapshot, ops: seq<Op>)
    ensures Run(s, ops).intlMap.Keys == s.intlMap.Keys + Registered(ops)
    decreases |ops|
  {
    if ops != [] {
      RunKeys(Step(s, ops[0]), ops[1..]);
      var head := if ops[0].AppendIntlOp? then {ops[0].lang} else {};
      assert Registered(ops) == head + Registered(ops[1..]) by {
        forall x | x in Registered(ops) ensures x in head + Registered(ops[1..]) {
          var i :| 0 <= i < |ops| && ops[i].AppendIntlOp? && ops[i].lang == x;
          if i > 0 {
            assert ops[1..][i - 1] == ops[i];
          }
        }
        forall x | x in Registered(ops[1..]) ensures x in Registered(ops) {
          var i :| 0 <= i < |ops[1..]| && ops[1..][i].AppendIntlOp? && ops[1..][i].lang == x;
          assert ops[i + 1] == ops[1..][i];
        }
      }
    }
  }

  /** A language exists after construction and `ops` exactly when it was constructed with or appended. */
  lemma ExistsAfterRun(lang: string, intl: Catalog, ops: seq<Op>, x: string)
    ensures Exists(Run(Init(lang, intl), ops), x) <==> x == lang || x in Registered(ops)
  {
    RunKeys(Init(lang, intl), ops);
  }

  /** Registered languages are never removed. */
  lemma ExistsIsMonotone(s: Snapshot, ops: seq<Op>, x: string)
    requires Exists(s, x)
    ensures Exists(Run(s, ops), x)
  {
    RunKeys(s, ops);
  }

  /** After `ops`, a language holds the catalog of its last append, or its earlier catalog if none. */
  lemma {:induction false} RunLatest(s: Snapshot, ops: seq<Op>, x: string)
    ensures x in Run(s, ops).intlMap <==> Latest(ops, x).Some? || x in s.intlMap
    ensures Latest(ops, x).Some? ==> Run(s, ops).intlMap[x] == Latest(ops, x).value
    ensures Latest(ops, x).None? && x in s.intlMap ==> Run(s, ops).intlMap[x] == s.intlMap[x]
    decreases |ops|
  {
    if ops != [] {
      var init, last := ops[..|ops| - 1], ops[|ops| - 1];
      assert ops == init + [last];
      RunSnoc(s, init, last);
      RunLatest(s, init, x);
    }
  }

  /** After `ops`, the current language is the one of the last switch, or the earlier one if none. */
  lemma {:induction false} RunLanguage(s: Snapshot, ops: seq<Op>)
    ensures Run(s, ops).lang == LatestLanguage(ops, s.lang)
    decreases |ops|
  {
    if ops != [] {
      var init, last := ops[..|ops| - 1], ops[|ops| - 1];
      assert ops == init + [last];
      RunSnoc(s, init, last);
      RunLanguage(s, init);
    }
  }

  /** Every registered catalog stays bound to its own language. */
  lemma {:induction false} RunKeepsBound(s: Snapshot, ops: seq<Op>)
    requires Bound(s.intlMap) && BoundOps(ops)
    ensures Bound(Run(s, ops).intlMap)
    decreases |ops|
  {
    if ops != [] {
      assert BoundOps(ops[1..]) by {
        forall i | 0 <= i < |ops[1..]| && ops[1..][i].AppendIntlOp?
          ensures ops[1..][i].intl.language == ops[1..][i].lang
        {
          assert ops[1..][i] == ops[i + 1];
        }
      }
      RunKeepsBound(Step(s, ops[0]), ops[1..]);
    }
  }

  /** Switching to the same language twice is the same as switching once. */
  lemma SetLanguageIdempotent(s: Snapshot, x: string)
    ensures Step(Step(s, SetLanguageOp(x)), SetLanguageOp(x)) == Step(s, SetLanguageOp(x))
  {
  }

  /** Appending a catalog for a language other than the current one changes no lookup. */
  lemma AppendOtherKeepsLookups(s: Snapshot, x: string, intl: Catalog, key: string)
    requires x != s.lang
    ensures T(Step(s, AppendIntlOp(x, intl)), key) == T(s, key)
  {
  }

  /** Append a catalog, switch to its language, and lookups come from that catalog. */
  lemma AppendThenSwitch(s: Snapshot, x: string, intl: Catalog, key: string)
    ensures T(Run(s, [AppendIntlOp(x, intl), SetLanguageOp(x)]), key) == PGettext(intl, "", key)
  {
    var s1 := Step(s, AppendIntlOp(x, intl));
    var s2 := Step(s1, SetLanguageOp(x));
    var ops := [AppendIntlOp(x, intl), SetLanguageOp(x)];
    assert ops[1..] == [SetLanguageOp(x)] && ops[1..][1..] == [];
    assert Run(s1, ops[1..]) == Run(s2, []);
  }

  /**
   After construction and `ops`, looking up a key gives what the current
   language's latest catalog says, or the key itself if that language was
   never registered.
   */
  lemma TAfterRun(lang: string, intl: Catalog, ops: seq<Op>, key: string)
    ensures var s := Run(Init(lang, intl), ops);
            var cur := LatestLanguage(ops, lang);
            T(s, key) == if Latest(ops, cur).Some? then PGettext(Latest(ops, cur).value, "", key)
                         else if cur == lang then PGettext(intl, "", key)
                         else key
  {
    var s0 := Init(lang, intl);
    RunLanguage(s0, ops);
    RunLatest(s0, ops, LatestLanguage(ops, lang));
  }
}
