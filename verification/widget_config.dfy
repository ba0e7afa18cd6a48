/**
  The chat widget's configuration merge `resolveConfig` (config.ts): the
  defaults, overlaid key by key with the caller's partial configuration.

  A configuration object is a map from its keys to values. A key present with
  the value `undefined` is kept apart from a key that is absent, because an
  object spread copies such a key and its `undefined` over the default. The
  token provider is a function in the widget; here it is named by an opaque
  text, as nothing in the merge calls it.
 */
module WidgetConfig {
  import opened Common

  /** The keys of `ChatConfig`. */
  datatype Key = Title | Placeholder | ApiBase | TokenProvider

  /** A configuration value: `undefined`, a text, or a token provider. */
  datatype Value = Undefined | Text(text: string) | Provider(name: string)

  type Config = map<Key, Value>

  /** `defaultConfig`: the title, the Spanish placeholder and the mock API base; no token provider. */
  function Defaults(): (d: Config)
    ensures d.Keys == {Title, Placeholder, ApiBase}
    ensures d[Title] == Text("IOC E-Assistant")
    ensures d[Placeholder] == Text("Escribe tu pregunta…")
    ensures d[ApiBase] == Text("mock")
  {
    map[Title := Text("IOC E-Assistant"), Placeholder := Text("Escribe tu pregunta…"), ApiBase := Text("mock")]
  }

  /** The keys of `overrides` holding a value other than `undefined`. */
  predicate Defined(overrides: Config, k: Key) {
    k in overrides && overrides[k] != Undefined
  }

  /**
    `resolveConfig(overrides)` as written, `{ ...defaultConfig, ...overrides }`:
    every key of the overrides replaces the default, even one holding
    `undefined`; a missing overrides object spreads nothing.
   */
  function ResolveConfigAsWritten(overrides: Option<Config>): (r: Config)
    ensures r.Keys == Defaults().Keys + (if overrides.Some? then overrides.value.Keys else {})
    ensures forall k :: overrides.Some? && k in overrides.value ==> r[k] == overrides.value[k]
    ensures forall k :: k in Defaults() && (overrides.None? || k !in overrides.value) ==> r[k] == Defaults()[k]
  {
    Defaults() + overrides.GetOr(map[])
  }

  /** The spread lets an explicit `undefined` through: the resolved API base can be `undefined`, which its type rules out. */
  lemma AsWrittenLosesApiBase()
    ensures ResolveConfigAsWritten(Some(map[ApiBase := Undefined]))[ApiBase] == Undefined
  {
  }

  /**
    `resolveConfig(overrides)` as its result type promises: every key the
    overrides define takes the override's value, and every other key keeps
    its default; the keys are the defaults' and the defined overrides'.
   */
  function ResolveConfig(overrides: Option<Config>): (r: Config)
    ensures forall k :: k in r <==> k in Defaults() || (overrides.Some? && Defined(overrides.value, k))
    ensures forall k :: overrides.Some? && Defined(overrides.value, k) ==> r[k] == overrides.value[k]
    ensures forall k :: k in Defaults() && !(overrides.Some? && Defined(overrides.value, k)) ==> r[k] == Defaults()[k]
  {
    match overrides
    case None => Defaults()
    case Some(o) => Defaults() + map k | k in o.Keys && o[k] != Undefined :: o[k]
  }

  /** The resolved API base is always set; so are the title and the placeholder. */
  lemma ResolvedApiBaseSet(overrides: Option<Config>)
    ensures var r := ResolveConfig(overrides);
      ApiBase in r && r[ApiBase] != Undefined && r[Title] != Undefined && r[Placeholder] != Undefined
  {
  }

  /** No overrides, or an empty object, give the defaults. */
  lemma NoOverridesGiveDefaults()
    ensures ResolveConfig(None) == Defaults() && ResolveConfig(Some(map[])) == Defaults()
    ensures ResolveConfigAsWritten(None) == Defaults() && ResolveConfigAsWritten(Some(map[])) == Defaults()
  {
  }

  /** The token provider, which has no default, is passed through when given and absent when not. */
  lemma TokenProviderPassedThrough(overrides: Config)
    ensures Defined(overrides, TokenProvider) ==> ResolveConfig(Some(overrides))[TokenProvider] == overrides[TokenProvider]
    ensures !Defined(overrides, TokenProvider) ==> TokenProvider !in ResolveConfig(Some(overrides))
  {
  }

  /** Without an explicit `undefined` the written merge and the intended one agree. */
  lemma AgreeWithoutUndefined(overrides: Config)
    requires forall k :: k in overrides ==> overrides[k] != Undefined
    ensures ResolveConfig(Some(overrides)) == ResolveConfigAsWritten(Some(overrides))
  {
  }

  /** Resolving a resolved configuration again changes nothing. */
  lemma ResolveIdempotent(overrides: Option<Config>)
    ensures ResolveConfig(Some(ResolveConfig(overrides))) == ResolveConfig(overrides)
  {
    var r := ResolveConfig(overrides);
    assert forall k :: k in r ==> r[k] != Undefined;
  }
}
