/**
 * A differ's configuration (config.go), the options that set it up
 * (option.go), and New (differ.go), which applies the options to a fresh
 * configuration, completes it and builds the differ.
 */
module Configs {
  import opened Wrappers
  import opened Shapes
  import opened Failures
  import opened Tags
  import opened Settings
  import opened Differs
  import opened Registries

  /** A Config's fields as a value: the settings and the registry. */
  datatype ConfigState = ConfigState(value: ConfigValue, registry: Registry?)

  /** The settings of `&Config{}`: every field zero. */
  const ZeroSettings: ConfigValue := ConfigValue([], None, [], false, None, false)

  const ZeroState: ConfigState := ConfigState(ZeroSettings, null)

  /**
   * ConfigOption: each option sets one field, except WithConfig, which
   * overwrites the whole configuration with the source's.
   */
  datatype ConfigOption =
    | WithTagName(name: string)
    | WithTag(tag: Option<Tag>)
    | NullifyEmpty(flag: bool)
    | WithConfig(source: ConfigState)
    | WithRegistry(registry: Registry?)

  /** What one option does to a configuration. */
  function Applied(s: ConfigState, o: ConfigOption): ConfigState {
    match o
    case WithTagName(name) => s.(value := s.value.(tagName := name))
    case WithTag(tag) => s.(value := s.value.(tag := tag))
    case NullifyEmpty(flag) => s.(value := s.value.(nullifyEmpty := Some(flag)))
    case WithConfig(source) => source
    case WithRegistry(r) => s.(registry := r)
  }

  /** The options applied in list order. */
  function ApplyAll(s: ConfigState, opts: seq<ConfigOption>): ConfigState
    decreases |opts|
  {
    if opts == [] then s else ApplyAll(Applied(s, opts[0]), opts[1..])
  }

  /** Each option sets exactly its own field and leaves the others. */
  lemma AppliedChangesOnlyItsField(s: ConfigState, o: ConfigOption)
    ensures o.WithTagName? ==> Applied(s, o) == ConfigState(s.value.(tagName := o.name), s.registry)
    ensures o.WithTag? ==> Applied(s, o) == ConfigState(s.value.(tag := o.tag), s.registry)
    ensures o.NullifyEmpty? ==> Applied(s, o) == ConfigState(s.value.(nullifyEmpty := Some(o.flag)), s.registry)
    ensures o.WithRegistry? ==> Applied(s, o) == ConfigState(s.value, o.registry)
    ensures o.WithConfig? ==> Applied(s, o) == o.source
  {
  }

  /** Two options in a row. */
  lemma ApplyAllPair(s: ConfigState, a: ConfigOption, b: ConfigOption)
    ensures ApplyAll(s, [a, b]) == Applied(Applied(s, a), b)
  {
    assert [a, b][1..] == [b];
    assert [b][1..] == [];
    calc {
      ApplyAll(s, [a, b]);
      ApplyAll(Applied(s, a), [b]);
      ApplyAll(Applied(Applied(s, a), b), []);
    }
  }

  /** Applying a list and then one more option is applying the longer list. */
  lemma {:induction false} ApplyAllSnoc(s: ConfigState, opts: seq<ConfigOption>, o: ConfigOption)
    ensures ApplyAll(s, opts + [o]) == Applied(ApplyAll(s, opts), o)
    decreases |opts|
  {
    if opts != [] {
      ApplyAllSnoc(Applied(s, opts[0]), opts[1..], o);
      assert (opts + [o])[1..] == opts[1..] + [o];
    }
  }

  /** Options that touch the tag key: setting it, or copying a whole configuration. */
  predicate SetsTagName(o: ConfigOption) {
    o.WithTagName? || o.WithConfig?
  }

  /** A later option overrides an earlier one: the tag key is the one the last option setting it gave. */
  lemma {:induction false} LastTagNameWins(s: ConfigState, opts: seq<ConfigOption>, i: nat)
    requires i < |opts| && opts[i].WithTagName?
    requires forall j :: i < j < |opts| ==> !SetsTagName(opts[j])
    ensures ApplyAll(s, opts).value.tagName == opts[i].name
    decreases |opts|
  {
    if i == 0 {
      TagNameKept(Applied(s, opts[0]), opts[1..]);
    } else {
      LastTagNameWins(Applied(s, opts[0]), opts[1..], i - 1);
    }
  }

  /** Options that do not touch the tag key leave it. */
  lemma {:induction false} TagNameKept(s: ConfigState, opts: seq<ConfigOption>)
    requires forall j :: 0 <= j < |opts| ==> !SetsTagName(opts[j])
    ensures ApplyAll(s, opts).value.tagName == s.value.tagName
    decreases |opts|
  {
    if opts != [] {
      TagNameKept(Applied(s, opts[0]), opts[1..]);
    }
  }

  /** WithConfig discards whatever the options before it set. */
  lemma {:induction false} WithConfigResets(s: ConfigState, before: seq<ConfigOption>, source: ConfigState, after: seq<ConfigOption>)
    ensures ApplyAll(s, before + [WithConfig(source)] + after) == ApplyAll(source, after)
    decreases |before|
  {
    if before == [] {
      assert [WithConfig(source)] + after == [WithConfig(source)] + after;
      assert ([WithConfig(source)] + after)[1..] == after;
    } else {
      WithConfigResets(Applied(s, before[0]), before[1..], source, after);
      assert (before + [WithConfig(source)] + after)[1..] == before[1..] + [WithConfig(source)] + after;
    }
  }

  /** Config.Init on the settings: an empty tag key becomes "diff"; nothing else changes. */
  function Initialized(v: ConfigValue): (r: ConfigValue)
    ensures r.tagName != []
    ensures v.tagName != [] ==> r == v
    ensures r.(tagName := v.tagName) == v
  {
    if v.tagName == [] then v.(tagName := DefaultTagName) else v
  }

  /** Init twice is Init once. */
  lemma InitIdempotent(v: ConfigValue)
    ensures Initialized(Initialized(v)) == Initialized(v)
  {
  }

  /** The configuration the registry builds with, New(from, to, WithRegistry(r), WithTag(tag)), is RegistryConfig. */
  lemma RegistryOptions(r: Registry?, tag: Option<Tag>)
    ensures Initialized(ApplyAll(ZeroState, [WithRegistry(r), WithTag(tag)]).value) == RegistryConfig(tag)
    ensures ApplyAll(ZeroState, [WithRegistry(r), WithTag(tag)]).registry == r
  {
    ApplyAllPair(ZeroState, WithRegistry(r), WithTag(tag));
  }

  /** A decoding field's differ, New(..., WithConfig(c), WithTag(t)), is configured as WithTagConfig says. */
  lemma FieldOptions(c: ConfigState, t: Tag)
    requires c.value.tagName != []
    ensures Initialized(ApplyAll(ZeroState, [WithConfig(c), WithTag(Some(t))]).value) == WithTagConfig(c.value, t)
    ensures ApplyAll(ZeroState, [WithConfig(c), WithTag(Some(t))]).registry == c.registry
  {
    ApplyAllPair(ZeroState, WithConfig(c), WithTag(Some(t)));
  }

  class Config {
    var timeLayout: string
    var nullifyEmpty: Option<bool>
    var tagName: string
    var strictMode: bool
    var tag: Option<Tag>
    var registry: Registry?
    var withPresence: bool

    /** `&Config{}`. */
    constructor()
      ensures State() == ZeroState
    {
      timeLayout, nullifyEmpty, tagName, strictMode, tag, registry, withPresence := [], None, [], false, None, null, false;
    }

    function Value(): ConfigValue
      reads this
    {
      ConfigValue(timeLayout, nullifyEmpty, tagName, strictMode, tag, withPresence)
    }

    function State(): ConfigState
      reads this
    {
      ConfigState(Value(), registry)
    }

    /** Init: the tag key defaults to "diff", and a configuration without a registry gets an empty one of its own. */
    method Init()
      modifies this
      ensures Value() == Initialized(old(Value()))
      ensures old(registry) != null ==> registry == old(registry)
      ensures old(registry) == null ==> registry != null && fresh(registry) && registry.Valid() && registry.Cache() == map[]
    {
      if tagName == [] {
        tagName := DefaultTagName;
      }
      if registry == null {
        registry := new Registry();
      }
    }

    /** Running one option on this configuration. */
    method Apply(o: ConfigOption)
      modifies this
      ensures State() == Applied(old(State()), o)
    {
      match o
      case WithTagName(name) => tagName := name;
      case WithTag(t) => tag := t;
      case NullifyEmpty(flag) => nullifyEmpty := Some(flag);
      case WithConfig(source) =>
        timeLayout, nullifyEmpty, tagName := source.value.timeLayout, source.value.nullifyEmpty, source.value.tagName;
        strictMode, tag, registry, withPresence := source.value.strictMode, source.value.tag, source.registry, source.value.withPresence;
      case WithRegistry(r) => registry := r;
    }
  }

  /**
   * New: the options run in order on `&Config{}`, the configuration is
   * completed by Init, and the differ is built for the two types.
   */
  method New(schema: Schema, from: Option<Shape>, to: Option<Shape>, opts: seq<ConfigOption>) returns (r: Outcome<Differ>, config: Config)
    ensures config.Value() == Initialized(ApplyAll(ZeroState, opts).value)
    ensures ApplyAll(ZeroState, opts).registry != null ==> config.registry == ApplyAll(ZeroState, opts).registry
    ensures r == Build(schema, from, to, config.Value(), NestingLimit)
  {
    config := new Config();
    var i := 0;
    while i < |opts|
      invariant 0 <= i <= |opts|
      invariant config.State() == ApplyAll(ZeroState, opts[..i])
      modifies config
    {
      config.Apply(opts[i]);
      ApplyAllSnoc(ZeroState, opts[..i], opts[i]);
      assert opts[..i + 1] == opts[..i] + [opts[i]];
      i := i + 1;
    }
    assert opts[..i] == opts;
    config.Init();
    r := Build(schema, from, to, config.Value(), NestingLimit);
  }

  /** The settings Options.Apply works on. */
  datatype OptionsState = OptionsState(setMarker: bool, shallow: bool, nullifyEmpty: Option<bool>, depth: int)

  /** The options Options.Apply runs. */
  datatype DiffOption = WithSetMarker(marker: bool) | WithShallow(shallow: bool)

  function OptionApplied(s: OptionsState, o: DiffOption): OptionsState {
    match o
    case WithSetMarker(f) => s.(setMarker := f)
    case WithShallow(f) => s.(shallow := f)
  }

  function OptionsApplied(s: OptionsState, opts: seq<DiffOption>): OptionsState
    decreases |opts|
  {
    if opts == [] then s else OptionsApplied(OptionApplied(s, opts[0]), opts[1..])
  }

  lemma {:induction false} OptionsAppliedSnoc(s: OptionsState, opts: seq<DiffOption>, o: DiffOption)
    ensures OptionsApplied(s, opts + [o]) == OptionApplied(OptionsApplied(s, opts), o)
    decreases |opts|
  {
    if opts != [] {
      OptionsAppliedSnoc(OptionApplied(s, opts[0]), opts[1..], o);
      assert (opts + [o])[1..] == opts[1..] + [o];
    }
  }

  /** No option touches the depth or the nullify flag, and the shallow flag is the last WithShallow's, if any. */
  lemma {:induction false} OptionsAppliedFields(s: OptionsState, opts: seq<DiffOption>)
    ensures OptionsApplied(s, opts).depth == s.depth
    ensures OptionsApplied(s, opts).nullifyEmpty == s.nullifyEmpty
    ensures (forall j :: 0 <= j < |opts| ==> !opts[j].WithShallow?) ==> OptionsApplied(s, opts).shallow == s.shallow
    ensures opts != [] && opts[|opts| - 1].WithShallow? ==> OptionsApplied(s, opts).shallow == opts[|opts| - 1].shallow
    decreases |opts|
  {
    if opts != [] {
      var init := opts[..|opts| - 1];
      OptionsAppliedFields(s, init);
      OptionsAppliedSnoc(s, init, opts[|opts| - 1]);
      assert init + [opts[|opts| - 1]] == opts;
    }
  }

  class Options {
    var setMarker: bool
    var shallow: bool
    var nullifyEmpty: Option<bool>
    var depth: int

    constructor()
      ensures State() == OptionsState(false, false, None, 0)
    {
      setMarker, shallow, nullifyEmpty, depth := false, false, None, 0;
    }

    function State(): OptionsState
      reads this
    {
      OptionsState(setMarker, shallow, nullifyEmpty, depth)
    }

    /** decDepth: one level less, nothing else. */
    method DecDepth()
      modifies this
      ensures depth == old(depth) - 1
      ensures State() == old(State()).(depth := depth)
    {
      depth := depth - 1;
    }

    /** Apply: the options in list order. */
    method Apply(options: seq<DiffOption>)
      modifies this
      ensures State() == OptionsApplied(old(State()), options)
    {
      ghost var start := State();
      var i := 0;
      while i < |options|
        invariant 0 <= i <= |options|
        invariant State() == OptionsApplied(start, options[..i])
      {
        match options[i] {
          case WithSetMarker(f) => setMarker := f;
          case WithShallow(f) => shallow := f;
        }
        OptionsAppliedSnoc(start, options[..i], options[i]);
        assert options[..i + 1] == options[..i] + [options[i]];
        i := i + 1;
      }
      assert options[..i] == options;
    }
  }
}
