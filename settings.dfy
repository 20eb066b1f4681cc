/**
 * The settings a differ carries once its configuration is complete: the
 * fields of config.go's Config other than the registry, which the model
 * keeps apart (see Registries).
 */
module Settings {
  import opened Wrappers
  import opened Tags

  /** The struct-tag key read when no other is configured. */
  const DefaultTagName: string := "diff"

  datatype ConfigValue = ConfigValue(
    timeLayout: string,
    nullifyEmpty: Option<bool>,
    tagName: string,
    strictMode: bool,
    tag: Option<Tag>,
    withPresence: bool)

  /**
   * The configuration of a differ the registry builds: a fresh config
   * given only the registry and the tag, then initialised.
   */
  function RegistryConfig(tag: Option<Tag>): (r: ConfigValue)
    ensures r.tagName == DefaultTagName && r.tag == tag
    ensures r.nullifyEmpty.None? && !r.withPresence && !r.strictMode && r.timeLayout == []
  {
    ConfigValue([], None, DefaultTagName, false, tag, false)
  }
}
