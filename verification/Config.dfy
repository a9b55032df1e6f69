/**
 * Configuration resolution of config_manager.py: a parsed YAML document is
 * turned into the application's configuration, falling back to a built-in
 * default for every missing key and to the whole default configuration when
 * loading raises; command-line values then override selected fields.
 *
 * config_manager.py's dataclasses do not check the types of their fields, so a field
 * holds whatever YAML value was found, `None` included; the model keeps every
 * field as a YAML `Value`.
 */
module Config {
  import opened Wrappers

  /** A parsed YAML node, or a keyword argument's value. */
  datatype Value =
    | Null
    | Bool(b: bool)
    | Int(i: int)
    | Real(r: real)
    | Str(s: string)
    | List(items: seq<Value>)
    | Dict(entries: map<string, Value>)

  datatype EnvironmentConfig = EnvironmentConfig(ollamaUrl: Value, voiceServerUrl: Value, xmlFile: Value)
  datatype BehaviorConfig = BehaviorConfig(enableVoice: Value, debugMode: Value, analysisInterval: Value)
  datatype ModelsConfig = ModelsConfig(imageAnalysisModel: Value, commentGenerationModel: Value)
  datatype ImageConfig = ImageConfig(compressionRatio: Value, jpegQuality: Value)
  datatype PerformanceConfig = PerformanceConfig(image: ImageConfig)
  datatype PersonasConfig = PersonasConfig(personasFile: Value, selectCount: Value, alwaysInclude: Value)
  datatype SystemConfig = SystemConfig(promptFile: Value)

  datatype AppConfig = AppConfig(
    environment: EnvironmentConfig,
    behavior: BehaviorConfig,
    models: ModelsConfig,
    performance: PerformanceConfig,
    personas: PersonasConfig,
    system: SystemConfig)

  const DefaultOllamaUrl: Value := Str("http://localhost:11434")
  const DefaultXmlFile: Value := Str("comment.xml")
  const DefaultModel: Value := Str("gemma3:12b")
  const DefaultPersonasFile: Value := Str("personas.yaml")
  const DefaultPromptFile: Value := Str("prompt.md")

  /** `PersonasConfig(...)` followed by its `__post_init__`, which turns a
      `None` list of always-included personas into an empty list. */
  function NewPersonasConfig(personasFile: Value, selectCount: Value, alwaysInclude: Value): (c: PersonasConfig)
    ensures c.alwaysInclude != Null
    ensures alwaysInclude != Null ==> c.alwaysInclude == alwaysInclude
    ensures c.personasFile == personasFile && c.selectCount == selectCount
  {
    PersonasConfig(personasFile, selectCount, if alwaysInclude == Null then List([]) else alwaysInclude)
  }

  /** `_default_config`: every dataclass built with its field defaults. */
  function DefaultConfig(): AppConfig {
    AppConfig(
      EnvironmentConfig(DefaultOllamaUrl, Null, DefaultXmlFile),
      BehaviorConfig(Bool(true), Bool(false), Real(0.1)),
      ModelsConfig(DefaultModel, DefaultModel),
      PerformanceConfig(ImageConfig(Real(2.0), Int(75))),
      NewPersonasConfig(DefaultPersonasFile, Int(5), Null),
      SystemConfig(DefaultPromptFile))
  }

  /** `data.get(key, {})` used as a mapping: a missing section reads as empty;
      a present value that is not a mapping makes the following `.get` raise. */
  function Section(d: map<string, Value>, key: string): (r: Option<map<string, Value>>)
    ensures key !in d ==> r == Some(map[])
    ensures key in d ==> (r.Some? <==> d[key].Dict?)
    ensures key in d && d[key].Dict? ==> r == Some(d[key].entries)
  {
    if key !in d then Some(map[])
    else match d[key]
      case Dict(m) => Some(m)
      case _ => None
  }

  function ParseEnvironment(env: map<string, Value>): EnvironmentConfig {
    EnvironmentConfig(
      GetOr(env, "ollama_url", DefaultOllamaUrl),
      GetOr(env, "voice_server_url", Null),
      GetOr(env, "xml_file", DefaultXmlFile))
  }

  function ParseBehavior(beh: map<string, Value>): BehaviorConfig {
    BehaviorConfig(
      GetOr(beh, "enable_voice", Bool(true)),
      GetOr(beh, "debug_mode", Bool(false)),
      GetOr(beh, "analysis_interval", Real(0.1)))
  }

  function ParseModels(mod: map<string, Value>): ModelsConfig {
    ModelsConfig(
      GetOr(mod, "image_analysis_model", DefaultModel),
      GetOr(mod, "comment_generation_model", DefaultModel))
  }

  function ParseImage(img: map<string, Value>): ImageConfig {
    ImageConfig(
      GetOr(img, "compression_ratio", Real(2.0)),
      GetOr(img, "jpeg_quality", Int(75)))
  }

  function ParsePersonas(pers: map<string, Value>): PersonasConfig {
    NewPersonasConfig(
      GetOr(pers, "personas_file", DefaultPersonasFile),
      GetOr(pers, "select_count", Int(5)),
      GetOr(pers, "always_include", List([])))
  }

  function ParseSystem(sys: map<string, Value>): SystemConfig {
    SystemConfig(GetOr(sys, "prompt_file", DefaultPromptFile))
  }

  /** `_parse_config`; None when it raises (a non-mapping document or section). */
  function ParseConfig(data: Value): (r: Option<AppConfig>)
    ensures r.Some? ==> r.value.personas.alwaysInclude != Null
  {
    if !data.Dict? then None
    else
      var d := data.entries;
      match (Section(d, "environment"), Section(d, "behavior"), Section(d, "models"),
             Section(d, "performance"), Section(d, "personas"), Section(d, "system"))
      case (Some(env), Some(beh), Some(mod), Some(perf), Some(pers), Some(sys)) =>
        (match Section(perf, "image")
         case None => None
         case Some(img) =>
           Some(AppConfig(ParseEnvironment(env), ParseBehavior(beh), ParseModels(mod),
                          PerformanceConfig(ParseImage(img)), ParsePersonas(pers), ParseSystem(sys))))
      case _ => None
  }

  /** The configuration file as the loader finds it: absent, unreadable or
      unparsable (any exception while opening, reading or parsing), or parsed. */
  datatype ConfigFile = Missing | Unreadable | Parsed(data: Value)

  /** `_load_config`: every failure the model represents yields the default
      configuration. */
  function LoadConfig(file: ConfigFile): (c: AppConfig)
    ensures file.Missing? || file.Unreadable? ==> c == DefaultConfig()
    ensures file.Parsed? && ParseConfig(file.data).None? ==> c == DefaultConfig()
    ensures file.Parsed? && ParseConfig(file.data).Some? ==> c == ParseConfig(file.data).value
  {
    match file
    case Parsed(data) =>
      (match ParseConfig(data)
       case Some(c) => c
       case None => DefaultConfig())
    case _ => DefaultConfig()
  }

  /** Parsing an empty mapping gives exactly the default configuration. */
  lemma ParseEmptyIsDefault()
    ensures ParseConfig(Dict(map[])) == Some(DefaultConfig())
  {
  }

  /** A missing section is read exactly as an empty one. */
  lemma MissingSectionIsEmpty(d: map<string, Value>, key: string)
    requires key !in d
    ensures ParseConfig(Dict(d)) == ParseConfig(Dict(d[key := Dict(map[])]))
  {
    var d' := d[key := Dict(map[])];
    assert forall k :: k != key ==> Section(d, k) == Section(d', k);
    assert Section(d, key) == Section(d', key);
  }

  /** A key given as YAML null is kept as null: the default applies only to an
      absent key. */
  lemma NullKeyIsKept()
    ensures ParseConfig(Dict(map["environment" := Dict(map["ollama_url" := Null])])) ==
            Some(DefaultConfig().(environment := EnvironmentConfig(Null, Null, DefaultXmlFile)))
  {
  }

  /** `always_include: null` ends up as an empty list, not as null. */
  lemma NullAlwaysIncludeBecomesEmpty()
    ensures ParseConfig(Dict(map["personas" := Dict(map["always_include" := Null])])) == Some(DefaultConfig())
  {
  }

  /** A document that is not a mapping (an empty file parses to null), or whose
      section is null, loads as the default configuration. */
  lemma NonMappingLoadsDefault(data: Value, key: string)
    requires key in {"environment", "behavior", "models", "performance", "personas", "system"}
    ensures LoadConfig(Parsed(Null)) == DefaultConfig()
    ensures !data.Dict? ==> LoadConfig(Parsed(data)) == DefaultConfig()
    ensures LoadConfig(Parsed(Dict(map[key := Null]))) == DefaultConfig()
  {
    assert Section(map[key := Null], key).None?;
  }

  /** The configuration written out as the YAML document the parser expects. */
  function ToDocument(c: AppConfig): Value {
    Dict(map[
      "environment" := Dict(EnvironmentEntries(c.environment)),
      "behavior" := Dict(BehaviorEntries(c.behavior)),
      "models" := Dict(ModelsEntries(c.models)),
      "performance" := Dict(map["image" := Dict(ImageEntries(c.performance.image))]),
      "personas" := Dict(PersonasEntries(c.personas)),
      "system" := Dict(map["prompt_file" := c.system.promptFile])])
  }

  function EnvironmentEntries(e: EnvironmentConfig): map<string, Value> {
    map["ollama_url" := e.ollamaUrl, "voice_server_url" := e.voiceServerUrl, "xml_file" := e.xmlFile]
  }

  function BehaviorEntries(b: BehaviorConfig): map<string, Value> {
    map["enable_voice" := b.enableVoice, "debug_mode" := b.debugMode, "analysis_interval" := b.analysisInterval]
  }

  function ModelsEntries(m: ModelsConfig): map<string, Value> {
    map["image_analysis_model" := m.imageAnalysisModel, "comment_generation_model" := m.commentGenerationModel]
  }

  function ImageEntries(i: ImageConfig): map<string, Value> {
    map["compression_ratio" := i.compressionRatio, "jpeg_quality" := i.jpegQuality]
  }

  function PersonasEntries(p: PersonasConfig): map<string, Value> {
    map["personas_file" := p.personasFile, "select_count" := p.selectCount, "always_include" := p.alwaysInclude]
  }

  lemma SectionsRoundTrip(c: AppConfig)
    requires c.personas.alwaysInclude != Null
    ensures ParseEnvironment(EnvironmentEntries(c.environment)) == c.environment
    ensures ParseBehavior(BehaviorEntries(c.behavior)) == c.behavior
    ensures ParseModels(ModelsEntries(c.models)) == c.models
    ensures ParseImage(ImageEntries(c.performance.image)) == c.performance.image
    ensures ParsePersonas(PersonasEntries(c.personas)) == c.personas
    ensures ParseSystem(map["prompt_file" := c.system.promptFile]) == c.system
  {
  }

  /** Every field is read from its own key: a full document naming each field
      parses back to the configuration it was written from. */
  lemma ParseToDocument(c: AppConfig)
    requires c.personas.alwaysInclude != Null
    ensures ParseConfig(ToDocument(c)) == Some(c)
  {
    var d := ToDocument(c).entries;
    assert Section(d, "environment") == Some(EnvironmentEntries(c.environment));
    assert Section(d, "behavior") == Some(BehaviorEntries(c.behavior));
    assert Section(d, "models") == Some(ModelsEntries(c.models));
    assert Section(d, "personas") == Some(PersonasEntries(c.personas));
    assert Section(d, "system") == Some(map["prompt_file" := c.system.promptFile]);
    var perf := map["image" := Dict(ImageEntries(c.performance.image))];
    assert Section(d, "performance") == Some(perf);
    assert Section(perf, "image") == Some(ImageEntries(c.performance.image));
    SectionsRoundTrip(c);
  }

  /** `override_with_args`. `ollama_url`, `voice_server_url`, `xml_file` and
      `analysis_interval` apply only when given and not `None`; `enable_voice`
      and `debug_mode` apply whenever the key is present, `None` included.
      Nothing else changes. */
  function OverrideWithArgs(c: AppConfig, kwargs: map<string, Value>): (r: AppConfig)
    ensures "ollama_url" in kwargs && kwargs["ollama_url"] != Null
      ==> r.environment.ollamaUrl == kwargs["ollama_url"]
    ensures !("ollama_url" in kwargs && kwargs["ollama_url"] != Null)
      ==> r.environment.ollamaUrl == c.environment.ollamaUrl
    ensures "voice_server_url" in kwargs && kwargs["voice_server_url"] != Null
      ==> r.environment.voiceServerUrl == kwargs["voice_server_url"]
    ensures !("voice_server_url" in kwargs && kwargs["voice_server_url"] != Null)
      ==> r.environment.voiceServerUrl == c.environment.voiceServerUrl
    ensures "xml_file" in kwargs && kwargs["xml_file"] != Null
      ==> r.environment.xmlFile == kwargs["xml_file"]
    ensures !("xml_file" in kwargs && kwargs["xml_file"] != Null)
      ==> r.environment.xmlFile == c.environment.xmlFile
    ensures r.behavior.enableVoice == (if "enable_voice" in kwargs then kwargs["enable_voice"] else c.behavior.enableVoice)
    ensures r.behavior.debugMode == (if "debug_mode" in kwargs then kwargs["debug_mode"] else c.behavior.debugMode)
    ensures "analysis_interval" in kwargs && kwargs["analysis_interval"] != Null
      ==> r.behavior.analysisInterval == kwargs["analysis_interval"]
    ensures !("analysis_interval" in kwargs && kwargs["analysis_interval"] != Null)
      ==> r.behavior.analysisInterval == c.behavior.analysisInterval
    ensures r.models == c.models && r.performance == c.performance
    ensures r.personas == c.personas && r.system == c.system
  {
    c.(
      environment := EnvironmentConfig(
        GivenOr(kwargs, "ollama_url", c.environment.ollamaUrl),
        GivenOr(kwargs, "voice_server_url", c.environment.voiceServerUrl),
        GivenOr(kwargs, "xml_file", c.environment.xmlFile)),
      behavior := BehaviorConfig(
        GetOr(kwargs, "enable_voice", c.behavior.enableVoice),
        GetOr(kwargs, "debug_mode", c.behavior.debugMode),
        GivenOr(kwargs, "analysis_interval", c.behavior.analysisInterval)))
  }

  /** The value of a keyword argument that is present and not `None`, else `current`. */
  function GivenOr(kwargs: map<string, Value>, key: string, current: Value): Value {
    if key in kwargs && kwargs[key] != Null then kwargs[key] else current
  }

  /** Overriding twice with the same arguments is overriding once. */
  lemma OverrideIdempotent(c: AppConfig, kwargs: map<string, Value>)
    ensures OverrideWithArgs(OverrideWithArgs(c, kwargs), kwargs) == OverrideWithArgs(c, kwargs)
  {
  }

  /** With no keyword arguments the configuration is returned unchanged. */
  lemma OverrideNothing(c: AppConfig)
    ensures OverrideWithArgs(c, map[]) == c
  {
  }

  /** `None` for a URL keeps the configured URL, while `None` for a flag
      replaces the flag. */
  lemma NoneOverrides(c: AppConfig)
    ensures OverrideWithArgs(c, map["ollama_url" := Null]).environment.ollamaUrl == c.environment.ollamaUrl
    ensures OverrideWithArgs(c, map["debug_mode" := Null]).behavior.debugMode == Null
  {
  }
}
