/**
 * The creation tool's configuration (diary_manager.py): reading config.yaml
 * with defaults for missing settings, and `run_creation`, which refuses an
 * empty diary root and otherwise creates today's entry.
 */
module Config {
  import opened Calendar
  import opened Entry

  /** A YAML value as `yaml.safe_load` returns it (mapping keys are strings here). */
  datatype Value =
    | VNone
    | VBool(b: bool)
    | VInt(i: int)
    | VStr(s: string)
    | VList(items: seq<Value>)
    | VDict(entries: map<string, Value>)

  /** Python truthiness. */
  predicate Truthy(v: Value) {
    match v
    case VNone => false
    case VBool(b) => b
    case VInt(i) => i != 0
    case VStr(s) => s != ""
    case VList(items) => |items| > 0
    case VDict(m) => |m| > 0
  }

  /** What reading config.yaml comes to: no file, an error while reading or parsing, or a parsed value. */
  datatype ConfigFile = Missing | Unreadable | Parsed(value: Value)

  /** The four settings and their defaults. */
  function Defaults(): map<string, Value> {
    map["base_path" := VStr(""),
        "filename_format" := VStr(DefaultFormat),
        "use_template" := VBool(false),
        "template_path" := VStr("")]
  }

  /** `data.setdefault(key, value)` for every default: only absent keys are filled. */
  function WithDefaults(data: map<string, Value>): (r: map<string, Value>)
    ensures r.Keys == data.Keys + Defaults().Keys
    ensures forall k :: k in data ==> r[k] == data[k]
    ensures forall k :: k in Defaults() && k !in data ==> r[k] == Defaults()[k]
  {
    map k | k in data.Keys + Defaults().Keys :: if k in data then data[k] else Defaults()[k]
  }

  /** `load_config()`: the defaults unless the file holds a mapping, which is completed with them. */
  function LoadConfig(file: ConfigFile): (r: map<string, Value>)
    ensures Defaults().Keys <= r.Keys
    ensures !(file.Parsed? && file.value.VDict?) ==> r == Defaults()
    ensures file.Parsed? && file.value.VDict? ==> r == WithDefaults(file.value.entries)
  {
    match file
    case Parsed(VDict(m)) => WithDefaults(m)
    case _ => Defaults()
  }

  /** `config.get(key, default)`. */
  function Get(config: map<string, Value>, key: string, default: Value): (v: Value)
    ensures key in config ==> v == config[key]
    ensures key !in config ==> v == default
  {
    if key in config then config[key] else default
  }

  /** What `run_creation` ends in. */
  datatype Outcome =
    /** The message returned and the files afterwards. */
    | Reply(message: string, files: Files)
    /** A setting of the wrong type makes the creation raise a `TypeError`. */
    | Raised

  const EmptyRootMessage: string := "根目录不能为空"

  /** The four settings `run_creation` reads, each defaulted when missing. */
  datatype Settings = Settings(base: Value, format: Value, useTemplate: Value, templatePath: Value)

  function SettingsOf(config: map<string, Value>): Settings {
    Settings(
      Get(config, "base_path", VStr("")),
      Get(config, "filename_format", VStr(DefaultFormat)),
      Get(config, "use_template", VBool(false)),
      Get(config, "template_path", VStr("")))
  }

  /** The root and the format are of a type `create_diary_entry` can use before it looks at the target. */
  predicate Usable(st: Settings) {
    && st.base.VStr? && st.base.s != ""
    && (!Truthy(st.format) || st.format.VStr?)
  }

  /** The format passed on: a falsy one becomes "", which falls back to the default. */
  function FormatText(v: Value): string {
    if Truthy(v) && v.VStr? then v.s else ""
  }

  /** Where the entry for these settings goes. */
  function Target(st: Settings, today: Date, other: char -> string): Location
    requires Valid(today) && Usable(st)
  {
    EntryLocation(st.base.s, FormatText(st.format), today, other)
  }

  /** `use_template and template_path and os.path.exists(template_path)` raises: the path is not a string. */
  predicate BadTemplate(st: Settings) {
    Truthy(st.useTemplate) && Truthy(st.templatePath) && !st.templatePath.VStr?
  }

  /**
   * `run_creation(config)`: a falsy root is refused with a message; otherwise
   * today's entry is created from the settings, the missing ones defaulted.
   */
  function RunCreation(config: map<string, Value>, files: Files, today: Date, other: char -> string): (o: Outcome)
    requires Valid(today)
    ensures !Truthy(Get(config, "base_path", VStr(""))) ==> o == Reply(EmptyRootMessage, files)
    ensures var st := SettingsOf(config);
      Usable(st) && TargetExists(files, Target(st, today, other)) ==>
        o == Reply(ExistsPrefix + Target(st, today, other).target, files)
    ensures var st := SettingsOf(config);
      Usable(st) && !TargetExists(files, Target(st, today, other)) && !BadTemplate(st) ==>
        && o.Reply?
        && o.message == CreatedPrefix + Target(st, today, other).target
        && o.files.Keys == files.Keys + {Target(st, today, other).target}
    ensures o.Reply? ==> forall p :: p in files ==> p in o.files && o.files[p] == files[p]
  {
    Create(SettingsOf(config), files, today, other)
  }

  /**
   * `create_diary_entry` on the settings, after the root check. A truthy root
   * or format that is not a string raises at `os.path.join` or `strftime`,
   * before the target is looked at. An existing target is reported whatever
   * the template settings. Only then is the template path used, and a truthy
   * one that is not a string raises when `use_template` is set.
   */
  function Create(st: Settings, files: Files, today: Date, other: char -> string): (o: Outcome)
    requires Valid(today)
    ensures !Truthy(st.base) ==> o == Reply(EmptyRootMessage, files)
    ensures Truthy(st.base) && !Usable(st) ==> o == Raised
    ensures Usable(st) && TargetExists(files, Target(st, today, other)) ==>
      o == Reply(ExistsPrefix + Target(st, today, other).target, files)
    ensures Usable(st) && !TargetExists(files, Target(st, today, other)) ==>
      (o == Raised <==> BadTemplate(st))
    ensures Usable(st) && !TargetExists(files, Target(st, today, other)) && !BadTemplate(st) ==>
      && o.Reply?
      && o.message == CreatedPrefix + Target(st, today, other).target
      && o.files.Keys == files.Keys + {Target(st, today, other).target}
    ensures o.Reply? ==> forall p :: p in files ==> p in o.files && o.files[p] == files[p]
  {
    if !Truthy(st.base) then Reply(EmptyRootMessage, files)
    else if !Usable(st) then Raised
    else if !TargetExists(files, Target(st, today, other)) && BadTemplate(st) then Raised
    else
      var t := if Truthy(st.useTemplate) && Truthy(st.templatePath) && st.templatePath.VStr? then st.templatePath.s else "";
      var r := CreateDiaryEntry(files, st.base.s, FormatText(st.format), Truthy(st.useTemplate), t, today, other);
      Reply(r.message, r.files)
  }

  /**
   * An existing target is reported even when the template path could not be
   * used: the template is only looked at for a file that is about to be written.
   */
  lemma ExistingTargetBeforeTemplate(config: map<string, Value>, files: Files, today: Date, other: char -> string)
    requires Valid(today)
    requires Usable(SettingsOf(config)) && BadTemplate(SettingsOf(config))
    ensures var st := SettingsOf(config);
      RunCreation(config, files, today, other) == Raised <==> !TargetExists(files, Target(st, today, other))
  {
  }

  /** Without a config file every setting is its default. */
  lemma MissingConfigIsDefaults()
    ensures LoadConfig(Missing) == Defaults()
    ensures LoadConfig(Missing)["base_path"] == VStr("")
    ensures LoadConfig(Missing)["filename_format"] == VStr("%Y%m%d.md")
    ensures LoadConfig(Missing)["use_template"] == VBool(false)
    ensures LoadConfig(Missing)["template_path"] == VStr("")
  {
  }

  /** The default configuration, as loaded from a missing file, creates nothing. */
  lemma DefaultsRefuse(files: Files, today: Date, other: char -> string)
    requires Valid(today)
    ensures RunCreation(LoadConfig(Missing), files, today, other) == Reply(EmptyRootMessage, files)
  {
  }

  /**
   * A missing setting behaves exactly like the setting at its default value,
   * so filling in the defaults does not change what `run_creation` does.
   */
  lemma DefaultsDoNotChangeCreation(config: map<string, Value>, files: Files, today: Date, other: char -> string)
    requires Valid(today)
    ensures RunCreation(WithDefaults(config), files, today, other) == RunCreation(config, files, today, other)
  {
    assert SettingsOf(WithDefaults(config)) == SettingsOf(config);
  }

  /** A mapping keeps its own settings and its other keys when loaded. */
  lemma LoadedMappingKeepsValues(m: map<string, Value>, k: string)
    requires k in m
    ensures k in LoadConfig(Parsed(VDict(m))) && LoadConfig(Parsed(VDict(m)))[k] == m[k]
  {
  }
}
