/** What a JSON configuration file can hold when it is read. */
module ConfigFile {
  import Json

  /** The file is absent, cannot be decoded, or decodes to a value. */
  datatype Stored = Missing | Corrupt | Holds(v: Json.Value)

  /** The dict in a stored file, read the way most of the application does:
      an absent or undecodable file counts as `{}`; `None` when it decodes
      to something other than a dict. */
  function DictOrEmpty(s: Stored): (r: Wrappers.Option<map<string, Json.Value>>)
    ensures s.Missing? || s.Corrupt? ==> r == Wrappers.Some(map[])
    ensures s.Holds? ==> (r.Some? <==> s.v.Obj?)
    ensures s.Holds? && s.v.Obj? ==> r == Wrappers.Some(s.v.fields)
  {
    match s
    case Holds(Obj(m)) => Wrappers.Some(m)
    case Holds(_) => Wrappers.None
    case _ => Wrappers.Some(map[])
  }

  import Wrappers
}

/** `SettingsHandler` in core/services/settings_handler.py: the in-memory
    settings and the writes made to the configuration file. */
module SettingsHandler {
  import opened Wrappers
  import Json
  import opened ConfigFile

  /** `settings` holds whatever the file decoded to; `writes` lists what
      `save_settings` wrote, oldest first. */
  datatype Handler = Handler(settings: Json.Value, writes: seq<Json.Value>)

  /** `load_settings()`: a missing file is created from the current
      settings, an undecodable one is replaced by `{}`, and a readable one
      becomes the settings. */
  function LoadSettings(h: Handler, file: Stored): (r: Handler)
    ensures file.Missing? ==> r == Handler(h.settings, h.writes + [h.settings])
    ensures file.Corrupt? ==> r == Handler(Json.Obj(map[]), h.writes + [Json.Obj(map[])])
    ensures file.Holds? ==> r == Handler(file.v, h.writes)
  {
    match file
    case Missing => h.(writes := h.writes + [h.settings])
    case Corrupt => Handler(Json.Obj(map[]), h.writes + [Json.Obj(map[])])
    case Holds(v) => h.(settings := v)
  }

  /** `SettingsHandler(main_ui, config_file)`: `{}` and then
      `load_settings()`. */
  function New(file: Stored): (h: Handler)
    ensures file.Missing? ==> h.settings == Json.Obj(map[]) && h.writes == [Json.Obj(map[])]
    ensures file.Corrupt? ==> h.settings == Json.Obj(map[]) && h.writes == [Json.Obj(map[])]
  {
    LoadSettings(Handler(Json.Obj(map[]), []), file)
  }

  /** Whatever the file holds, a fresh handler writes at most once, and only
      when the file could not be used. */
  lemma NewWritesOnlyWhenUnusable(file: Stored)
    ensures |New(file).writes| <= 1
    ensures |New(file).writes| == 1 <==> !file.Holds?
  {
  }

  /** `save_setting(key, value)`: an unchanged value leaves everything as
      it was and returns `True`; a changed one is stored under `key`, the
      settings are written, and the `None` of `save_settings()` is returned.
      On settings that are not a dict `.get` raises. */
  function SaveSetting(h: Handler, key: string, value: Json.Value): (r: Result<(Handler, Json.Value)>)
    ensures !h.settings.Obj? ==> r == Err(Json.NoAttribute(h.settings, "get"))
    ensures h.settings.Obj? && Json.Get(h.settings.fields, key) == value ==> r == Ok((h, Json.Bool(true)))
    ensures h.settings.Obj? && Json.Get(h.settings.fields, key) != value ==>
              var m := h.settings.fields[key := value];
              r == Ok((Handler(Json.Obj(m), h.writes + [Json.Obj(m)]), Json.Null))
  {
    match h.settings
    case Obj(m) =>
      if Json.Get(m, key) != value then
        var s := Json.Obj(m[key := value]);
        Ok((Handler(s, h.writes + [s]), Json.Null))
      else Ok((h, Json.Bool(true)))
    case _ => Err(Json.NoAttribute(h.settings, "get"))
  }

  /** Saving a value changes that key only; saving it again changes
      nothing and writes nothing. */
  lemma SaveSettingTwice(h: Handler, key: string, value: Json.Value)
    requires h.settings.Obj? && value != Json.Null
    ensures SaveSetting(h, key, value).Ok?
    ensures var h1 := SaveSetting(h, key, value).value.0;
            && h1.settings.Obj? && h1.settings.fields[key] == value
            && (forall k :: k in h.settings.fields && k != key ==> h1.settings.fields[k] == h.settings.fields[k])
            && SaveSetting(h1, key, value) == Ok((h1, Json.Bool(true)))
  {
  }

  /** The keys holding directories. */
  predicate IsDirectoryKey(key: string) {
    key == "load_dir" || key == "last_save_directory"
  }

  /** Whether `os.path.exists(value)` holds for a setting value; `pathExists`
      answers for strings, and any other truthy value is taken to pass. */
  predicate PathExists(value: Json.Value, pathExists: string -> bool) {
    !value.Str? || pathExists(value.s)
  }

  /** `get_setting(key, default)`: the stored value or the default; a
      directory key whose truthy value does not exist gives the home
      directory when no default was given. */
  function GetSetting(h: Handler, key: string, default: Json.Value, pathExists: string -> bool, home: string): (r: Result<Json.Value>)
    ensures !h.settings.Obj? ==> r.Err?
    ensures h.settings.Obj? && key !in h.settings.fields && !(IsDirectoryKey(key) && Json.Truthy(default)) ==> r == Ok(default)
    ensures h.settings.Obj? && key in h.settings.fields && !IsDirectoryKey(key) ==> r == Ok(h.settings.fields[key])
    ensures h.settings.Obj? && IsDirectoryKey(key) ==>
              var value := if key in h.settings.fields then h.settings.fields[key] else default;
              r == Ok(if Json.Truthy(value) && !PathExists(value, pathExists) && default == Json.Null
                      then Json.Str(home) else value)
  {
    match h.settings
    case Obj(m) =>
      var value := if key in m then m[key] else default;
      if IsDirectoryKey(key) && Json.Truthy(value) && !PathExists(value, pathExists) && default == Json.Null then
        Ok(Json.Str(home))
      else Ok(value)
    case _ => Err(Json.NoAttribute(h.settings, "get"))
  }

  /** A stored directory that has since disappeared is replaced by the home
      directory; one that still exists is returned as stored. */
  lemma StaleDirectoryFallsBack(h: Handler, dir: string, pathExists: string -> bool, home: string)
    requires h.settings.Obj? && "load_dir" in h.settings.fields && h.settings.fields["load_dir"] == Json.Str(dir)
    requires dir != []
    ensures GetSetting(h, "load_dir", Json.Null, pathExists, home) == Ok(Json.Str(if pathExists(dir) then dir else home))
  {
  }

  /** `check_settings()`: `False` without a file; otherwise the truthiness
      of the stored `claude_key`. Decoding errors and a non-dict file
      propagate. */
  function CheckSettings(file: Stored): (r: Result<bool>)
    ensures file.Missing? ==> r == Ok(false)
    ensures file.Holds? && file.v.Obj? ==> r == Ok(Json.Truthy(Json.Get(file.v.fields, "claude_key")))
    ensures r.Ok? ==> file.Missing? || (file.Holds? && file.v.Obj?)
  {
    match file
    case Missing => Ok(false)
    case Corrupt => Err("JSONDecodeError")
    case Holds(Obj(m)) => Ok(Json.Truthy(Json.Get(m, "claude_key")))
    case Holds(v) => Err(Json.NoAttribute(v, "get"))
  }

  /** A non-empty key that `save_setting` stores and writes makes
      `check_settings` true on the written file. */
  lemma SavedKeyChecks(h: Handler, key: string)
    requires h.settings.Obj? && key != []
    ensures var r := SaveSetting(h, "claude_key", Json.Str(key));
            && r.Ok?
            && (r.value.1 == Json.Null ==>
                  r.value.0.writes != [] && CheckSettings(Holds(r.value.0.writes[|r.value.0.writes| - 1])) == Ok(true))
  {
  }
}

/** `check_settings_file` and `validate_settings` in main.py. */
module Startup {
  import opened Text
  import Json
  import opened ConfigFile

  /** The required keys with their defaults, in the order they are
      checked. */
  function Required(home: string): (r: seq<(string, Json.Value)>)
    ensures |r| == 4
  {
    [("openai_key", Json.Str("")), ("load_dir", Json.Str(home)),
     ("last_save_directory", Json.Str(home)), ("assistant_id", Json.Str(""))]
  }

  /** The file written when there is none, or when it is unusable. */
  function Defaults(home: string): (v: Json.Value)
    ensures v.Obj? && v.fields.Keys == {"openai_key", "load_dir", "last_save_directory", "assistant_id"}
  {
    Json.Obj(map["openai_key" := Json.Str(""), "load_dir" := Json.Str(home),
                 "last_save_directory" := Json.Str(home), "assistant_id" := Json.Str("")])
  }

  /** Python's `key in v`: a dict tests its keys, a str its substrings, a
      list its elements; anything else raises (`None`). */
  function HasKey(v: Json.Value, key: string): (r: Wrappers.Option<bool>)
    ensures v.Obj? ==> r == Wrappers.Some(key in v.fields)
  {
    match v
    case Obj(m) => Wrappers.Some(key in m)
    case Str(s) => Wrappers.Some(Contains(s, key))
    case Arr(items) => Wrappers.Some(Json.Str(key) in items)
    case _ => Wrappers.None
  }

  /** The loop over the required keys: each missing key is assigned its
      default (only a dict accepts the assignment). `None` when a step
      raises; otherwise the value and whether anything was added. */
  function AddMissing(v: Json.Value, keys: seq<(string, Json.Value)>, updated: bool): (r: Wrappers.Option<(Json.Value, bool)>)
    ensures v.Obj? ==> r.Some? && r.value.0.Obj?
    ensures v.Obj? ==> r.value.0.fields.Keys == v.fields.Keys + set i | 0 <= i < |keys| :: keys[i].0
    ensures v.Obj? ==> forall k :: k in v.fields ==> r.value.0.fields[k] == v.fields[k]
    ensures v.Obj? ==> (r.value.1 <==> updated || exists i :: 0 <= i < |keys| && keys[i].0 !in v.fields)
    decreases |keys|
  {
    if keys == [] then Wrappers.Some((v, updated))
    else
      var (key, default) := keys[0];
      match HasKey(v, key)
      case None => Wrappers.None
      case Some(true) => AddMissing(v, keys[1..], updated)
      case Some(false) =>
        if v.Obj? then
          var r := AddMissing(Json.Obj(v.fields[key := default]), keys[1..], true);
          assert forall i :: 0 <= i < |keys[1..]| ==> keys[1..][i] == keys[i + 1];
          r
        else Wrappers.None
  }

  /** What `check_settings_file()` returns and what, if anything, it
      writes. */
  datatype Check = Check(ok: bool, written: Wrappers.Option<Json.Value>)

  /** `check_settings_file()`: a missing or unusable file is replaced by the
      defaults and gives `False`; a usable one gets the missing required
      keys, is rewritten only when one was added, and gives `True`. */
  function CheckSettingsFile(file: Stored, home: string): (r: Check)
    ensures file.Missing? || file.Corrupt? ==> r == Check(false, Wrappers.Some(Defaults(home)))
    ensures !r.ok ==> r.written == Wrappers.Some(Defaults(home))
  {
    match file
    case Holds(v) =>
      (match AddMissing(v, Required(home), false)
       case None => Check(false, Wrappers.Some(Defaults(home)))
       case Some((merged, updated)) => Check(true, if updated then Wrappers.Some(merged) else Wrappers.None))
    case _ => Check(false, Wrappers.Some(Defaults(home)))
  }

  /** A usable dict keeps every key and value it had, gains exactly the
      missing required keys, and is written only when one was missing. */
  lemma MergeKeepsExisting(m: map<string, Json.Value>, home: string)
    ensures var r := CheckSettingsFile(Holds(Json.Obj(m)), home);
            && r.ok
            && (r.written.Some? <==> exists i :: 0 <= i < 4 && Required(home)[i].0 !in m)
            && (r.written.Some? ==>
                  && r.written.value.Obj?
                  && r.written.value.fields.Keys == m.Keys + Defaults(home).fields.Keys
                  && forall k :: k in m ==> r.written.value.fields[k] == m[k])
  {
    var keys := Required(home);
    assert (set i | 0 <= i < |keys| :: keys[i].0) == Defaults(home).fields.Keys by {
      assert keys[0].0 == "openai_key" && keys[1].0 == "load_dir";
      assert keys[2].0 == "last_save_directory" && keys[3].0 == "assistant_id";
    }
  }

  /** A complete file is left alone. */
  lemma CompleteFileUntouched(m: map<string, Json.Value>, home: string)
    requires forall k :: k in Defaults(home).fields ==> k in m
    ensures CheckSettingsFile(Holds(Json.Obj(m)), home) == Check(true, Wrappers.None)
  {
    MergeKeepsExisting(m, home);
    var keys := Required(home);
    assert forall i :: 0 <= i < 4 ==> keys[i].0 in Defaults(home).fields;
  }

  /** A file holding a number is replaced by the defaults. */
  lemma NumberFileReplaced(n: int, home: string)
    ensures CheckSettingsFile(Holds(Json.Num(n)), home) == Check(false, Wrappers.Some(Defaults(home)))
  {
  }

  /** `validate_settings()`: `True` exactly when the file is a dict whose
      `openai_key` is a string that is not blank. */
  function ValidateSettings(file: Stored): (r: bool)
    ensures r <==> file.Holds? && file.v.Obj? && "openai_key" in file.v.fields
                   && file.v.fields["openai_key"].Str? && Strip(file.v.fields["openai_key"].s) != []
  {
    match file
    case Holds(Obj(m)) =>
      var key := if "openai_key" in m then m["openai_key"] else Json.Str("");
      key.Str? && Strip(key.s) != []
    case _ => false
  }

  /** The defaults written on first start never validate: their key is
      empty. */
  lemma DefaultsDoNotValidate(home: string)
    ensures !ValidateSettings(Holds(Defaults(home)))
  {
    assert Defaults(home).fields["openai_key"] == Json.Str("");
  }

  import Wrappers
}
