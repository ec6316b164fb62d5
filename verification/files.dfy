/** `FileOperations` in core/services/file_operations.py: the remembered
    image directory and the loading of chosen files into the table. The
    configuration file is a `ConfigFile.Stored`; `os.path.exists` is the
    parameter `pathExists`, and the file dialog's answer is the list of
    chosen paths. */
module FileOperations {
  import opened Wrappers
  import opened Text
  import Json
  import opened ConfigFile
  import ImageTable

  /** The directory `load_directory()` falls back to: the home directory,
      or the working directory when the home directory does not exist. */
  function DefaultDirectory(pathExists: string -> bool, home: string, cwd: string): (r: string)
    ensures r == home || r == cwd
    ensures pathExists(home) ==> r == home
    ensures r != cwd ==> pathExists(r)
  {
    if pathExists(home) then home else cwd
  }

  /** The value stored under `load_dir` when the file is a readable dict,
      the `''` default of `config.get('load_dir', '')` when the key is
      absent; `None` when the file is missing, undecodable or not a dict
      (the `get` raises and the error is swallowed). */
  function StoredLoadDir(file: Stored): (r: Option<Json.Value>)
    ensures r.Some? <==> file.Holds? && file.v.Obj?
  {
    match file
    case Holds(Obj(m)) => Some(if "load_dir" in m then m["load_dir"] else Json.Str(""))
    case _ => None
  }

  /** `load_directory()`: a stored `load_dir` that is a non-empty string
      naming an existing directory is returned; anything else gives the
      default directory. */
  function LoadDirectory(file: Stored, pathExists: string -> bool, home: string, cwd: string): (r: string)
    ensures (file.Holds? && file.v.Obj? && "load_dir" in file.v.fields
             && file.v.fields["load_dir"].Str?
             && file.v.fields["load_dir"].s != [] && pathExists(file.v.fields["load_dir"].s))
            ==> r == file.v.fields["load_dir"].s
    ensures !(file.Holds? && file.v.Obj? && "load_dir" in file.v.fields
              && file.v.fields["load_dir"].Str?
              && file.v.fields["load_dir"].s != [] && pathExists(file.v.fields["load_dir"].s))
            ==> r == (if pathExists(home) then home else cwd)
  {
    match StoredLoadDir(file)
    case Some(Str(dir)) =>
      if dir != [] && pathExists(dir) then dir else DefaultDirectory(pathExists, home, cwd)
    case _ => DefaultDirectory(pathExists, home, cwd)
  }

  /** `save_directory(directory)`: the file written, if any, and the value
      returned. A directory that does not exist is refused; a missing or
      undecodable file counts as `{}`; a file holding something other than
      a dict makes `get` raise, which gives `False` and no write. The file
      is written, with `load_dir` set and every other key kept, exactly
      when the stored `load_dir` differs from `directory`. */
  function SaveDirectory(file: Stored, directory: string, pathExists: string -> bool): (r: (Option<Json.Value>, bool))
    ensures !pathExists(directory) ==> r == (None, false)
    ensures r.1 <==> r.0.Some?
    ensures r.0.Some? ==>
              && pathExists(directory)
              && DictOrEmpty(file).Some?
              && Json.Get(DictOrEmpty(file).value, "load_dir") != Json.Str(directory)
              && r.0.value == Json.Obj(DictOrEmpty(file).value["load_dir" := Json.Str(directory)])
    ensures (pathExists(directory) && DictOrEmpty(file).Some?
             && Json.Get(DictOrEmpty(file).value, "load_dir") != Json.Str(directory)) ==> r.0.Some?
  {
    if !pathExists(directory) then (None, false)
    else
      match DictOrEmpty(file)
      case None => (None, false)
      case Some(config) =>
        if Json.Get(config, "load_dir") != Json.Str(directory) then
          (Some(Json.Obj(config["load_dir" := Json.Str(directory)])), true)
        else (None, false)
  }

  /** The file as it stands after `save_directory`. */
  function AfterSave(file: Stored, directory: string, pathExists: string -> bool): (r: Stored)
    ensures SaveDirectory(file, directory, pathExists).0.None? ==> r == file
  {
    match SaveDirectory(file, directory, pathExists).0
    case Some(v) => Holds(v)
    case None => file
  }

  /** Saving leaves every other key of a readable configuration as it was. */
  lemma SaveDirectoryKeepsOtherKeys(m: map<string, Json.Value>, directory: string, pathExists: string -> bool)
    ensures var after := AfterSave(Holds(Json.Obj(m)), directory, pathExists);
            && after.Holds? && after.v.Obj?
            && forall k :: k in m && k != "load_dir" ==> k in after.v.fields && after.v.fields[k] == m[k]
  {
  }

  /** Whatever the file held, once an existing, non-empty directory has been
      saved (or found already saved), `load_directory()` returns it — unless
      the file holds something other than a dict, which neither call can
      use. */
  lemma SavedDirectoryLoads(file: Stored, directory: string, pathExists: string -> bool, home: string, cwd: string)
    requires directory != [] && pathExists(directory)
    requires !(file.Holds? && !file.v.Obj?)
    ensures LoadDirectory(AfterSave(file, directory, pathExists), pathExists, home, cwd) == directory
  {
    var m := DictOrEmpty(file).value;
    var after := AfterSave(file, directory, pathExists);
    if Json.Get(m, "load_dir") != Json.Str(directory) {
      assert after == Holds(Json.Obj(m["load_dir" := Json.Str(directory)]));
    } else {
      assert after == file;
      assert "load_dir" in file.v.fields && file.v.fields["load_dir"] == Json.Str(directory);
    }
  }

  /** Saving the same directory twice writes at most once: the second call
      finds it stored and returns `False`. */
  lemma SaveDirectoryTwice(file: Stored, directory: string, pathExists: string -> bool)
    ensures SaveDirectory(AfterSave(file, directory, pathExists), directory, pathExists) == (None, false)
  {
    var first := SaveDirectory(file, directory, pathExists);
    if first.0.Some? {
      var m := first.0.value.fields;
      assert Json.Get(m, "load_dir") == Json.Str(directory);
    }
  }

  /** The state the operations share: the table's rows, the remembered
      directory, the configuration file and the select-all flag. */
  datatype Ops = Ops(rows: seq<ImageTable.Row>, loadDir: string, file: Stored, allSelected: bool)

  /** `FileOperations(parent, config_file)`: the directory is loaded at
      once and nothing is selected. */
  function New(rows: seq<ImageTable.Row>, file: Stored, pathExists: string -> bool, home: string, cwd: string): (o: Ops)
    ensures o.rows == rows && o.file == file && !o.allSelected
    ensures o.loadDir == LoadDirectory(file, pathExists, home, cwd)
  {
    Ops(rows, LoadDirectory(file, pathExists, home, cwd), file, false)
  }

  /** The rows `add_file_to_table` appends: one unchecked row per chosen
      file, with no format check (the dialog's filter is the only one). */
  function NewRows(chosen: seq<string>): (r: seq<ImageTable.Row>)
    ensures |r| == |chosen|
    ensures forall i :: 0 <= i < |r| ==> r[i] == ImageTable.Row(chosen[i], false)
  {
    seq(|chosen|, i requires 0 <= i < |chosen| => ImageTable.Row(chosen[i], false))
  }

  /** `load_files()` with the paths the file dialog returned: the directory
      is reloaded first; when files were chosen each becomes a new last row,
      the directory of the first one is saved and becomes the remembered
      one. */
  function LoadFiles(o: Ops, chosen: seq<string>, pathExists: string -> bool, home: string, cwd: string): (r: Ops)
    ensures chosen == [] ==> r == o.(loadDir := LoadDirectory(o.file, pathExists, home, cwd))
    ensures chosen != [] ==>
              && r.loadDir == Dirname(chosen[0])
              && r.rows == o.rows + NewRows(chosen)
              && r.file == AfterSave(o.file, Dirname(chosen[0]), pathExists)
    ensures r.allSelected == o.allSelected
  {
    var reloaded := o.(loadDir := LoadDirectory(o.file, pathExists, home, cwd));
    if chosen == [] then reloaded
    else
      var directory := Dirname(chosen[0]);
      reloaded.(rows := o.rows + NewRows(chosen), loadDir := directory,
                file := AfterSave(o.file, directory, pathExists))
  }

  /** After files are loaded from an existing directory, the remembered
      directory and the one the next start-up reads from the file agree. */
  lemma LoadFilesRemembers(o: Ops, chosen: seq<string>, pathExists: string -> bool, home: string, cwd: string)
    requires chosen != [] && Dirname(chosen[0]) != [] && pathExists(Dirname(chosen[0]))
    requires !(o.file.Holds? && !o.file.v.Obj?)
    ensures var r := LoadFiles(o, chosen, pathExists, home, cwd);
            LoadDirectory(r.file, pathExists, home, cwd) == r.loadDir
  {
    SavedDirectoryLoads(o.file, Dirname(chosen[0]), pathExists, home, cwd);
  }

  /** The existing rows are untouched and the new ones follow in the order
      chosen, each unchecked. */
  lemma LoadFilesAppends(o: Ops, chosen: seq<string>, pathExists: string -> bool, home: string, cwd: string)
    ensures var r := LoadFiles(o, chosen, pathExists, home, cwd);
            && |r.rows| == |o.rows| + |chosen|
            && r.rows[..|o.rows|] == o.rows
            && forall i :: 0 <= i < |chosen| ==> r.rows[|o.rows| + i] == ImageTable.Row(chosen[i], false)
  {
  }
}
