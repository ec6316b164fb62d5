/** `initialize_jsonl_file` and `append_to_jsonl` in
    utils/worker_thread_chat_completion.py: where the results file goes and
    what it holds. The save dialog, the clock and the filesystem are inputs. */
module JsonlFile {
  import opened Text

  /** The suffix every results file gets. */
  const Suffix: string := ".jsonl"

  /** `captions_{timestamp}.jsonl`. */
  function DefaultName(timestamp: string): (r: string)
    ensures EndsWith(r, Suffix)
    ensures |r| > 0 && r[0] != '/'
  {
    "captions_" + timestamp + Suffix
  }

  /** The file name the user typed, with ".jsonl" appended unless it already
      ends with it in any letter case. */
  function WithSuffix(p: string): (r: string)
    ensures EndsWith(Lower(r), Suffix)
    ensures |r| >= |p| && r[..|p|] == p
    ensures EndsWith(Lower(p), Suffix) ==> r == p
  {
    if EndsWith(Lower(p), Suffix) then p
    else
      var r := p + Suffix;
      assert Lower(r)[|r| - |Suffix|..] == Suffix;
      r
  }

  /** Adding the suffix twice is the same as adding it once. */
  lemma WithSuffixIdempotent(p: string)
    ensures WithSuffix(WithSuffix(p)) == WithSuffix(p)
  {
  }

  /** A name that already ends in ".jsonl" in some other letter case is kept
      as it is. */
  lemma UpperCaseSuffixKept()
    ensures WithSuffix("out.JSONL") == "out.JSONL"
  {
    assert Lower("out.JSONL") == "out.jsonl";
  }

  /** What the user and the filesystem do while the file is set up. */
  datatype Choice = Choice(
    timestamp: string,   // `time.strftime("%Y%m%d_%H%M%S")` before the dialog
    laterTimestamp: string, // the clock read again after the file could not be created
    chosen: string,      // the save dialog's answer, empty when cancelled
    home: string,        // `os.path.expanduser('~')`
    created: bool,       // creating the file at the chosen place succeeds
    fallbackCreated: bool) // creating it in the home directory succeeds

  /** The results file, the remembered save directory afterwards, and the
      method's return value. */
  datatype Setup = Setup(path: string, lastDir: string, ok: bool)

  /** `initialize_jsonl_file()`. A cancelled dialog puts the default name in
      the remembered directory; a chosen name gets the suffix and, with a
      settings store, makes its directory the remembered one; when the file
      cannot be created the default name, stamped by a second reading of the
      clock, in the home directory is used. */
  function Initialize(lastDir: string, hasSettings: bool, c: Choice): (r: Setup)
    ensures c.created ==> r.ok
    ensures !c.created ==> r == Setup(JoinPath(c.home, DefaultName(c.laterTimestamp)), r.lastDir, c.fallbackCreated)
    ensures c.created && c.chosen == [] ==> r == Setup(JoinPath(lastDir, DefaultName(c.timestamp)), lastDir, true)
    ensures c.created && c.chosen != [] ==> r.path == WithSuffix(c.chosen)
    ensures c.chosen == [] || !hasSettings ==> r.lastDir == lastDir
  {
    var path := if c.chosen == [] then JoinPath(lastDir, DefaultName(c.timestamp)) else WithSuffix(c.chosen);
    var dir := if c.chosen != [] && hasSettings then Dirname(path) else lastDir;
    if c.created then Setup(path, dir, true)
    else Setup(JoinPath(c.home, DefaultName(c.laterTimestamp)), dir, c.fallbackCreated)
  }

  /** `os.path.join(d, name)` ends with `name` when `name` is relative. */
  lemma JoinEndsWithName(d: string, name: string)
    requires |name| > 0 && name[0] != '/'
    ensures EndsWith(JoinPath(d, name), name)
  {
    var j := JoinPath(d, name);
    if d == [] || d[|d| - 1] == '/' {
      assert j == d + name;
    } else {
      assert j == d + "/" + name;
    }
    assert j[|j| - |name|..] == name;
  }

  lemma LowerKeepsSuffix(s: string)
    requires EndsWith(s, Suffix)
    ensures EndsWith(Lower(s), Suffix)
  {
    assert Lower(s)[|s| - |Suffix|..] == Suffix;
  }

  /** Whatever the dialog, the settings or the filesystem do, the results
      file ends in ".jsonl" (ignoring letter case). */
  lemma {:induction false} PathEndsWithSuffix(lastDir: string, hasSettings: bool, c: Choice)
    ensures EndsWith(Lower(Initialize(lastDir, hasSettings, c).path), Suffix)
  {
    var r := Initialize(lastDir, hasSettings, c);
    var name := DefaultName(if c.created then c.timestamp else c.laterTimestamp);
    if !c.created {
      JoinEndsWithName(c.home, name);
      assert EndsWith(r.path, Suffix) by {
        assert r.path[|r.path| - |Suffix|..] == name[|name| - |Suffix|..];
      }
      LowerKeepsSuffix(r.path);
    } else if c.chosen == [] {
      JoinEndsWithName(lastDir, name);
      assert EndsWith(r.path, Suffix) by {
        assert r.path[|r.path| - |Suffix|..] == name[|name| - |Suffix|..];
      }
      LowerKeepsSuffix(r.path);
    }
  }

  /** A path already ending in ".jsonl" gets no second suffix. */
  lemma SuffixedJoinKept(dir: string, name: string)
    requires dir != [] && dir[|dir| - 1] != '/'
    requires name != [] && name[0] != '/' && EndsWith(Lower(name), Suffix)
    ensures WithSuffix(JoinPath(dir, name)) == JoinPath(dir, name)
  {
    var p := JoinPath(dir, name);
    assert p == dir + "/" + name;
    assert Lower(p)[|p| - |Suffix|..] == Lower(name)[|name| - |Suffix|..];
  }

  /** With a settings store, the remembered directory is the directory of
      the file that was set up. */
  lemma RememberedIsDirname(lastDir: string, c: Choice)
    requires c.chosen != []
    ensures Initialize(lastDir, true, c).lastDir == Dirname(WithSuffix(c.chosen))
  {
  }

  /** A file chosen in the dialog makes its directory the remembered one. */
  lemma ChosenDirectoryRemembered(lastDir: string, c: Choice, dir: string, name: string)
    requires dir != [] && dir[|dir| - 1] != '/'
    requires name != [] && '/' !in name && EndsWith(Lower(name), Suffix)
    requires c.chosen == JoinPath(dir, name)
    ensures Initialize(lastDir, true, c).lastDir == dir
  {
    SuffixedJoinKept(dir, name);
    RememberedIsDirname(lastDir, c);
    JoinPathSplits(dir, name);
  }
}
