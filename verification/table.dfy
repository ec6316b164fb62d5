/** The image table of the main window (core/dialog/main_dialog.py), of
    its stand-alone twin `FileListWidget` (core/widget/file_list_widget.py)
    and of the helpers in core/services/file_operations.py. A table is the
    sequence of its rows, each a file path and the state of the row's
    checkbox; thumbnails, icons and colours are left out. */
module ImageTable {
  import opened Text
  import Json
  import Request
  import Processor

  datatype Row = Row(path: string, checked: bool)

  /** The extensions both `is_allowed_format` methods accept. */
  const AllowedFormats: set<string> := {".jpg", ".jpeg", ".png", ".bmp"}

  /** `is_allowed_format(path)`: the lower-cased `os.path.splitext`
      extension is an image extension. `AllowedFormatIff` says exactly
      which names pass. */
  predicate IsAllowedFormat(path: string) {
    Lower(SplitExt(path).1) in AllowedFormats
  }

  lemma LowerKeepsDots(s: string)
    ensures forall i :: 0 <= i < |s| ==> (Lower(s)[i] == '.' <==> s[i] == '.')
  {
  }

  /** The last occurrence of `c` in `s` is at `k` when `s[k]` is `c` and no
      later character is. */
  lemma RFindIs(s: string, c: char, k: int)
    requires 0 <= k < |s| && s[k] == c
    requires forall i :: k < i < |s| ==> s[i] != c
    ensures RFind(s, c) == k
  {
  }

  /** An extension whose lower-case form is an image extension starts with
      its only dot and has no slash. */
  lemma ExtensionShape(ext: string)
    requires Lower(ext) in AllowedFormats
    ensures |ext| >= 4 && ext[0] == '.'
    ensures forall i :: 0 < i < |ext| ==> ext[i] != '.' && ext[i] != '/'
  {
    var e := Lower(ext);
    assert e == ".jpg" || e == ".jpeg" || e == ".png" || e == ".bmp";
    assert forall i :: 0 < i < |e| ==> e[i] != '.' && e[i] != '/';
    assert forall i :: 0 <= i < |ext| ==> LowerChar(ext[i]) == e[i];
  }

  /** A file name made of a stem without dots and an image extension in
      any letter case passes, whatever directory it is in. */
  lemma ImageFileAllowed(dir: string, stem: string, ext: string)
    requires stem != [] && '.' !in stem && '/' !in stem
    requires Lower(ext) in AllowedFormats
    ensures IsAllowedFormat(dir + "/" + stem + ext)
  {
    ExtensionShape(ext);
    var p := dir + "/" + stem + ext;
    var dot := |dir| + 1 + |stem|;
    assert forall i :: dot <= i < |p| ==> p[i] == ext[i - dot];
    assert forall i :: |dir| < i < dot ==> p[i] == stem[i - |dir| - 1];
    RFindIs(p, '.', dot);
    RFindIs(p, '/', |dir|);
    assert p[|dir| + 1] == stem[0];
    assert HasNonDot(p, |dir| + 1, dot);
    assert SplitExt(p).1 == p[dot..] == ext;
  }

  /** Ignoring case `path` ends in `e`, and the last path component has a
      character other than a dot before that ending. */
  predicate EndsAsImage(path: string, e: string) {
    && EndsWith(Lower(path), e)
    && exists i :: RFind(path, '/') < i < |path| - |e| && path[i] != '.'
  }

  /** A name `is_allowed_format` should accept, stated without `splitext`:
      it ends as an image with one of the four extensions. */
  predicate ImageName(path: string) {
    EndsAsImage(path, ".jpg") || EndsAsImage(path, ".jpeg") || EndsAsImage(path, ".png") || EndsAsImage(path, ".bmp")
  }

  /** A non-empty `splitext` extension starts at the last dot, which lies
      in the last component after a character other than a dot. */
  lemma SplitExtFound(path: string)
    requires SplitExt(path).1 != []
    ensures var sep := RFind(path, '/');
            var dot := RFind(path, '.');
            && sep < dot && SplitExt(path).1 == path[dot..]
            && exists i :: sep < i < dot && path[i] != '.'
  {
  }

  /** A name `is_allowed_format` accepts ends as an image with its own
      lower-cased extension. */
  lemma AllowedEndsAsImage(path: string)
    requires Lower(SplitExt(path).1) in AllowedFormats
    ensures EndsAsImage(path, Lower(SplitExt(path).1))
  {
    var ext := SplitExt(path).1;
    assert Lower(ext) != [];
    SplitExtFound(path);
    var dot := RFind(path, '.');
    assert Lower(path)[dot..] == Lower(ext);
  }

  /** Every name `is_allowed_format` accepts is an image name. */
  lemma AllowedIsImageName(path: string)
    requires Lower(SplitExt(path).1) in AllowedFormats
    ensures ImageName(path)
  {
    AllowedEndsAsImage(path);
    var e := Lower(SplitExt(path).1);
    assert e == ".jpg" || e == ".jpeg" || e == ".png" || e == ".bmp";
  }

  /** A name that ends as an image with an image extension is accepted by
      `is_allowed_format`. */
  lemma EndsAsImageIsAllowed(path: string, e: string)
    requires e in AllowedFormats && EndsAsImage(path, e)
    ensures Lower(SplitExt(path).1) in AllowedFormats
  {
    var sep := RFind(path, '/');
    var i :| sep < i < |path| - |e| && path[i] != '.';
    var k := |path| - |e|;
    var ext := path[k..];
    assert Lower(ext) == e by {
      assert forall j :: 0 <= j < |ext| ==> Lower(ext)[j] == Lower(path)[k + j];
    }
    ExtensionShape(ext);
    assert forall j :: k <= j < |path| ==> path[j] == ext[j - k];
    RFindIs(path, '.', k);
    assert HasNonDot(path, sep + 1, k);
    assert SplitExt(path).1 == ext;
  }

  /** Every image name is accepted by `is_allowed_format`. */
  lemma ImageNameIsAllowed(path: string)
    requires ImageName(path)
    ensures Lower(SplitExt(path).1) in AllowedFormats
  {
    if EndsAsImage(path, ".jpg") {
      EndsAsImageIsAllowed(path, ".jpg");
    } else if EndsAsImage(path, ".jpeg") {
      EndsAsImageIsAllowed(path, ".jpeg");
    } else if EndsAsImage(path, ".png") {
      EndsAsImageIsAllowed(path, ".png");
    } else {
      EndsAsImageIsAllowed(path, ".bmp");
    }
  }

  /** `is_allowed_format` accepts exactly the image names: `a.b.JPG` and
      `d/x.png` pass, while `d/.jpg`, `...png` and `x.jpg/y` do not. */
  lemma AllowedFormatIff(path: string)
    ensures IsAllowedFormat(path) <==> ImageName(path)
  {
    if IsAllowedFormat(path) {
      AllowedIsImageName(path);
    }
    if ImageName(path) {
      ImageNameIsAllowed(path);
    }
  }

  // ---------------------------------------------------------------------
  // Adding rows

  /** `add_file_to_list` accepts one path or a list of paths. */
  datatype Files = One(path: string) | Many(paths: seq<string>)

  function AsList(f: Files): (r: seq<string>)
    ensures f.One? ==> r == [f.path]
    ensures f.Many? ==> r == f.paths
  {
    match f
    case One(p) => [p]
    case Many(ps) => ps
  }

  /** The paths that end up as rows: those the format test allows whose
      row widget can be built (`widgetOk`). */
  function Admits(allowed: string -> bool, widgetOk: string -> bool): string -> bool {
    p => allowed(p) && widgetOk(p)
  }

  /** The rows the paths give: an unchecked row for each admitted path, in
      input order. */
  function Added(paths: seq<string>, admits: string -> bool): (r: seq<Row>)
    ensures |r| <= |paths|
    ensures forall i :: 0 <= i < |r| ==> admits(r[i].path) && !r[i].checked
  {
    if paths == [] then []
    else
      var p := paths[|paths| - 1];
      Added(paths[..|paths| - 1], admits) + (if admits(p) then [Row(p, false)] else [])
  }

  /** When every path is admitted, each path becomes one row, in order. */
  lemma {:induction false} AddedAll(paths: seq<string>, admits: string -> bool)
    requires forall i :: 0 <= i < |paths| ==> admits(paths[i])
    ensures |Added(paths, admits)| == |paths|
    ensures forall i :: 0 <= i < |paths| ==> Added(paths, admits)[i] == Row(paths[i], false)
  {
    if paths != [] {
      AddedAll(paths[..|paths| - 1], admits);
    }
  }

  /** No admitted path, no new row. */
  lemma {:induction false} AddedNone(paths: seq<string>, admits: string -> bool)
    requires forall i :: 0 <= i < |paths| ==> !admits(paths[i])
    ensures Added(paths, admits) == []
  {
    if paths != [] {
      AddedNone(paths[..|paths| - 1], admits);
    }
  }

  /** The loop of `add_file_to_list` for the format test `allowed`: each
      allowed path is inserted as the new last row; when building the row's
      widget fails the row just inserted is removed again. Disallowed paths
      are skipped. */
  method AddPaths(rows: seq<Row>, paths: seq<string>, allowed: string -> bool, widgetOk: string -> bool)
    returns (r: seq<Row>)
    ensures r == rows + Added(paths, Admits(allowed, widgetOk))
  {
    r := rows;
    var i := 0;
    while i < |paths|
      invariant 0 <= i <= |paths|
      invariant r == rows + Added(paths[..i], Admits(allowed, widgetOk))
    {
      var p := paths[i];
      assert paths[..i + 1][..i] == paths[..i];
      if allowed(p) {
        var position := |r|;
        r := r + [Row(p, false)];
        if !widgetOk(p) {
          r := r[..position];
        }
      }
      i := i + 1;
    }
    assert paths[..|paths|] == paths;
  }

  /** `add_file_to_list(file_paths)`: one path or a list of them, checked
      by `is_allowed_format`. */
  method AddFileToList(rows: seq<Row>, files: Files, widgetOk: string -> bool) returns (r: seq<Row>)
    ensures r == rows + Added(AsList(files), Admits(IsAllowedFormat, widgetOk))
  {
    r := AddPaths(rows, AsList(files), IsAllowedFormat, widgetOk);
  }

  /** A single path that is not an image leaves the table as it was. */
  lemma DisallowedSkipped(rows: seq<Row>, path: string, widgetOk: string -> bool)
    requires !IsAllowedFormat(path)
    ensures rows + Added(AsList(One(path)), Admits(IsAllowedFormat, widgetOk)) == rows
  {
    AddedNone([path], Admits(IsAllowedFormat, widgetOk));
  }

  // ---------------------------------------------------------------------
  // Selection queries

  function Paths(rows: seq<Row>): (r: seq<string>)
    ensures |r| == |rows| && forall i :: 0 <= i < |rows| ==> r[i] == rows[i].path
  {
    seq(|rows|, i requires 0 <= i < |rows| => rows[i].path)
  }

  /** `FileListWidget.get_selected_files()`: the paths of the checked rows,
      in row order. */
  function CheckedPaths(rows: seq<Row>): (r: seq<string>)
    ensures |r| <= |rows|
    ensures forall x :: x in r <==> exists i :: 0 <= i < |rows| && rows[i] == Row(x, true)
  {
    if rows == [] then []
    else
      var last := rows[|rows| - 1];
      CheckedPaths(rows[..|rows| - 1]) + (if last.checked then [last.path] else [])
  }

  /** `FileOperations.get_selected_files()`: the same, skipping rows with an
      empty path. */
  function SelectedFiles(rows: seq<Row>): (r: seq<string>)
    ensures |r| <= |rows|
    ensures forall i :: 0 <= i < |r| ==> r[i] != []
    ensures forall x :: x in r <==> x != [] && exists i :: 0 <= i < |rows| && rows[i] == Row(x, true)
  {
    if rows == [] then []
    else
      var last := rows[|rows| - 1];
      SelectedFiles(rows[..|rows| - 1]) + (if last.checked && last.path != [] then [last.path] else [])
  }

  /** The checked paths of two tables one after the other are those of the
      first followed by those of the second: the order of the rows is kept. */
  lemma {:induction false} CheckedPathsAppend(a: seq<Row>, b: seq<Row>)
    ensures CheckedPaths(a + b) == CheckedPaths(a) + CheckedPaths(b)
    decreases |b|
  {
    if b == [] {
      assert a + b == a;
    } else {
      var b0 := b[..|b| - 1];
      assert (a + b)[..|a + b| - 1] == a + b0;
      CheckedPathsAppend(a, b0);
    }
  }

  /** A single row contributes its path exactly when it is checked. */
  lemma CheckedPathsOfRow(row: Row)
    ensures CheckedPaths([row]) == if row.checked then [row.path] else []
  {
    assert [row][..0] == [];
  }

  /** The table with every row whose path is empty treated as unchecked. */
  function IgnoreEmpty(rows: seq<Row>): (r: seq<Row>)
    ensures |r| == |rows|
    ensures forall i :: 0 <= i < |rows| ==> r[i].path == rows[i].path
    ensures forall i :: 0 <= i < |rows| ==> (r[i].checked <==> rows[i].checked && rows[i].path != [])
  {
    seq(|rows|, i requires 0 <= i < |rows| => if rows[i].path == [] then rows[i].(checked := false) else rows[i])
  }

  /** `FileOperations.get_selected_files()` is `FileListWidget`'s query on
      the table whose empty-path rows count as unchecked: the same paths,
      in the same order, minus the empty ones. */
  lemma {:induction false} SelectedIsCheckedIgnoringEmpty(rows: seq<Row>)
    ensures SelectedFiles(rows) == CheckedPaths(IgnoreEmpty(rows))
    decreases |rows|
  {
    if rows != [] {
      var init := rows[..|rows| - 1];
      assert IgnoreEmpty(rows)[..|rows| - 1] == IgnoreEmpty(init);
      SelectedIsCheckedIgnoringEmpty(init);
    }
  }

  /** Without empty paths the two queries agree. */
  lemma SelectedIsCheckedWithoutEmpty(rows: seq<Row>)
    requires forall i :: 0 <= i < |rows| ==> rows[i].path != []
    ensures SelectedFiles(rows) == CheckedPaths(rows)
  {
    SelectedIsCheckedIgnoringEmpty(rows);
    assert IgnoreEmpty(rows) == rows;
  }

  /** Some row is checked. */
  predicate AnyChecked(rows: seq<Row>) {
    exists i :: 0 <= i < |rows| && rows[i].checked
  }

  /** `has_selected_files()`: scans the rows and stops at the first checked
      one. */
  method HasSelectedFiles(rows: seq<Row>) returns (b: bool)
    ensures b <==> AnyChecked(rows)
  {
    var i := 0;
    while i < |rows|
      invariant 0 <= i <= |rows|
      invariant forall j :: 0 <= j < i ==> !rows[j].checked
    {
      if rows[i].checked {
        return true;
      }
      i := i + 1;
    }
    return false;
  }

  /** Some checked row exactly when the checked paths are not empty. */
  lemma {:induction false} AnyCheckedIffPaths(rows: seq<Row>)
    ensures AnyChecked(rows) <==> CheckedPaths(rows) != []
  {
    if rows != [] {
      var init := rows[..|rows| - 1];
      AnyCheckedIffPaths(init);
      if AnyChecked(init) {
        var i :| 0 <= i < |init| && init[i].checked;
        assert rows[i] == init[i];
      }
      if AnyChecked(rows) && !rows[|rows| - 1].checked {
        var i :| 0 <= i < |rows| && rows[i].checked;
        assert init[i] == rows[i];
      }
    }
  }

  /** A non-empty selection means `has_selected_files()` is true. */
  lemma {:induction false} SelectedImpliesAnyChecked(rows: seq<Row>)
    requires SelectedFiles(rows) != []
    ensures AnyChecked(rows)
  {
    var init := rows[..|rows| - 1];
    if !rows[|rows| - 1].checked {
      SelectedImpliesAnyChecked(init);
      var i :| 0 <= i < |init| && init[i].checked;
      assert rows[i] == init[i];
    }
  }

  // ---------------------------------------------------------------------
  // Select all and the buttons

  /** The table together with the select-all toggle (`all_selected`,
      initially false). */
  datatype Table = Table(rows: seq<Row>, allSelected: bool)

  /** `toggle_select_all()`: flip the toggle and set every checkbox to it. */
  function ToggleSelectAll(t: Table): (r: Table)
    ensures r.allSelected == !t.allSelected
    ensures Paths(r.rows) == Paths(t.rows)
    ensures forall i :: 0 <= i < |r.rows| ==> r.rows[i].checked == r.allSelected
  {
    Table(seq(|t.rows|, i requires 0 <= i < |t.rows| => Row(t.rows[i].path, !t.allSelected)), !t.allSelected)
  }

  /** After the toggle some row is checked exactly when the table is not
      empty and the toggle was off. */
  lemma ToggleSelection(t: Table)
    ensures AnyChecked(ToggleSelectAll(t).rows) <==> t.rows != [] && !t.allSelected
  {
    var r := ToggleSelectAll(t);
    if t.rows != [] && !t.allSelected {
      assert r.rows[0].checked;
    }
  }

  /** Toggling twice restores the toggle and unchecks nothing that the
      first toggle checked: every row ends as the toggle started. */
  lemma ToggleTwice(t: Table)
    ensures var r := ToggleSelectAll(ToggleSelectAll(t));
            r.allSelected == t.allSelected && Paths(r.rows) == Paths(t.rows)
            && forall i :: 0 <= i < |r.rows| ==> r.rows[i].checked == t.allSelected
  {
  }

  datatype Buttons = Buttons(selectAll: bool, send: bool, delete: bool)

  /** `update_button_states()`: select-all needs rows, send and delete need
      a checked row. */
  function ButtonStates(rows: seq<Row>): (b: Buttons)
    ensures b.selectAll <==> |rows| > 0
    ensures b.send <==> CheckedPaths(rows) != []
    ensures b.delete == b.send
  {
    AnyCheckedIffPaths(rows);
    Buttons(|rows| > 0, AnyChecked(rows), AnyChecked(rows))
  }

  // ---------------------------------------------------------------------
  // Removing rows

  /** The rows from index `lo` on whose index is not in `drop`. */
  function KeepFrom(rows: seq<Row>, drop: set<int>, lo: nat): (r: seq<Row>)
    requires lo <= |rows|
    ensures |r| <= |rows| - lo
    decreases |rows| - lo
  {
    if lo == |rows| then []
    else (if lo in drop then [] else [rows[lo]]) + KeepFrom(rows, drop, lo + 1)
  }

  /** The rows left after removing the rows at the indices in `drop`. */
  function Remaining(rows: seq<Row>, drop: set<int>): seq<Row> {
    KeepFrom(rows, drop, 0)
  }

  /** `for row in sorted(rows, reverse=True): removeRow(row)`: removing from
      the highest index down leaves the lower indices in place, so exactly
      the listed rows go and the rest keep their order. */
  method RemoveRowsDescending(rows: seq<Row>, drop: set<int>) returns (r: seq<Row>)
    ensures r == Remaining(rows, drop)
  {
    r := rows;
    var i := |rows|;
    while i > 0
      invariant 0 <= i <= |rows|
      invariant r == rows[..i] + KeepFrom(rows, drop, i)
    {
      i := i - 1;
      assert rows[..i + 1] == rows[..i] + [rows[i]];
      if i in drop {
        r := r[..i] + r[i + 1..];
        assert r == rows[..i] + KeepFrom(rows, drop, i + 1);
      }
    }
  }

  /** The indices of the rows for which `matches` holds. */
  function IndicesWhere(rows: seq<Row>, matches: Row -> bool): set<int> {
    set i | 0 <= i < |rows| && matches(rows[i])
  }

  /** The rows for which `matches` does not hold, in order. */
  function Unmatched(rows: seq<Row>, matches: Row -> bool): (r: seq<Row>)
    ensures |r| <= |rows|
    ensures forall i :: 0 <= i < |r| ==> !matches(r[i])
  {
    if rows == [] then []
    else (if matches(rows[0]) then [] else [rows[0]]) + Unmatched(rows[1..], matches)
  }

  /** Removing the rows at the indices where `matches` holds keeps exactly
      the rows where it does not. */
  lemma {:induction false} RemainingUnmatched(rows: seq<Row>, matches: Row -> bool, lo: nat)
    requires lo <= |rows|
    ensures KeepFrom(rows, IndicesWhere(rows, matches), lo) == Unmatched(rows[lo..], matches)
    decreases |rows| - lo
  {
    if lo < |rows| {
      RemainingUnmatched(rows, matches, lo + 1);
      assert rows[lo..][1..] == rows[lo + 1..];
      assert lo in IndicesWhere(rows, matches) <==> matches(rows[lo]);
    }
  }

  /** An unmatched row is never lost: it is in the result as often as in
      the input. */
  lemma {:induction false} UnmatchedKeepsOthers(rows: seq<Row>, matches: Row -> bool, x: Row)
    requires !matches(x)
    ensures multiset(Unmatched(rows, matches))[x] == multiset(rows)[x]
  {
    if rows != [] {
      UnmatchedKeepsOthers(rows[1..], matches, x);
      var head := if matches(rows[0]) then [] else [rows[0]];
      assert Unmatched(rows, matches) == head + Unmatched(rows[1..], matches);
      assert multiset(head)[x] == multiset([rows[0]])[x];
      assert rows == [rows[0]] + rows[1..];
    }
  }

  function IsChecked(row: Row): bool {
    row.checked
  }

  /** `MainUI.delete_selected_items()`: the checked rows are collected in
      row order and, when there are any, removed from the highest index
      down. */
  method DeleteCheckedRows(rows: seq<Row>) returns (r: seq<Row>)
    ensures r == Unmatched(rows, IsChecked)
    ensures !AnyChecked(r) && ButtonStates(r).send == false
  {
    r := RemoveRowsDescending(rows, IndicesWhere(rows, IsChecked));
    RemainingUnmatched(rows, IsChecked, 0);
    assert rows[0..] == rows;
    AnyCheckedIffPaths(r);
  }

  /** Filtering rows none of which match changes nothing. */
  lemma {:induction false} NothingMatched(rows: seq<Row>, matches: Row -> bool)
    requires forall i :: 0 <= i < |rows| ==> !matches(rows[i])
    ensures Unmatched(rows, matches) == rows
  {
    if rows != [] {
      NothingMatched(rows[1..], matches);
    }
  }

  /** `FileListWidget` keeps the Qt selection (row indices) apart from the
      checkboxes. */
  datatype Widget = Widget(rows: seq<Row>, selection: set<int>)

  /** `FileListWidget.delete_selected_items()`: nothing happens without a
      selection or when the user answers "No"; otherwise exactly the
      selected rows are removed, the others keep their order, and the
      selection is cleared. */
  method DeleteSelectedItems(w: Widget, confirmed: bool) returns (r: Widget)
    ensures w.selection == {} || !confirmed ==> r == w
    ensures w.selection != {} && confirmed ==> r == Widget(Remaining(w.rows, w.selection), {})
  {
    if w.selection == {} || !confirmed {
      return w;
    }
    var rows := RemoveRowsDescending(w.rows, w.selection);
    r := Widget(rows, {});
  }

  /** Rows outside the selection all survive, in order. */
  lemma {:induction false} RemainingKeepsUnselected(rows: seq<Row>, drop: set<int>, lo: nat)
    requires lo <= |rows|
    requires forall i :: lo <= i < |rows| ==> i !in drop
    ensures KeepFrom(rows, drop, lo) == rows[lo..]
    decreases |rows| - lo
  {
    if lo < |rows| {
      RemainingKeepsUnselected(rows, drop, lo + 1);
      assert rows[lo..] == [rows[lo]] + rows[lo + 1..];
    }
  }

  /** Selecting every row and deleting empties the table. */
  lemma {:induction false} RemovingAllEmpties(rows: seq<Row>, drop: set<int>, lo: nat)
    requires lo <= |rows|
    requires forall i :: lo <= i < |rows| ==> i in drop
    ensures KeepFrom(rows, drop, lo) == []
    decreases |rows| - lo
  {
    if lo < |rows| {
      RemovingAllEmpties(rows, drop, lo + 1);
    }
  }

  /** `clear()`: no rows, no selection. */
  function Clear(w: Widget): (r: Widget)
    ensures |r.rows| == 0 && r.selection == {}
  {
    Widget([], {})
  }

  // ---------------------------------------------------------------------
  // Removing processed images

  /** Index of the first row showing `path`, or `|rows|`. */
  function FirstWithPath(rows: seq<Row>, path: string): (k: nat)
    ensures k <= |rows|
    ensures k < |rows| ==> rows[k].path == path
    ensures forall i :: 0 <= i < k ==> rows[i].path != path
  {
    if rows == [] then 0
    else if rows[0].path == path then 0
    else 1 + FirstWithPath(rows[1..], path)
  }

  /** `remove_processed_image(file_path)`: the first row showing the path
      is removed; every other row stays, in order. */
  function RemoveProcessedImage(rows: seq<Row>, path: string): (r: seq<Row>)
    ensures FirstWithPath(rows, path) == |rows| ==> r == rows
    ensures FirstWithPath(rows, path) < |rows| ==> |r| == |rows| - 1
    ensures var k := FirstWithPath(rows, path);
            k < |rows| ==> r == rows[..k] + rows[k + 1..]
  {
    var k := FirstWithPath(rows, path);
    if k == |rows| then rows else rows[..k] + rows[k + 1..]
  }

  /** Only a row showing the path is removed, and only when one exists. */
  lemma RemovesOnlyMatching(rows: seq<Row>, path: string)
    ensures path in Paths(rows) <==> FirstWithPath(rows, path) < |rows|
    ensures |RemoveProcessedImage(rows, path)| == |rows| - (if path in Paths(rows) then 1 else 0)
  {
    var k := FirstWithPath(rows, path);
    if k < |rows| {
      assert Paths(rows)[k] == path;
    }
    if path in Paths(rows) {
      var i :| 0 <= i < |rows| && Paths(rows)[i] == path;
      assert rows[i].path == path;
    }
  }

  /** A path listed twice loses only one of its rows. */
  lemma DuplicateKeepsOne(rows: seq<Row>, path: string, i: int, j: int)
    requires 0 <= i < j < |rows| && rows[i].path == path && rows[j].path == path
    ensures path in Paths(RemoveProcessedImage(rows, path))
  {
    var k := FirstWithPath(rows, path);
    var r := RemoveProcessedImage(rows, path);
    assert k <= i;
    assert r == rows[..k] + rows[k + 1..];
    assert r[j - 1] == rows[j];
    assert Paths(r)[j - 1] == path;
  }

  /** `refresh_table()`: the rows whose path the processor has processed
      are collected and removed from the highest index down, so the other
      rows stay, in table order. */
  method RefreshTable(rows: seq<Row>, processed: set<string>) returns (r: seq<Row>)
    ensures r == Unmatched(rows, (row: Row) => row.path in processed)
    ensures forall i :: 0 <= i < |r| ==> r[i].path !in processed
    ensures forall x: Row :: x.path !in processed ==> multiset(r)[x] == multiset(rows)[x]
    ensures |r| <= |rows|
  {
    var isProcessed := (row: Row) => row.path in processed;
    r := RemoveRowsDescending(rows, IndicesWhere(rows, isProcessed));
    RemainingUnmatched(rows, isProcessed, 0);
    assert rows[0..] == rows;
    forall x: Row | x.path !in processed
      ensures multiset(r)[x] == multiset(rows)[x]
    {
      UnmatchedKeepsOthers(rows, isProcessed, x);
    }
  }

  // ---------------------------------------------------------------------
  // The main window's own record of processed images

  /** `MainUI.handle_result`'s test: a dict whose `text` is a dict holding
      truthy English and Korean captions. (A truthy `text` that is not a
      dict makes `.get` raise, and the handler swallows the error.) */
  predicate CompleteResponse(v: Json.Value) {
    && v.Obj? && "text" in v.fields && v.fields["text"].Obj?
    && Json.Truthy(Json.Get(v.fields["text"].fields, Processor.EnglishKey))
    && Json.Truthy(Json.Get(v.fields["text"].fields, Processor.KoreanKey))
  }

  /** `MainUI.handle_result(file_path, response)` on `processed_images`. */
  function HandleResult(processedImages: set<string>, path: string, v: Json.Value): (r: set<string>)
    ensures CompleteResponse(v) ==> r == processedImages + {path}
    ensures !CompleteResponse(v) ==> r == processedImages
  {
    if v.Obj? && Json.Truthy(Json.Get(v.fields, "text")) && Json.Get(v.fields, "text").Obj?
       && Json.Truthy(Json.Get(Json.Get(v.fields, "text").fields, Processor.EnglishKey))
       && Json.Truthy(Json.Get(Json.Get(v.fields, "text").fields, Processor.KoreanKey))
    then processedImages + {path}
    else processedImages
  }

  /** A worker record reaches the main window's processed set exactly when
      both of its captions are non-empty; the processor keeps it either
      way. */
  lemma RecordCompleteIffCaptions(rec: Request.Record)
    ensures CompleteResponse(Processor.RecordJson(rec)) <==> rec.text.english != [] && rec.text.korean != []
  {
  }
}
