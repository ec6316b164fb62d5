/** `ResponseSelectorDialog` in core/dialog/response_select_dialog.py: one
    page per image with radio buttons for its candidate responses, page
    navigation, and the spreadsheet rows built from the chosen responses.
    Writing the spreadsheet is an oracle whose answer is a parameter. */
module ResponseSelector {
  import opened Wrappers
  import opened Text

  /** A page: the image path and its candidate responses. */
  datatype Page = Page(path: string, responses: seq<string>)

  /** The dialog: the pages in the order of `responses_by_image`, the
      current page, and `selected_responses` as its (path, response) pairs
      in insertion order. */
  datatype Selector = Selector(pages: seq<Page>, currentPage: int, selected: seq<(string, string)>)

  /** The keys of a dict are distinct. */
  predicate DistinctPaths(pages: seq<Page>) {
    forall i, j :: 0 <= i < j < |pages| ==> pages[i].path != pages[j].path
  }

  predicate DistinctKeys(sel: seq<(string, string)>) {
    forall i, j :: 0 <= i < j < |sel| ==> sel[i].0 != sel[j].0
  }

  function PagePaths(pages: seq<Page>): set<string> {
    set i | 0 <= i < |pages| :: pages[i].path
  }

  function SelectedPaths(sel: seq<(string, string)>): set<string> {
    set i | 0 <= i < |sel| :: sel[i].0
  }

  /** `total_pages`. */
  function TotalPages(s: Selector): (n: nat)
    ensures n == |s.pages|
  {
    |s.pages|
  }

  /** The dialog as it opens: first page, nothing selected. */
  function New(pages: seq<Page>): (s: Selector)
    requires DistinctPaths(pages)
    ensures s.currentPage == 0 && TotalPages(s) == |pages| && s.selected == []
  {
    Selector(pages, 0, [])
  }

  /** The enabled state of the previous, next and OK buttons. */
  datatype Nav = Nav(prev: bool, next: bool, ok: bool)

  /** `update_nav_buttons()`. */
  function NavButtons(s: Selector): (r: Nav)
    ensures r.prev <==> s.currentPage > 0
    ensures r.next <==> s.currentPage < TotalPages(s) - 1
    ensures r.ok <==> |s.selected| == TotalPages(s)
  {
    Nav(s.currentPage > 0, s.currentPage < |s.pages| - 1, |s.selected| == |s.pages|)
  }

  /** `show_previous()`: one page back, unless on the first page. */
  function ShowPrevious(s: Selector): (r: Selector)
    ensures s.currentPage > 0 ==> r == s.(currentPage := s.currentPage - 1)
    ensures s.currentPage <= 0 ==> r == s
  {
    if s.currentPage > 0 then s.(currentPage := s.currentPage - 1) else s
  }

  /** `show_next()`: one page on, unless on the last page. */
  function ShowNext(s: Selector): (r: Selector)
    ensures s.currentPage < TotalPages(s) - 1 ==> r == s.(currentPage := s.currentPage + 1)
    ensures s.currentPage >= TotalPages(s) - 1 ==> r == s
  {
    if s.currentPage < |s.pages| - 1 then s.(currentPage := s.currentPage + 1) else s
  }

  /** Navigation never leaves the pages: starting on a page, both moves end
      on a page (the first page when there are none). */
  lemma NavigationStaysInRange(s: Selector)
    requires 0 <= s.currentPage < TotalPages(s) || s.currentPage == 0
    ensures var p := ShowPrevious(s).currentPage; 0 <= p < TotalPages(s) || p == 0
    ensures var n := ShowNext(s).currentPage; 0 <= n < TotalPages(s) || n == 0
  {
  }

  /** The keys of a pair put in front of a sequence. */
  lemma KeysCons(head: (string, string), rest: seq<(string, string)>)
    ensures SelectedPaths([head] + rest) == {head.0} + SelectedPaths(rest)
  {
    var s := [head] + rest;
    forall k | k in SelectedPaths(s)
      ensures k in {head.0} + SelectedPaths(rest)
    {
      var i :| 0 <= i < |s| && s[i].0 == k;
      if i > 0 { assert rest[i - 1].0 == k; }
    }
    forall k | k in SelectedPaths(rest)
      ensures k in SelectedPaths(s)
    {
      var i :| 0 <= i < |rest| && rest[i].0 == k;
      assert s[i + 1].0 == k;
    }
    assert s[0].0 == head.0;
  }

  /** `d[key] = value` on an insertion-ordered dict: an existing key keeps
      its position and takes the new value; a new key goes last. */
  function Upsert(sel: seq<(string, string)>, key: string, value: string): (r: seq<(string, string)>)
    ensures SelectedPaths(r) == SelectedPaths(sel) + {key}
    ensures DistinctKeys(sel) ==> DistinctKeys(r)
  {
    if sel == [] then
      KeysCons((key, value), []);
      assert [(key, value)] + [] == [(key, value)];
      [(key, value)]
    else
      assert sel == [sel[0]] + sel[1..];
      KeysCons(sel[0], sel[1..]);
      if sel[0].0 == key then
        KeysCons((key, value), sel[1..]);
        [(key, value)] + sel[1..]
      else
        var rest := Upsert(sel[1..], key, value);
        KeysCons(sel[0], rest);
        [sel[0]] + rest
  }

  /** The response stored for `key`, if any. */
  function Lookup(sel: seq<(string, string)>, key: string): (r: Option<string>)
    ensures r.None? <==> key !in SelectedPaths(sel)
  {
    if sel == [] then None
    else if sel[0].0 == key then Some(sel[0].1)
    else
      assert sel == [sel[0]] + sel[1..];
      KeysCons(sel[0], sel[1..]);
      Lookup(sel[1..], key)
  }

  /** The stored value for `key` is the one just written, and every other
      key keeps its response. */
  lemma {:induction false} UpsertLookup(sel: seq<(string, string)>, key: string, value: string, other: string)
    ensures Lookup(Upsert(sel, key, value), key) == Some(value)
    ensures other != key ==> Lookup(Upsert(sel, key, value), other) == Lookup(sel, other)
  {
    if sel != [] && sel[0].0 != key {
      UpsertLookup(sel[1..], key, value, other);
    }
  }

  /** `on_response_selected(path, response)`. */
  function OnResponseSelected(s: Selector, path: string, response: string): (r: Selector)
    ensures r.pages == s.pages && r.currentPage == s.currentPage
    ensures Lookup(r.selected, path) == Some(response)
    ensures SelectedPaths(r.selected) == SelectedPaths(s.selected) + {path}
  {
    UpsertLookup(s.selected, path, response, path);
    s.(selected := Upsert(s.selected, path, response))
  }

  /** A later selection for the same image overwrites the earlier one
      without adding an entry. */
  lemma LaterSelectionWins(s: Selector, path: string, first: string, second: string)
    ensures var r := OnResponseSelected(OnResponseSelected(s, path, first), path, second);
            Lookup(r.selected, path) == Some(second)
            && SelectedPaths(r.selected) == SelectedPaths(s.selected) + {path}
  {
  }

  /** A radio button on page `i` for its `j`-th response; out-of-range
      indices have no button. */
  function Click(s: Selector, i: int, j: int): (r: Selector)
    ensures SelectedPaths(r.selected) <= SelectedPaths(s.selected) + PagePaths(s.pages)
    ensures r.pages == s.pages
  {
    if 0 <= i < |s.pages| && 0 <= j < |s.pages[i].responses| then
      OnResponseSelected(s, s.pages[i].path, s.pages[i].responses[j])
    else s
  }

  /** Selections made through the radio buttons only name pages. */
  predicate Valid(s: Selector) {
    DistinctPaths(s.pages) && DistinctKeys(s.selected) && SelectedPaths(s.selected) <= PagePaths(s.pages)
  }

  lemma ClickValid(s: Selector, i: int, j: int)
    requires Valid(s)
    ensures Valid(Click(s, i, j))
  {
  }

  /** A sequence without repeated keys has as many keys as entries. */
  lemma {:induction false} DistinctKeysCount(sel: seq<(string, string)>)
    requires DistinctKeys(sel)
    ensures |SelectedPaths(sel)| == |sel|
  {
    if sel != [] {
      DistinctKeysCount(sel[1..]);
      assert sel == [sel[0]] + sel[1..];
      KeysCons(sel[0], sel[1..]);
      assert sel[0].0 !in SelectedPaths(sel[1..]);
    }
  }

  lemma {:induction false} DistinctPathsCount(pages: seq<Page>)
    requires DistinctPaths(pages)
    ensures |PagePaths(pages)| == |pages|
  {
    if pages != [] {
      DistinctPathsCount(pages[1..]);
      assert PagePaths(pages) == {pages[0].path} + PagePaths(pages[1..]) by {
        assert forall i :: 0 < i < |pages| ==> pages[i] == pages[1..][i - 1];
      }
      assert pages[0].path !in PagePaths(pages[1..]);
    }
  }

  /** A subset is no larger than its superset. */
  lemma {:induction false} SubsetSize(a: set<string>, b: set<string>)
    requires a <= b
    ensures |a| <= |b|
    decreases |a|
  {
    if a != {} {
      var x :| x in a;
      SubsetSize(a - {x}, b - {x});
    }
  }

  /** A subset as large as its superset is the whole of it. */
  lemma SubsetOfSameSize(a: set<string>, b: set<string>)
    requires a <= b && |a| == |b|
    ensures a == b
  {
    if a != b {
      var x :| x in b && x !in a;
      SubsetSize(a, b - {x});
    }
  }

  /** OK is enabled exactly when every image has a selected response. */
  lemma OkIffAllSelected(s: Selector)
    requires Valid(s)
    ensures NavButtons(s).ok <==> SelectedPaths(s.selected) == PagePaths(s.pages)
  {
    DistinctKeysCount(s.selected);
    DistinctPathsCount(s.pages);
    if |s.selected| == |s.pages| {
      SubsetOfSameSize(SelectedPaths(s.selected), PagePaths(s.pages));
    }
  }

  /** A spreadsheet row: file name, file type, description, subject and
      concept, people, keywords and main colours. */
  datatype SheetRow = SheetRow(fileName: string, fileType: string, description: string,
                               concept: string, people: string, keywords: string, colors: string)

  function Fields(r: SheetRow): seq<string> {
    [r.fileName, r.fileType, r.description, r.concept, r.people, r.keywords, r.colors]
  }

  /** The row a response gives: only one that splits on `|` into exactly
      seven fields gives one, with the fields in column order. */
  function RowOf(response: string): (r: Option<SheetRow>)
    ensures r.Some? <==> |Split(response, '|')| == 7
    ensures r.Some? ==> Fields(r.value) == Split(response, '|')
  {
    var parts := Split(response, '|');
    if |parts| == 7 then Some(SheetRow(parts[0], parts[1], parts[2], parts[3], parts[4], parts[5], parts[6]))
    else None
  }

  /** A row written out with `|` between fields that hold no `|` is read
      back as the same row. */
  lemma RowRoundTrip(row: SheetRow)
    requires forall i :: 0 <= i < 7 ==> '|' !in Fields(row)[i]
    ensures RowOf(Join(Fields(row), "|")) == Some(row)
  {
    SplitJoin(Fields(row), '|');
  }

  /** A response that gives a row is exactly its fields joined by `|`. */
  lemma RowIsResponse(response: string)
    requires RowOf(response).Some?
    ensures Join(Fields(RowOf(response).value), "|") == response
  {
    JoinSplit(response, '|');
  }

  /** The rows of the selected responses, in selection order. */
  function Rows(sel: seq<(string, string)>): (r: seq<SheetRow>)
    ensures |r| <= |sel|
  {
    if sel == [] then []
    else
      (match RowOf(sel[0].1) case Some(row) => [row] case None => []) + Rows(sel[1..])
  }

  /** Every row comes from a well-formed response, and a selection whose
      responses are all well-formed gives one row for each. */
  lemma {:induction false} RowsOfWellFormed(sel: seq<(string, string)>)
    requires forall i :: 0 <= i < |sel| ==> RowOf(sel[i].1).Some?
    ensures |Rows(sel)| == |sel|
    ensures forall i :: 0 <= i < |sel| ==> Rows(sel)[i] == RowOf(sel[i].1).value
  {
    if sel != [] {
      RowsOfWellFormed(sel[1..]);
    }
  }

  lemma {:induction false} RowsOfMalformed(sel: seq<(string, string)>)
    requires forall i :: 0 <= i < |sel| ==> RowOf(sel[i].1).None?
    ensures Rows(sel) == []
  {
    if sel != [] {
      RowsOfMalformed(sel[1..]);
    }
  }

  /** `save_selected_responses()` with `written` the spreadsheet writer's
      outcome: `False` with nothing selected, `None` (the method falls off
      its end) when no response is well-formed, otherwise whether the
      write succeeded. */
  function SaveSelectedResponses(s: Selector, written: bool): (r: Option<bool>)
    ensures s.selected == [] ==> r == Some(false)
    ensures s.selected != [] && Rows(s.selected) == [] ==> r == None
    ensures r == Some(true) <==> Rows(s.selected) != [] && written
  {
    if s.selected == [] then Some(false)
    else if Rows(s.selected) == [] then None
    else Some(written)
  }

  /** What pressing OK leads to: refused with a warning, accepted, kept
      open with the error box after a failed save, or an exception out of
      `accept()`. */
  datatype Outcome = Refused | Accepted | SaveFailed | Raised

  /** `accept()` as intended: refused with a warning unless every page has
      a selection; otherwise accepted exactly when saving returns `True`,
      and kept open with the error box when it does not. */
  function Accept(s: Selector, written: bool): (r: Outcome)
    ensures |s.selected| != TotalPages(s) ==> r == Refused
    ensures r == Accepted <==> |s.selected| == TotalPages(s) && SaveSelectedResponses(s, written) == Some(true)
    ensures |s.selected| == TotalPages(s) && SaveSelectedResponses(s, written) != Some(true) ==> r == SaveFailed
    ensures r != Raised
  {
    if |s.selected| != |s.pages| then Refused
    else if SaveSelectedResponses(s, written) == Some(true) then Accepted
    else SaveFailed
  }

  /** `accept()` as written: the `import` on its warning branch makes
      `QMessageBox` a local name of the whole method, so on the branch for a
      failed save it is still unbound and the call raises
      `UnboundLocalError` instead of showing the error box. */
  function AcceptAsWritten(s: Selector, written: bool): (r: Outcome)
    ensures r != SaveFailed
    ensures r == Raised <==> |s.selected| == TotalPages(s) && SaveSelectedResponses(s, written) != Some(true)
    ensures r != Raised ==> r == Accept(s, written)
  {
    if |s.selected| != |s.pages| then Refused
    else if SaveSelectedResponses(s, written) == Some(true) then Accepted
    else Raised
  }

  /** A single page with its response chosen, when the spreadsheet cannot
      be written: as written `accept()` raises, where the error box was
      meant to appear. */
  lemma FailedWriteRaisesAsWritten(path: string, response: string)
    ensures var s := Selector([Page(path, [response])], 0, [(path, response)]);
            && AcceptAsWritten(s, false) == Raised
            && Accept(s, false) == SaveFailed
  {
  }

  /** The dialog is accepted only when every image has a chosen response
      and at least one of the chosen responses is well-formed. */
  lemma AcceptedMeansAllChosen(s: Selector, written: bool)
    requires Valid(s) && Accept(s, written) == Accepted
    ensures SelectedPaths(s.selected) == PagePaths(s.pages)
    ensures exists i :: 0 <= i < |s.selected| && RowOf(s.selected[i].1).Some?
  {
    OkIffAllSelected(s);
    if forall i :: 0 <= i < |s.selected| ==> RowOf(s.selected[i].1).None? {
      RowsOfMalformed(s.selected);
    }
  }
}
