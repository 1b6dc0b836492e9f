/** The explorer's thumbnail browser (`explorer/image_browser.py`): the
    page box, the page count, the shown range of rows and the
    Previous/Next buttons; and the fixed-slot list model that holds one
    page of thumbnails and descriptions
    (`explorer/custom_sub_classes/browser_items_model.py`).

    The page size `BROWSER_IMAGES_LIMIT` is defined in
    `explorer/constants.py`, which is not part of this model: it is the
    parameter `limit`, at least 1 (the page count divides by it). The
    catalog's answers are parameters too: whether `get` queued a query
    (`queued`), and the row count the count callback delivers. Labels that
    only ever show `str()` of an integer are kept as that integer. */
module Explorer {
  import opened Wrappers
  import opened Text

  /** The exceptions the browser and the model can raise. */
  datatype Failure = ValueError | IndexError

  // Paging arithmetic.

  /** The row offset a page is asked for: `(page - 1) * limit`. */
  function Offset(page: int, limit: nat): int {
    (page - 1) * limit
  }

  /** `math.ceil(total_rows / BROWSER_IMAGES_LIMIT)`: the fewest pages of
      `limit` rows that hold `total` rows. */
  function LastPage(total: nat, limit: nat): (r: nat)
    requires limit >= 1
    ensures total == 0 <==> r == 0
    ensures total > 0 ==> (r - 1) * limit < total <= r * limit
  {
    var r := (total + limit - 1) / limit;
    assert r * limit + (total + limit - 1) % limit == total + limit - 1;
    r
  }

  /** The rows a page shows, numbered from 1, as `_update_numbers` labels
      them "[from - to]": from the page's first row to its last row or the
      catalog's last row, whichever comes first. */
  function Range(page: int, total: nat, limit: nat): (r: (int, int))
    ensures r.0 == Offset(page, limit) + 1
    ensures r.1 <= total && r.1 <= Offset(page, limit) + limit
    ensures r.1 == total || r.1 == Offset(page, limit) + limit
  {
    var from := Offset(page, limit) + 1;
    (from, if total <= from + limit - 1 then total else from + limit - 1)
  }

  /** The text of the range label. */
  function RangeText(range: (int, int)): string {
    "[" + IntToString(range.0) + " - " + IntToString(range.1) + "]"
  }

  /** A product grows with its left factor. */
  lemma MulLeftMono(a: int, b: int, limit: nat)
    requires a <= b
    ensures a * limit <= b * limit
  {
    assert b * limit - a * limit == (b - a) * limit;
  }

  /** Every page up to the last holds at least one row and shows a
      non-empty range: `limit` rows, except the last page, which shows the
      remaining rows and ends at the catalog's last row. */
  lemma PageRange(page: int, total: nat, limit: nat)
    requires limit >= 1 && 1 <= page <= LastPage(total, limit)
    ensures var (from, to) := Range(page, total, limit);
      1 <= from <= to <= total
      && to - from + 1 == (if total - Offset(page, limit) < limit then total - Offset(page, limit) else limit)
      && (to == total <==> page == LastPage(total, limit))
  {
    var last := LastPage(total, limit);
    MulLeftMono(page - 1, last - 1, limit);
    if page < last {
      MulLeftMono(page, last - 1, limit);
    }
  }

  /** Each row of the catalog is on exactly one page, and that page is
      between 1 and the last page. */
  lemma RowPage(total: nat, limit: nat, k: int)
    requires limit >= 1 && 0 <= k < total
    ensures var p := k / limit + 1;
      1 <= p <= LastPage(total, limit) && Offset(p, limit) <= k < Offset(p, limit) + limit
    ensures forall q :: Offset(q, limit) <= k < Offset(q, limit) + limit ==> q == k / limit + 1
  {
    var p := k / limit + 1;
    var last := LastPage(total, limit);
    assert Offset(p, limit) == (k / limit) * limit;
    if p > last {
      MulLeftMono(last, p - 1, limit);
    }
    forall q | Offset(q, limit) <= k < Offset(q, limit) + limit
      ensures q == p
    {
      if q < p {
        MulLeftMono(q, p - 1, limit);
      } else if q > p {
        MulLeftMono(p, q - 1, limit);
      }
    }
  }

  /** The clamp of `_update_page_number_line_edit`: a page below 1 becomes
      1, and one above the page count becomes the page count. */
  function ClampPage(value: int, maxPage: int): (r: int)
    ensures maxPage >= 1 ==> 1 <= r <= maxPage
    ensures maxPage >= 1 ==> (r == value <==> 1 <= value <= maxPage)
  {
    if value < 1 then 1 else if value > maxPage then maxPage else value
  }

  /** With at least one page, the clamp picks the page nearest to the
      value, and clamping twice changes nothing. */
  lemma ClampNearest(value: int, maxPage: int)
    requires maxPage >= 1
    ensures forall q :: 1 <= q <= maxPage ==> Distance(ClampPage(value, maxPage), value) <= Distance(q, value)
    ensures ClampPage(ClampPage(value, maxPage), maxPage) == ClampPage(value, maxPage)
  {
  }

  function Distance(a: int, b: int): nat {
    if a <= b then b - a else a - b
  }

  // The browser.

  /** The keyword arguments `_current_query` holds and every page change
      repeats. */
  datatype Query = Query(join: Option<string>, filter: Option<string>)

  /** What `get` is asked for: the query, the page size and the offset. */
  datatype Request = Request(query: Query, limit: nat, offset: int)

  /** The browser's state: the page box's text, the page count label, the
      total label, the range label, the current page, the buttons'
      disabled states and the current query. */
  datatype Browser = Browser(
    pageText: string,
    lastPage: int,
    total: int,
    range: (int, int),
    page: int,
    previousDisabled: bool,
    nextDisabled: bool,
    query: Query)

  /** The widgets as `_create_numbers_widgets` makes them: page box "0",
      page count "1", total "0", range "[0 - 0]", both buttons enabled.
      The current page has no value until its first assignment, which
      every path through `_initialize` makes before reading it; 0 stands
      for it here. */
  const Fresh: Browser := Browser("0", 1, 0, (0, 0), 0, false, false, Query(None, None))

  /** "Previous" is disabled exactly on page 1, "Next" exactly on the last
      page. */
  predicate ButtonsAgree(b: Browser) {
    b.previousDisabled == (b.page == 1) && b.nextDisabled == (b.page == b.lastPage)
  }

  /** The `_current_page_number` setter: the page, and the buttons'
      states against it. */
  function SetPage(b: Browser, p: int): (r: Browser)
    ensures ButtonsAgree(r) && r.page == p
    ensures r.pageText == b.pageText && r.lastPage == b.lastPage && r.total == b.total
      && r.range == b.range && r.query == b.query
  {
    b.(page := p, previousDisabled := p == 1, nextDisabled := p == b.lastPage)
  }

  /** `_no_results`: no rows, one page, range "[0 - 0]", page 1 with both
      buttons disabled. The page box keeps its text. */
  function NoResults(b: Browser): (r: Browser)
    ensures ButtonsAgree(r) && r.previousDisabled && r.nextDisabled
    ensures r.total == 0 && r.lastPage == 1 && r.range == (0, 0) && r.page == 1
    ensures r.pageText == b.pageText && r.query == b.query
  {
    SetPage(b.(total := 0, lastPage := 1, range := (0, 0)), 1)
  }

  /** `_update_page_number_line_edit`: the clamped page goes into the page
      box and becomes the current page. */
  function ShowPage(b: Browser, value: int): (r: Browser)
    ensures ButtonsAgree(r) && r.page == ClampPage(value, b.lastPage)
    ensures ParseInt(r.pageText) == Some(r.page)
    ensures r.lastPage == b.lastPage && r.total == b.total && r.range == b.range && r.query == b.query
  {
    var p := ClampPage(value, b.lastPage);
    IntToStringParses(p);
    SetPage(b.(pageText := IntToString(p)), p)
  }

  /** `_update_numbers`, the count callback, given the catalog's row
      count: the total, the page count and the range are relabelled and
      the buttons follow. The range is read off the page box, and `int()`
      of a text that is not a number raises ValueError. */
  function UpdateNumbers(b: Browser, totalRows: nat, limit: nat): (r: Result<Browser, Failure>)
    requires limit >= 1
    ensures r.Err? <==> ParseInt(b.pageText).None?
    ensures r.Ok? ==>
      ButtonsAgree(r.value) && r.value.page == b.page && r.value.pageText == b.pageText && r.value.query == b.query
      && r.value.total == totalRows && r.value.lastPage == LastPage(totalRows, limit)
      && r.value.range.0 == Offset(ParseInt(b.pageText).value, limit) + 1
  {
    match ParseInt(b.pageText)
    case None => Err(ValueError)
    case Some(n) =>
      var b1 := b.(total := totalRows, lastPage := LastPage(totalRows, limit), range := Range(n, totalRows, limit));
      Ok(SetPage(b1, b1.page))
  }

  /** `_change_page`: the clamped page is shown, and the current query is
      asked again at that page's offset; when `get` declines, the browser
      shows no results. The model's `removeRows`, which the class does not
      override, is left out. */
  function ChangePage(b: Browser, value: int, limit: nat, queued: bool): (r: (Browser, Request))
    ensures ButtonsAgree(r.0) && r.0.query == b.query
    ensures r.1 == Request(b.query, limit, Offset(ClampPage(value, b.lastPage), limit))
    ensures queued ==>
      r.0.page == ClampPage(value, b.lastPage) && ParseInt(r.0.pageText) == Some(r.0.page)
      && r.0.lastPage == b.lastPage && r.0.total == b.total && r.0.range == b.range
    ensures !queued ==> r.0.page == 1 && r.0.lastPage == 1 && r.0.total == 0
  {
    var b1 := ShowPage(b, value);
    (if queued then b1 else NoResults(b1), Request(b.query, limit, Offset(b1.page, limit)))
  }

  /** The "Next" button. */
  function NextPage(b: Browser, limit: nat, queued: bool): (r: (Browser, Request)) {
    ChangePage(b, b.page + 1, limit, queued)
  }

  /** The "Previous" button. */
  function PreviousPage(b: Browser, limit: nat, queued: bool): (r: (Browser, Request)) {
    ChangePage(b, b.page - 1, limit, queued)
  }

  /** From a page before the last, "Next" asks for the following page's
      rows, and "Previous" then comes back to the page and its rows. */
  lemma NextThenPrevious(b: Browser, limit: nat)
    requires 1 <= b.page < b.lastPage
    ensures var (b1, r1) := NextPage(b, limit, true);
      b1.page == b.page + 1 && r1.offset == b.page * limit
      && !b1.previousDisabled && b1.nextDisabled == (b.page + 1 == b.lastPage)
      && var (b2, r2) := PreviousPage(b1, limit, true);
      b2.page == b.page && r2.offset == Offset(b.page, limit) && r2.query == b.query
  {
  }

  /** `_page_number_line_edit_return_pressed_slot`: an empty box is
      refilled with the current page; otherwise the typed page is visited,
      and `int()` of a text that is not a number raises ValueError. */
  function ReturnPressed(b: Browser, limit: nat, queued: bool): (r: Result<(Browser, Option<Request>), Failure>)
    ensures b.pageText == "" ==> r.Ok? && r.value.1.None? && r.value.0 == b.(pageText := IntToString(b.page))
    ensures b.pageText != "" ==> (r.Err? <==> ParseInt(b.pageText).None?)
    ensures b.pageText != "" && r.Ok? ==>
      r.value.1 == Some(Request(b.query, limit, Offset(ClampPage(ParseInt(b.pageText).value, b.lastPage), limit)))
  {
    if b.pageText == "" then Ok((b.(pageText := IntToString(b.page)), None))
    else
      match ParseInt(b.pageText)
      case None => Err(ValueError)
      case Some(n) =>
        var (b1, request) := ChangePage(b, n, limit, queued);
        Ok((b1, Some(request)))
  }

  /** Typing a page number and pressing return visits that page and asks
      for its rows, whatever the box held before. */
  lemma TypedPage(b: Browser, p: int, limit: nat)
    requires 1 <= p <= b.lastPage
    ensures var r := ReturnPressed(b.(pageText := IntToString(p)), limit, true);
      r.Ok? && r.value.0.page == p && r.value.1 == Some(Request(b.query, limit, Offset(p, limit)))
      && ButtonsAgree(r.value.0)
  {
    IntToStringParses(p);
  }

  /** `_page_number_line_edit_text_changed_slot`: a last character that is
      not a digit is removed. Removing it sets the text, which signals a
      change again, so every trailing non-digit goes. */
  function FilterTyped(text: string): (r: string)
    ensures |r| <= |text| && r == text[..|r|]
    ensures r == "" || IsDigit(r[|r| - 1])
    ensures forall i :: |r| <= i < |text| ==> !IsDigit(text[i])
    decreases |text|
  {
    if |text| == 0 then text
    else if text[|text| - 1] !in "0123456789" then FilterTyped(text[..|text| - 1])
    else text
  }

  /** Filtering what the filter left changes nothing, and a text that is
      empty or ends with a digit is left as it is. */
  lemma FilterTypedSettles(text: string)
    ensures FilterTyped(FilterTyped(text)) == FilterTyped(text)
    ensures (text == "" || IsDigit(text[|text| - 1])) ==> FilterTyped(text) == text
  {
    var r := FilterTyped(text);
    if r != "" {
      assert r[|r| - 1] in "0123456789";
    }
    if text != "" && IsDigit(text[|text| - 1]) {
      assert text[|text| - 1] in "0123456789";
    }
  }

  /** `_initialize`: the query is emptied and all galleries are asked for
      with every table joined; once queued, that becomes the query and page
      1 is shown, otherwise the browser shows no results. */
  function Initialize(b: Browser, limit: nat, queued: bool): (r: (Browser, Request))
    ensures ButtonsAgree(r.0)
    ensures r.1 == Request(Query(Some("*"), None), limit, 0)
    ensures queued ==> r.0.query == Query(Some("*"), None) && r.0.page == ClampPage(1, b.lastPage)
    ensures !queued ==> r.0.query == Query(None, None) && r.0.page == 1 && r.0.total == 0
  {
    var b1 := b.(query := Query(None, None));
    var all := Query(Some("*"), None);
    (if queued then ShowPage(b1.(query := all), 1) else NoResults(b1), Request(all, limit, 0))
  }

  /** `filter`: the galleries matching the filter are asked for, with every
      table joined; once queued, that becomes the query and page 1 is
      shown. When `get` declines, the browser shows no results and keeps
      its previous query. */
  function ApplyFilter(b: Browser, filter: string, limit: nat, queued: bool): (r: (Browser, Request))
    ensures ButtonsAgree(r.0)
    ensures r.1 == Request(Query(Some("*"), Some(filter)), limit, 0)
    ensures queued ==> r.0.query == r.1.query && r.0.page == ClampPage(1, b.lastPage)
    ensures !queued ==> r.0.query == b.query && r.0.page == 1 && r.0.total == 0
  {
    var q := Query(Some("*"), Some(filter));
    (if queued then ShowPage(b.(query := q), 1) else NoResults(b), Request(q, limit, 0))
  }

  /** `_create_items`, the result callback, given the number of records:
      no records shows no results; otherwise the browser is unchanged and
      the worker is started on the records (the second component). */
  function CreateItems(b: Browser, records: nat): (r: (Browser, bool))
    ensures r.1 <==> records > 0
    ensures records > 0 ==> r.0 == b
    ensures records == 0 ==> r.0 == NoResults(b)
  {
    if records == 0 then (NoResults(b), false) else (b, true)
  }

  /** A fresh browser that is initialised and then counted shows page 1
      of the catalog: page 1's range and the page count, with "Next"
      enabled exactly when there is more than one page (or none). */
  lemma CountedFirstPage(total: nat, limit: nat)
    requires limit >= 1
    ensures var b := Initialize(Fresh, limit, true).0;
      var r := UpdateNumbers(b, total, limit);
      r.Ok? && r.value.page == 1 && r.value.lastPage == LastPage(total, limit)
      && r.value.range == Range(1, total, limit) && r.value.previousDisabled
      && (r.value.nextDisabled <==> LastPage(total, limit) == 1)
  {
    var b := Initialize(Fresh, limit, true).0;
    assert b.page == 1;
    IntToStringParses(1);
  }

  /** After a page change, the count callback labels the range of the
      page that was shown. */
  lemma CountedPage(b: Browser, value: int, total: nat, limit: nat)
    requires limit >= 1
    ensures var b1 := ChangePage(b, value, limit, true).0;
      var r := UpdateNumbers(b1, total, limit);
      r.Ok? && r.value.page == b1.page && r.value.range == Range(b1.page, total, limit)
  {
  }

  // The list model.

  /** `Qt.ItemDataRole.DisplayRole` and `DecorationRole`. */
  const DisplayRole: int := 0
  const DecorationRole: int := 1

  /** What a slot can hold: a thumbnail image (opaque here) or a
      description. Python does not restrict the values `setData` stores. */
  datatype Value = Picture(image: nat) | Words(text: string)

  /** `_data`: the thumbnails and the descriptions, one slot per row of a
      page; `None` is an empty slot. */
  datatype ItemsModel = ItemsModel(thumbnails: seq<Option<Value>>, descriptions: seq<Option<Value>>)

  /** A model index: valid when both its row and column are not negative. */
  datatype Index = Index(row: int, column: int)

  predicate IsValid(i: Index) { i.row >= 0 && i.column >= 0 }

  /** The slots have the page size. */
  predicate ModelWf(m: ItemsModel, limit: nat) {
    |m.thumbnails| == limit && |m.descriptions| == limit
  }

  function NoneSlots(n: nat): (r: seq<Option<Value>>)
    ensures |r| == n && forall i :: 0 <= i < n ==> r[i].None?
  {
    seq(n, i => None)
  }

  /** The constructor: `limit` empty slots of each kind. */
  function NewModel(limit: nat): (r: ItemsModel)
    ensures ModelWf(r, limit) && RowCount(r) == 0
  {
    var slots := NoneSlots(limit);
    NoneCount(slots);
    ItemsModel(slots, slots)
  }

  /** The number of filled slots. */
  function Filled(slots: seq<Option<Value>>): (r: nat)
    ensures r <= |slots|
    decreases |slots|
  {
    if |slots| == 0 then 0 else (if slots[0].Some? then 1 else 0) + Filled(slots[1..])
  }

  lemma {:induction false} NoneCount(slots: seq<Option<Value>>)
    requires forall i :: 0 <= i < |slots| ==> slots[i].None?
    ensures Filled(slots) == 0
    decreases |slots|
  {
    if |slots| > 0 {
      NoneCount(slots[1..]);
    }
  }

  /** `rowCount`: the thumbnails that are not None. */
  function RowCount(m: ItemsModel): (r: nat)
    ensures r <= |m.thumbnails|
  {
    Filled(m.thumbnails)
  }

  /** `setData`: a valid index with the display role writes the
      description slot, with the decoration role the thumbnail slot, and
      returns True; an invalid index or another role returns False and
      changes nothing. A row past the slots raises IndexError. */
  function SetData(m: ItemsModel, index: Index, value: Option<Value>, role: int): (r: Result<(bool, ItemsModel), Failure>)
    ensures !IsValid(index) || (role != DisplayRole && role != DecorationRole) ==> r == Ok((false, m))
    ensures IsValid(index) && role == DisplayRole ==>
      if index.row < |m.descriptions| then r == Ok((true, m.(descriptions := m.descriptions[index.row := value])))
      else r == Err(IndexError)
    ensures IsValid(index) && role == DecorationRole ==>
      if index.row < |m.thumbnails| then r == Ok((true, m.(thumbnails := m.thumbnails[index.row := value])))
      else r == Err(IndexError)
  {
    if !IsValid(index) then Ok((false, m))
    else if role == DisplayRole then
      if index.row < |m.descriptions| then Ok((true, m.(descriptions := m.descriptions[index.row := value])))
      else Err(IndexError)
    else if role == DecorationRole then
      if index.row < |m.thumbnails| then Ok((true, m.(thumbnails := m.thumbnails[index.row := value])))
      else Err(IndexError)
    else Ok((false, m))
  }

  /** `data`: the slot the role names at a valid index, or None for an
      invalid index or another role. A row past the slots raises
      IndexError. */
  function Data(m: ItemsModel, index: Index, role: int): (r: Result<Option<Value>, Failure>) {
    if !IsValid(index) then Ok(None)
    else if role == DisplayRole then
      if index.row < |m.descriptions| then Ok(m.descriptions[index.row]) else Err(IndexError)
    else if role == DecorationRole then
      if index.row < |m.thumbnails| then Ok(m.thumbnails[index.row]) else Err(IndexError)
    else Ok(None)
  }

  /** What `setData` stores, `data` reads back with the same role, and the
      other role's slots and every other row keep their values. */
  lemma SetThenData(m: ItemsModel, index: Index, value: Option<Value>, role: int, other: Index, otherRole: int)
    requires SetData(m, index, value, role).Ok?
    ensures var (done, m1) := SetData(m, index, value, role).value;
      (done ==> Data(m1, index, role) == Ok(value))
      && ((other.row != index.row || otherRole != role) && IsValid(other) ==> Data(m1, other, otherRole) == Data(m, other, otherRole))
      && |m1.thumbnails| == |m.thumbnails| && |m1.descriptions| == |m.descriptions|
  {
  }

  /** Changing one slot moves the filled count by at most one, in the
      direction of the change. */
  lemma {:induction false} FilledUpdate(slots: seq<Option<Value>>, i: nat, v: Option<Value>)
    requires i < |slots|
    ensures Filled(slots[i := v]) == Filled(slots) - (if slots[i].Some? then 1 else 0) + (if v.Some? then 1 else 0)
    decreases |slots|
  {
    if i > 0 {
      FilledUpdate(slots[1..], i - 1, v);
      assert slots[i := v][1..] == slots[1..][i - 1 := v];
    } else {
      assert slots[i := v][1..] == slots[1..];
    }
  }

  /** `_add_item_slot`: the thumbnail and then the description are set at
      row `index`; what `setData` returns is ignored. */
  function AddItem(m: ItemsModel, index: nat, thumbnail: Value, description: string): (r: Result<ItemsModel, Failure>)
    ensures r.Ok? <==> index < |m.thumbnails| && index < |m.descriptions|
  {
    var i := Index(index, 0);
    var (_, m1) :- SetData(m, i, Some(thumbnail), DecorationRole);
    var (_, m2) :- SetData(m1, i, Some(Words(description)), DisplayRole);
    Ok(m2)
  }

  /** The worker's items added in order, row 0 first. */
  function AddItems(m: ItemsModel, items: seq<(Value, string)>, start: nat): (r: Result<ItemsModel, Failure>)
    decreases |items|
  {
    if |items| == 0 then Ok(m)
    else
      var m1 :- AddItem(m, start, items[0].0, items[0].1);
      AddItems(m1, items[1..], start + 1)
  }

  /** Filling rows `start` onwards of a model whose slots there are empty:
      each row holds its item, the rows before `start` are untouched, and
      the row count grows by the number of items. */
  lemma {:induction false} AddItemsFill(m: ItemsModel, items: seq<(Value, string)>, start: nat, limit: nat)
    requires ModelWf(m, limit) && start + |items| <= limit
    requires forall j :: start <= j < limit ==> m.thumbnails[j].None?
    ensures AddItems(m, items, start).Ok?
    ensures var m1 := AddItems(m, items, start).value;
      ModelWf(m1, limit) && RowCount(m1) == RowCount(m) + |items|
      && (forall j :: 0 <= j < |items| ==>
        m1.thumbnails[start + j] == Some(items[j].0) && m1.descriptions[start + j] == Some(Words(items[j].1)))
      && (forall j :: 0 <= j < start ==> m1.thumbnails[j] == m.thumbnails[j] && m1.descriptions[j] == m.descriptions[j])
    decreases |items|
  {
    if |items| > 0 {
      var m1 := AddItem(m, start, items[0].0, items[0].1).value;
      assert m1.thumbnails == m.thumbnails[start := Some(items[0].0)];
      assert m1.descriptions == m.descriptions[start := Some(Words(items[0].1))];
      FilledUpdate(m.thumbnails, start, Some(items[0].0));
      AddItemsFill(m1, items[1..], start + 1, limit);
      var m2 := AddItems(m1, items[1..], start + 1).value;
      assert AddItems(m, items, start) == Ok(m2);
      forall j | 0 <= j < |items|
        ensures m2.thumbnails[start + j] == Some(items[j].0) && m2.descriptions[start + j] == Some(Words(items[j].1))
      {
        if j > 0 {
          assert items[1..][j - 1] == items[j];
        }
      }
    }
  }

  /** A page of at most `limit` items filled into a new model: the row
      count is the number of items and each row holds its item. */
  lemma FreshPage(items: seq<(Value, string)>, limit: nat)
    requires |items| <= limit
    ensures AddItems(NewModel(limit), items, 0).Ok?
    ensures var m := AddItems(NewModel(limit), items, 0).value;
      RowCount(m) == |items|
      && forall j :: 0 <= j < |items| ==>
        Data(m, Index(j, 0), DecorationRole) == Ok(Some(items[j].0))
        && Data(m, Index(j, 0), DisplayRole) == Ok(Some(Words(items[j].1)))
  {
    AddItemsFill(NewModel(limit), items, 0, limit);
    var m := AddItems(NewModel(limit), items, 0).value;
    forall j | 0 <= j < |items|
      ensures Data(m, Index(j, 0), DecorationRole) == Ok(Some(items[j].0))
      ensures Data(m, Index(j, 0), DisplayRole) == Ok(Some(Words(items[j].1)))
    {
      assert m.thumbnails[0 + j] == Some(items[j].0);
      assert m.descriptions[0 + j] == Some(Words(items[j].1));
    }
  }
}
