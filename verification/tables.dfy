/** The two status tables of a download session
    (`custom_sub_classes/download_items_model.py` and
    `download_files_model.py`): column-per-field rows with a cursor that
    walks them in order and wraps round, and per-column updates. */
module StatusTables {
  import opened Wrappers

  // The shared cursor.

  /** `__next__`'s cursor step: one row on, or back to -1 past the end. */
  function Advance(cursor: int, rows: nat): (r: int)
    ensures -1 <= r < rows
    ensures r != -1 <==> 0 <= cursor + 1 < rows
    ensures r != -1 ==> r == cursor + 1
  {
    if cursor + 1 >= rows || cursor + 1 < 0 then -1 else cursor + 1
  }

  // The items table.

  const ItemInvalid: int := -3
  const ItemAborted: int := -2
  const ItemPending: int := -1
  const ItemDownloading: int := 0
  const ItemCompleted: int := 1

  /** The text an item status is displayed as; other codes have none. */
  function ItemStatusLabel(code: int): (r: Option<string>)
    ensures r.Some? <==> -3 <= code <= 1
  {
    if code == -3 then Some("Invalid")
    else if code == -2 then Some("Aborted")
    else if code == -1 then Some("Pending")
    else if code == 0 then Some("Downloading")
    else if code == 1 then Some("Completed")
    else None
  }

  datatype ItemsTable = ItemsTable(status: seq<int>, itemName: seq<string>, downloadType: seq<string>, cursor: int)

  /** The columns have one entry per row and the cursor is -1 or a row. */
  predicate ItemsWf(t: ItemsTable) {
    |t.status| == |t.itemName| == |t.downloadType| && -1 <= t.cursor < |t.status|
  }

  /** Every status has a display label. */
  predicate ItemsLabelled(t: ItemsTable) {
    forall i :: 0 <= i < |t.status| ==> -3 <= t.status[i] <= 1
  }

  function ItemCount(t: ItemsTable): nat { |t.status| }

  const NoItems: ItemsTable := ItemsTable([], [], [], -1)

  /** `add_item`: a Pending row at the end; the cursor stays. */
  function AddItem(t: ItemsTable, name: string, downloadType: string): (r: ItemsTable)
    requires ItemsWf(t)
    ensures ItemsWf(r) && ItemCount(r) == ItemCount(t) + 1 && r.cursor == t.cursor
    ensures ItemsLabelled(t) ==> ItemsLabelled(r)
    ensures r.status[ItemCount(t)] == ItemPending && r.itemName[ItemCount(t)] == name
      && r.downloadType[ItemCount(t)] == downloadType
    ensures r.status[..ItemCount(t)] == t.status && r.itemName[..ItemCount(t)] == t.itemName
      && r.downloadType[..ItemCount(t)] == t.downloadType
  {
    assert (t.status + [ItemPending])[..|t.status|] == t.status;
    assert (t.itemName + [name])[..|t.itemName|] == t.itemName;
    assert (t.downloadType + [downloadType])[..|t.downloadType|] == t.downloadType;
    ItemsTable(t.status + [ItemPending], t.itemName + [name], t.downloadType + [downloadType], t.cursor)
  }

  /** `add_item` for each name in turn, from an empty table. */
  function AddItems(names: seq<string>, downloadType: string): (r: ItemsTable)
    ensures ItemsWf(r) && ItemsLabelled(r) && r.cursor == -1
    ensures ItemCount(r) == |names| && r.itemName == names
    ensures forall i :: 0 <= i < |names| ==> r.status[i] == ItemPending && r.downloadType[i] == downloadType
    decreases |names|
  {
    if |names| == 0 then NoItems
    else
      var prev := AddItems(names[..|names| - 1], downloadType);
      var r := AddItem(prev, names[|names| - 1], downloadType);
      ExtendedBy(prev.itemName, r.itemName, names);
      ExtendedAll(prev.status, r.status, ItemPending);
      ExtendedAll(prev.downloadType, r.downloadType, downloadType);
      r
  }

  /** A column that kept its first rows and gained the next one is the
      whole sequence. */
  lemma ExtendedBy<T>(before: seq<T>, after: seq<T>, whole: seq<T>)
    requires |whole| > 0 && before == whole[..|whole| - 1]
    requires |after| == |whole| && after[..|whole| - 1] == before && after[|whole| - 1] == whole[|whole| - 1]
    ensures after == whole
  {
    assert forall i :: 0 <= i < |whole| - 1 ==> after[i] == after[..|whole| - 1][i];
  }

  /** A column of one value that gains one more row of that value. */
  lemma ExtendedAll<T>(before: seq<T>, after: seq<T>, v: T)
    requires |after| == |before| + 1 && after[..|before|] == before && after[|before|] == v
    requires forall i :: 0 <= i < |before| ==> before[i] == v
    ensures forall i :: 0 <= i < |after| ==> after[i] == v
  {
    assert forall i :: 0 <= i < |before| ==> after[i] == after[..|before|][i];
  }

  /** `setData(index, value, for_)` on the items table, for an index of
      row `row` (the row the cursor is on). An index with a negative row is
      invalid and is refused; "status" with -2 marks that row and every
      later one; any other status marks that row only; any other column
      changes nothing. */
  function SetItemData(t: ItemsTable, row: int, value: int, column: string): (r: (bool, ItemsTable))
    requires ItemsWf(t) && row < ItemCount(t)
    ensures ItemsWf(r.1) && r.1.itemName == t.itemName && r.1.downloadType == t.downloadType && r.1.cursor == t.cursor
    ensures r.0 <==> row >= 0
    ensures !r.0 || column != "status" ==> r.1 == t
    ensures r.0 && column == "status" && value == ItemAborted ==>
      forall i :: 0 <= i < ItemCount(t) ==> r.1.status[i] == (if i >= row then ItemAborted else t.status[i])
    ensures r.0 && column == "status" && value != ItemAborted ==>
      r.1.status == t.status[row := value]
  {
    if row < 0 then (false, t)
    else if column != "status" then (true, t)
    else if value == ItemAborted then (true, t.(status := AbortFrom(t.status, row)))
    else (true, t.(status := t.status[row := value]))
  }

  /** The abort cascade: -2 from `row` to the end. */
  function AbortFrom(status: seq<int>, row: nat): (r: seq<int>)
    requires row <= |status|
    ensures |r| == |status|
    ensures forall i :: 0 <= i < |status| ==> r[i] == (if i >= row then ItemAborted else status[i])
  {
    status[..row] + seq(|status| - row, _ => ItemAborted)
  }

  /** A status write keeps every status displayable when the value is. */
  lemma SetItemKeepsLabels(t: ItemsTable, row: int, value: int, column: string)
    requires ItemsWf(t) && row < ItemCount(t) && ItemsLabelled(t)
    requires ItemStatusLabel(value).Some?
    ensures ItemsLabelled(SetItemData(t, row, value, column).1)
  {
  }

  /** A row as `__next__` hands it out (the status by its code). */
  datatype ItemRow = ItemRow(status: int, itemName: string, downloadType: string)

  function ItemAt(t: ItemsTable, i: nat): ItemRow
    requires ItemsWf(t) && i < ItemCount(t)
  {
    ItemRow(t.status[i], t.itemName[i], t.downloadType[i])
  }

  /** `__next__`: the next row, or none (StopIteration) with the cursor
      back before the first row. */
  function NextItem(t: ItemsTable): (r: (ItemsTable, Option<ItemRow>))
    requires ItemsWf(t)
    ensures ItemsWf(r.0) && r.0 == t.(cursor := Advance(t.cursor, ItemCount(t)))
    ensures r.1.Some? <==> t.cursor + 1 < ItemCount(t)
    ensures r.1.Some? ==> r.1.value == ItemAt(t, t.cursor + 1)
  {
    var c := Advance(t.cursor, ItemCount(t));
    if c == -1 then (t.(cursor := -1), None) else (t.(cursor := c), Some(ItemAt(t, c)))
  }

  /** `k` successive `__next__` calls. */
  function DrainItems(t: ItemsTable, k: nat): (r: (ItemsTable, seq<Option<ItemRow>>))
    requires ItemsWf(t)
    ensures ItemsWf(r.0) && |r.1| == k
    decreases k
  {
    if k == 0 then (t, [])
    else
      var (t1, x) := NextItem(t);
      var (t2, xs) := DrainItems(t1, k - 1);
      (t2, [x] + xs)
  }

  /** From any cursor position the calls hand out the remaining rows in
      order, then one StopIteration that puts the cursor back at -1, so the
      next call starts again at the first row. */
  lemma {:induction false} DrainItemsInOrder(t: ItemsTable, k: nat)
    requires ItemsWf(t) && k <= ItemCount(t) - t.cursor
    ensures forall i :: 0 <= i < k && t.cursor + 1 + i < ItemCount(t) ==>
      DrainItems(t, k).1[i] == Some(ItemAt(t, t.cursor + 1 + i))
    ensures k == ItemCount(t) - t.cursor ==>
      DrainItems(t, k).1[k - 1] == None && DrainItems(t, k).0 == t.(cursor := -1)
    decreases k
  {
    if k > 0 {
      var t1 := NextItem(t).0;
      if t.cursor + 1 < ItemCount(t) {
        assert t1 == t.(cursor := t.cursor + 1);
        DrainItemsInOrder(t1, k - 1);
        forall i | 0 <= i < k && t.cursor + 1 + i < ItemCount(t)
          ensures DrainItems(t, k).1[i] == Some(ItemAt(t, t.cursor + 1 + i))
        {
          if i > 0 {
            assert DrainItems(t, k).1[i] == DrainItems(t1, k - 1).1[i - 1];
          }
        }
      } else {
        assert k == 1;
      }
    }
  }

  // The files table.

  const FilePending: int := -1
  const FileDownloading: int := 0
  const FileCompleted: int := 1

  function FileStatusLabel(code: int): (r: Option<string>)
    ensures r.Some? <==> -1 <= code <= 1
  {
    if code == -1 then Some("Pending")
    else if code == 0 then Some("Downloading")
    else if code == 1 then Some("Completed")
    else None
  }

  datatype FilesTable = FilesTable(
    status: seq<int>, filename: seq<string>, fileSize: seq<int>,
    speed: seq<int>, progress: seq<int>, cursor: int)

  predicate FilesWf(t: FilesTable) {
    |t.status| == |t.filename| == |t.fileSize| == |t.speed| == |t.progress|
    && -1 <= t.cursor < |t.status|
  }

  function FileCount(t: FilesTable): nat { |t.status| }

  /** The constructor: one row per file name with every number -1 (shown
      as "---") and the cursor before the first row. */
  function NewFiles(filenames: seq<string>): (r: FilesTable)
    ensures FilesWf(r) && FileCount(r) == |filenames| && r.filename == filenames && r.cursor == -1
    ensures forall i :: 0 <= i < |filenames| ==>
      r.status[i] == FilePending && r.fileSize[i] == -1 && r.speed[i] == -1 && r.progress[i] == -1
  {
    var unset := seq(|filenames|, _ => -1);
    FilesTable(unset, filenames, unset, unset, unset, -1)
  }

  /** `setData` on the files table for an index of row `row`: "status",
      "size" and "speed" overwrite that cell; "progress" -1 copies the
      row's file size, any other value is stored; other columns change
      nothing; a negative row is refused. */
  function SetFileData(t: FilesTable, row: int, value: int, column: string): (r: (bool, FilesTable))
    requires FilesWf(t) && row < FileCount(t)
    ensures FilesWf(r.1) && r.1.filename == t.filename && r.1.cursor == t.cursor
    ensures r.0 <==> row >= 0
    ensures !r.0 ==> r.1 == t
    ensures r.0 ==> r.1.status == (if column == "status" then t.status[row := value] else t.status)
    ensures r.0 ==> r.1.fileSize == (if column == "size" then t.fileSize[row := value] else t.fileSize)
    ensures r.0 ==> r.1.speed == (if column == "speed" then t.speed[row := value] else t.speed)
    ensures r.0 ==> (r.1.progress ==
      if column == "progress" then t.progress[row := if value == -1 then t.fileSize[row] else value] else t.progress)
  {
    if row < 0 then (false, t)
    else if column == "status" then (true, t.(status := t.status[row := value]))
    else if column == "size" then (true, t.(fileSize := t.fileSize[row := value]))
    else if column == "speed" then (true, t.(speed := t.speed[row := value]))
    else if column == "progress" then
      (true, t.(progress := t.progress[row := if value == -1 then t.fileSize[row] else value]))
    else (true, t)
  }

  /** The raw values of a row (`get_current_data`). */
  datatype FileRow = FileRow(status: int, filename: string, fileSize: int, speed: int, progress: int)

  function FileAt(t: FilesTable, i: nat): FileRow
    requires FilesWf(t) && i < FileCount(t)
  {
    FileRow(t.status[i], t.filename[i], t.fileSize[i], t.speed[i], t.progress[i])
  }

  function NextFile(t: FilesTable): (r: (FilesTable, Option<FileRow>))
    requires FilesWf(t)
    ensures FilesWf(r.0) && r.0 == t.(cursor := Advance(t.cursor, FileCount(t)))
    ensures r.1.Some? <==> t.cursor + 1 < FileCount(t)
    ensures r.1.Some? ==> r.1.value == FileAt(t, t.cursor + 1)
  {
    var c := Advance(t.cursor, FileCount(t));
    if c == -1 then (t.(cursor := -1), None) else (t.(cursor := c), Some(FileAt(t, c)))
  }

  function DrainFiles(t: FilesTable, k: nat): (r: (FilesTable, seq<Option<FileRow>>))
    requires FilesWf(t)
    ensures FilesWf(r.0) && |r.1| == k
    decreases k
  {
    if k == 0 then (t, [])
    else
      var (t1, x) := NextFile(t);
      var (t2, xs) := DrainFiles(t1, k - 1);
      (t2, [x] + xs)
  }

  /** A fresh files table hands out its rows 0..n-1 in order, then one
      StopIteration that resets the cursor to -1. */
  lemma {:induction false} DrainFilesInOrder(t: FilesTable, k: nat)
    requires FilesWf(t) && k <= FileCount(t) - t.cursor
    ensures forall i :: 0 <= i < k && t.cursor + 1 + i < FileCount(t) ==>
      DrainFiles(t, k).1[i] == Some(FileAt(t, t.cursor + 1 + i))
    ensures k == FileCount(t) - t.cursor ==>
      DrainFiles(t, k).1[k - 1] == None && DrainFiles(t, k).0 == t.(cursor := -1)
    decreases k
  {
    if k > 0 {
      var t1 := NextFile(t).0;
      if t.cursor + 1 < FileCount(t) {
        DrainFilesInOrder(t1, k - 1);
        forall i | 0 <= i < k && t.cursor + 1 + i < FileCount(t)
          ensures DrainFiles(t, k).1[i] == Some(FileAt(t, t.cursor + 1 + i))
        {
          if i > 0 {
            assert DrainFiles(t, k).1[i] == DrainFiles(t1, k - 1).1[i - 1];
          }
        }
      } else {
        assert k == 1;
      }
    }
  }
}
