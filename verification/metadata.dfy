/** Gallery and file metadata (`downloader/base_classes/metadata.py` and
    the Hitomi and nhentai subclasses): the fields derived when a gallery
    record is built, the sanitised location and file names, and the
    column-per-field file tables. */
module Metadata {
  import opened Wrappers
  import opened Text
  import opened Pathnames

  /** The exceptions building a gallery record can raise: a title with more
      than one `|` does not unpack into two titles, and an empty artist or
      group list has no first element. */
  datatype Failure = ValueError | IndexError

  /** What distinguishes the services' records: Hitomi keeps an optional
      video and video file name, nhentai a media id. */
  datatype Extra = HitomiExtra(video: Option<string>, videoFilename: Option<string>) | NhentaiExtra(mediaId: int)

  /** The fields an extractor supplies. */
  datatype Fields = Fields(
    galleryId: int,
    title: string,
    japaneseTitle: string,
    artists: seq<string>,
    groups: seq<string>,
    typeName: string,
    language: string,
    series: seq<string>,
    characters: seq<string>,
    tags: seq<string>,
    uploadDate: string,
    extra: Extra)

  /** A gallery record after `__post_init__`. */
  datatype Gallery = Gallery(
    fields: Fields,
    originalTitle: string,
    translatedTitle: string,
    artistName: string,
    groupName: string,
    pages: int)

  const NoOriginalTitle: string := "original_title(NA)"
  const NoTranslatedTitle: string := "translated_title(NA)"

  /** The two titles of a `original|translated` title. */
  function SplitTitle(title: string): (r: Result<(string, string), Failure>)
    ensures '|' !in title ==> r == Ok((NoOriginalTitle, NoTranslatedTitle))
    ensures '|' in title ==> (r.Ok? <==> CountChar(title, '|') == 1)
    ensures '|' in title && r.Ok? ==>
      '|' !in r.value.0 && '|' !in r.value.1 && title == r.value.0 + "|" + r.value.1
  {
    if '|' !in title then Ok((NoOriginalTitle, NoTranslatedTitle))
    else
      var parts := Split(title, '|');
      SplitCount(title, '|');
      if |parts| != 2 then Err(ValueError)
      else
        JoinSplit(title, '|');
        assert Join('|', parts) == parts[0] + ['|'] + parts[1];
        Ok((parts[0], parts[1]))
  }

  /** Joining two `|`-free titles with `|` and splitting them again gives
      the two titles back. */
  lemma TitleRoundTrip(original: string, translated: string)
    requires '|' !in original && '|' !in translated
    ensures SplitTitle(original + "|" + translated) == Ok((original, translated))
  {
    var title := original + "|" + translated;
    assert title[|original|] == '|';
    assert Join('|', [original, translated]) == title;
    SplitJoin([original, translated], '|');
  }

  /** `__post_init__`: the titles, the first artist and group, and the page
      count, which is the number of files except that a Hitomi "anime"
      gallery has one page. */
  function PostInit(f: Fields, fileCount: nat): (r: Result<Gallery, Failure>)
    ensures r.Ok? <==> SplitTitle(f.title).Ok? && |f.artists| > 0 && |f.groups| > 0
    ensures r.Ok? ==> r.value.fields == f && r.value.artistName == f.artists[0] && r.value.groupName == f.groups[0]
    ensures r.Ok? ==> (r.value.pages == if f.extra.HitomiExtra? && f.typeName == "anime" then 1 else fileCount)
  {
    match SplitTitle(f.title)
    case Err(e) => Err(e)
    case Ok(titles) =>
      if |f.artists| == 0 || |f.groups| == 0 then Err(IndexError)
      else
        var pages := if f.extra.HitomiExtra? && f.typeName == "anime" then 1 else fileCount;
        Ok(Gallery(f, titles.0, titles.1, f.artists[0], f.groups[0], pages))
  }

  /** `set_location`, given the path the location format expands to after
      `os.path.abspath` and `QDir.cleanPath`: every `/`-separated segment is
      sanitised and the segments re-joined. */
  function Location(path: string): (r: string)
    ensures |r| == |path|
    ensures IsValidPathname(r)
    ensures forall i :: 0 <= i < |path| ==> (path[i] == '/' <==> r[i] == '/')
  {
    SegmentwiseIsWhole(path);
    Join('/', MapValidate(Split(path, '/')))
  }

  /** Every segment of the location is a sanitised segment of the path. */
  lemma LocationSegments(path: string)
    ensures Split(Location(path), '/') == MapValidate(Split(path, '/'))
    ensures forall i :: 0 <= i < |Split(Location(path), '/')| ==> IsValidPathname(Split(Location(path), '/')[i])
  {
    var parts := MapValidate(Split(path, '/'));
    forall i | 0 <= i < |parts| ensures '/' !in parts[i] {
      assert '/' !in Split(path, '/')[i];
      assert forall k :: 0 <= k < |parts[i]| ==> (parts[i][k] == '/' ==> Split(path, '/')[i][k] == '/');
    }
    SplitJoin(parts, '/');
  }

  /** The four columns of the base file table, kept the same length. */
  datatype FileTable = FileTable(fileUrl: seq<string>, filename: seq<string>, ext: seq<string>, formatted: seq<string>)

  predicate Aligned(t: FileTable) {
    |t.fileUrl| == |t.filename| == |t.ext| == |t.formatted|
  }

  /** `len`, which reads the file-name column. */
  function Size(t: FileTable): nat { |t.filename| }

  const EmptyTable: FileTable := FileTable([], [], [], [])

  /** `insert`: one row at the end, with an empty formatted name. */
  function Insert(t: FileTable, url: string, name: string, ext: string): (r: FileTable)
    requires Aligned(t)
    ensures Aligned(r) && Size(r) == Size(t) + 1
    ensures Row(r, Size(t)) == (url, name, ext, "")
    ensures forall i :: 0 <= i < Size(t) ==> Row(r, i) == Row(t, i)
  {
    FileTable(t.fileUrl + [url], t.filename + [name], t.ext + [ext], t.formatted + [""])
  }

  /** `t[i]`: the row's values across the columns. */
  function Row(t: FileTable, i: nat): (string, string, string, string)
    requires Aligned(t) && i < Size(t)
  {
    (t.fileUrl[i], t.filename[i], t.ext[i], t.formatted[i])
  }

  /** Iteration: the rows in insertion order. */
  function Rows(t: FileTable): (r: seq<(string, string, string, string)>)
    requires Aligned(t)
    ensures |r| == Size(t) && forall i :: 0 <= i < Size(t) ==> r[i] == Row(t, i)
  {
    seq(Size(t), i requires 0 <= i < Size(t) => Row(t, i))
  }

  /** Inserting rows one after another lists them in that order. */
  lemma {:induction false} InsertAllRows(t: FileTable, rows: seq<(string, string, string)>)
    requires Aligned(t)
    ensures Aligned(InsertAll(t, rows))
    ensures Rows(InsertAll(t, rows)) == Rows(t) + seq(|rows|, i requires 0 <= i < |rows| => (rows[i].0, rows[i].1, rows[i].2, ""))
    decreases |rows|
  {
    if |rows| > 0 {
      var last := rows[|rows| - 1];
      var t' := InsertAll(t, rows[..|rows| - 1]);
      InsertAllRows(t, rows[..|rows| - 1]);
      var r := Insert(t', last.0, last.1, last.2);
      assert Rows(r) == Rows(t') + [(last.0, last.1, last.2, "")];
    }
  }

  function InsertAll(t: FileTable, rows: seq<(string, string, string)>): (r: FileTable)
    requires Aligned(t)
    ensures Aligned(r) && Size(r) == Size(t) + |rows|
    decreases |rows|
  {
    if |rows| == 0 then t
    else
      var last := rows[|rows| - 1];
      Insert(InsertAll(t, rows[..|rows| - 1]), last.0, last.1, last.2)
  }

  /** `set_formatted_filename`: only that row's formatted name changes. */
  function SetFormatted(t: FileTable, name: string, i: nat): (r: FileTable)
    requires Aligned(t) && i < Size(t)
    ensures Aligned(r) && Size(r) == Size(t)
    ensures Row(r, i) == (t.fileUrl[i], t.filename[i], t.ext[i], name)
    ensures forall k :: 0 <= k < Size(t) && k != i ==> Row(r, k) == Row(t, k)
  {
    t.(formatted := t.formatted[i := name])
  }

  /** `set_formatted_filenames`, given the name template expanded for each
      file: every row's formatted name becomes its sanitised expansion, and
      nothing else changes. */
  function SetFormattedNames(t: FileTable, expanded: seq<string>): (r: FileTable)
    requires Aligned(t) && |expanded| == Size(t)
    ensures Aligned(r) && Size(r) == Size(t)
    ensures forall i :: 0 <= i < Size(t) ==>
      Row(r, i) == (t.fileUrl[i], t.filename[i], t.ext[i], ValidatePathname(expanded[i]))
  {
    SetFormattedFrom(t, expanded, 0)
  }

  /** The loop of `set_formatted_filenames` from row `k` on. */
  function SetFormattedFrom(t: FileTable, expanded: seq<string>, k: nat): (r: FileTable)
    requires Aligned(t) && |expanded| == Size(t) && k <= Size(t)
    ensures Aligned(r) && Size(r) == Size(t)
    ensures forall i :: 0 <= i < k ==> Row(r, i) == Row(t, i)
    ensures forall i :: k <= i < Size(t) ==>
      Row(r, i) == (t.fileUrl[i], t.filename[i], t.ext[i], ValidatePathname(expanded[i]))
    decreases Size(t) - k
  {
    if k == Size(t) then t
    else SetFormattedFrom(SetFormatted(t, ValidatePathname(expanded[k]), k), expanded, k + 1)
  }

  /** The six columns of the Hitomi file table, kept the same length. */
  datatype HitomiTable = HitomiTable(
    filename: seq<string>, ext: seq<string>, formatted: seq<string>,
    hash: seq<string>, hasAvif: seq<bool>, hasWebp: seq<bool>)

  predicate HitomiAligned(t: HitomiTable) {
    |t.filename| == |t.ext| == |t.formatted| == |t.hash| == |t.hasAvif| == |t.hasWebp|
  }

  function HitomiRow(t: HitomiTable, i: nat): (string, string, string, string, bool, bool)
    requires HitomiAligned(t) && i < |t.filename|
  {
    (t.filename[i], t.ext[i], t.formatted[i], t.hash[i], t.hasAvif[i], t.hasWebp[i])
  }

  /** Hitomi's `insert`: one row at the end, with an empty formatted name. */
  function HitomiInsert(t: HitomiTable, name: string, ext: string, hash: string, avif: bool, webp: bool): (r: HitomiTable)
    requires HitomiAligned(t)
    ensures HitomiAligned(r) && |r.filename| == |t.filename| + 1
    ensures HitomiRow(r, |t.filename|) == (name, ext, "", hash, avif, webp)
    ensures forall i :: 0 <= i < |t.filename| ==> HitomiRow(r, i) == HitomiRow(t, i)
  {
    HitomiTable(t.filename + [name], t.ext + [ext], t.formatted + [""], t.hash + [hash], t.hasAvif + [avif], t.hasWebp + [webp])
  }
}
