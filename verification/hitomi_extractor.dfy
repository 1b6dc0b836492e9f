/** Hitomi's extractor (`downloader/services/hitomi/extractor.py`): the
    listing address of a download item, the user's selections, the walk over
    a nozomi's gallery ids, and the rules that pick a gallery's fields out
    of its metadata JSON. */
module HitomiExtractor {
  import opened Wrappers
  import opened Text
  import opened Json
  import opened Extraction
  import Nozomi

  const RootUrl: string := "https://hitomi.la/"

  const GalleryIds: string := "Gallery ID(s)"

  /** `DOWNLOAD_TYPES`: the listing category each download type searches;
      None for a name the table lacks (a `KeyError`). */
  function Category(downloadType: string): (r: Option<string>) {
    if downloadType == "Artist(s)" then Some("artist/")
    else if downloadType == "Character(s)" then Some("character/")
    else if downloadType == GalleryIds then Some("")
    else if downloadType == "Group(s)" then Some("group/")
    else if downloadType == "Series(s)" then Some("series/")
    else if downloadType == "Type(s)" then Some("type/")
    else if downloadType == "Tag(s)" then Some("tag/")
    else None
  }

  /** The area a category names: the category without its closing "/". */
  predicate IsArea(area: string) {
    area != "" && area != "popular" && '/' !in area && '.' !in area
  }

  /** Every category but the gallery one is an area and a "/". */
  lemma CategoriesAreAreas(downloadType: string)
    ensures Category(downloadType).Some? && Category(downloadType).value != "" ==>
      var c := Category(downloadType).value;
      |c| > 1 && c[|c| - 1] == '/' && IsArea(c[..|c| - 1])
    ensures Category(downloadType) == Some("") <==> downloadType == GalleryIds
  {
  }

  const OrderChoices: seq<string> := ["Today", "Week", "Month", "Year"]

  /** What the extractor keeps of the user's choices. */
  datatype Selection = Selection(downloadType: string, category: string, order: string)

  /** `set_user_selections` as written: the order is cleared and then the
      cleared field, not the choice, is tested, so it stays empty. */
  function SelectionsAsWritten(downloadType: string, orderBy: string): (r: Option<Selection>)
    ensures r.Some? <==> Category(downloadType).Some?
    ensures r.Some? ==> r.value.category == Category(downloadType).value
  {
    match Category(downloadType)
    case None => None
    case Some(c) =>
      var order := "";
      Some(Selection(downloadType, c, if order in OrderChoices then "popular/" + Lower(order) + "/" else ""))
  }

  /** Whatever the user picks, the order as written is empty. */
  lemma OrderIgnored(downloadType: string, orderBy: string)
    requires Category(downloadType).Some?
    ensures SelectionsAsWritten(downloadType, orderBy).value.order == ""
    ensures SelectionsAsWritten(downloadType, orderBy) == SelectionsAsWritten(downloadType, "Today")
  {
    assert "" !in OrderChoices;
  }

  /** `set_user_selections` testing the choice it was given: a popularity
      period becomes "popular/<period>/". */
  function Selections(downloadType: string, orderBy: string): (r: Option<Selection>)
    ensures r.Some? <==> Category(downloadType).Some?
    ensures r.Some? ==> r.value.category == Category(downloadType).value
    ensures r.Some? && orderBy !in OrderChoices ==> r.value.order == ""
  {
    match Category(downloadType)
    case None => None
    case Some(c) =>
      Some(Selection(downloadType, c, if orderBy in OrderChoices then "popular/" + Lower(orderBy) + "/" else ""))
  }

  /** `get_download_item_url`: the item itself, in the "gallery" context,
      for gallery ids; else the item's listing page. */
  function ItemUrl(sel: Selection, item: string): (r: (string, string)) {
    if sel.category == "" then (item, "gallery")
    else (RootUrl + sel.category + sel.order + item + "-all.html", item)
  }

  /** A gallery-id item is passed through; a listing item's address ends
      with the item and "-all.html", after the root, category and order. */
  lemma ItemUrlShape(sel: Selection, item: string)
    ensures sel.category == "" ==> ItemUrl(sel, item) == (item, "gallery")
    ensures sel.category != "" ==>
      var url := ItemUrl(sel, item).0;
      StartsWith(url, RootUrl + sel.category) && EndsWith(url, item + "-all.html")
      && ItemUrl(sel, item).1 == item
  {
    if sel.category != "" {
      var url := ItemUrl(sel, item).0;
      assert url[..|RootUrl + sel.category|] == RootUrl + sel.category;
      assert url[|url| - |item + "-all.html"|..] == item + "-all.html";
    }
  }

  /** A text of a "/"-ended prefix without ".", an item without "/" and a
      suffix without "/" holds no "hitomi.la/": the marker's "/" would have
      to fall in the prefix, and so would its ".". */
  lemma NoMarkerInListing(prefix: string, item: string, suffix: string)
    requires '.' !in prefix && '/' !in item && '/' !in suffix
    ensures !Contains(prefix + item + suffix, Nozomi.SiteMarker)
  {
    var t := prefix + item + suffix;
    var m := Nozomi.SiteMarker;
    forall k | 0 <= k <= |t| - |m|
      ensures !OccursAt(t, m, k)
    {
      assert m[9] == '/' && m[6] == '.';
      if k + 9 >= |prefix| {
        assert t[k + 9] == (item + suffix)[k + 9 - |prefix|];
        assert t[k..k + |m|][9] == t[k + 9];
      } else {
        assert t[k + 6] == prefix[k + 6];
        assert t[k..k + |m|][6] == t[k + 6];
      }
    }
  }

  /** The listing body `fetch_nozomi` reads off an item's listing page. */
  lemma ListingBodyOf(prefix: string, item: string)
    requires '.' !in prefix && '/' !in item
    ensures Nozomi.ListingBody(RootUrl + prefix + item + "-all.html") == prefix + item + "-all"
  {
    var t := prefix + item + "-all.html";
    NoMarkerInListing(prefix, item, "-all.html");
    assert RootUrl + prefix + item + "-all.html" == "https://" + Nozomi.SiteMarker + t by {
      ConcatAssoc(RootUrl, prefix + item, "-all.html");
      ConcatAssoc(RootUrl, prefix, item);
    }
    Nozomi.FilePathAfterMarker("https://", t);
    HtmlEnded(prefix + item);
  }

  /** A listing page's path ends in ".html", and without it in "-all". */
  lemma HtmlEnded(head: string)
    ensures var t := head + "-all.html";
      EndsWith(t, ".html") && t[..|t| - 5] == head + "-all"
  {
    var t := head + "-all.html";
    assert t[|t| - 5..] == ".html";
    assert t[..|t| - 5] == head + "-all";
  }

  /** The tag of an item's listing splits into the area and the item. */
  lemma ItemTagSplit(area: string, item: string)
    requires '/' !in area && '/' !in item
    ensures Split(area + "/" + item, '/') == [area, item]
  {
    assert Join('/', [area, item]) == area + "/" + item;
    SplitJoin([area, item], '/');
  }

  lemma PopularTagSplit(area: string, period: string, item: string)
    requires '/' !in area && '/' !in period && '/' !in item
    ensures Split(area + "/popular/" + period + "/" + item, '/') == [area, "popular", period, item]
  {
    var parts := [area, "popular", period, item];
    assert Join('/', parts[2..]) == period + "/" + item;
    assert Join('/', parts[1..]) == "popular/" + period + "/" + item;
    assert Join('/', parts) == area + "/popular/" + period + "/" + item;
    SplitJoin(parts, '/');
  }

  /** The body of an item's listing names the item's nozomi in the area,
      for the port as written and corrected alike. */
  lemma AreaBodyAddress(area: string, item: string)
    requires IsArea(area) && '/' !in item && item != "popular"
    ensures var body := area + "/" + item + "-all";
      Nozomi.NozomiAddress(body) == Nozomi.NozomiAddressAsWritten(body)
      == Ok(Nozomi.Address(Some(area), None, item, "all"))
  {
    var tag := area + "/" + item;
    assert area + "/" + item + "-all" == tag + ['-'] + "all";
    Nozomi.SplitLastAt(tag, "all", '-');
    assert tag[|area|] == '/';
    ItemTagSplit(area, item);
  }

  /** The body of an item's popular listing names the item's nozomi under
      the area's popular period. */
  lemma PopularBodyAddress(area: string, period: string, item: string)
    requires IsArea(area) && '/' !in period && '/' !in item
    ensures var body := area + "/popular/" + period + "/" + item + "-all";
      Nozomi.NozomiAddress(body) == Ok(Nozomi.Address(Some(area), Some(period), item, "all"))
  {
    var tag := area + "/popular/" + period + "/" + item;
    assert area + "/popular/" + period + "/" + item + "-all" == tag + ['-'] + "all";
    Nozomi.SplitLastAt(tag, "all", '-');
    assert tag[|area|] == '/';
    PopularTagSplit(area, period, item);
    var ae := [area, "popular", period, item];
    assert ae[..1] + ae[3..] == [area, item];
  }

  /** A popularity period is a lower-case word. */
  lemma PeriodIsWord(orderBy: string)
    requires orderBy in OrderChoices
    ensures var p := Lower(orderBy); p != "" && '/' !in p && '.' !in p
  {
    assert forall i :: 0 <= i < |orderBy| ==> IsAsciiLetter(orderBy[i]);
    var p := Lower(orderBy);
    assert forall i :: 0 <= i < |p| ==> IsAsciiLetter(p[i]);
  }

  /** The nozomi an item's listing page leads to, with the order empty as
      written: the item's nozomi in the category's area, for the port as
      written and corrected alike. An item named "popular" is read as a
      period and fails. */
  lemma ItemNozomi(downloadType: string, orderBy: string, item: string)
    requires Category(downloadType).Some? && Category(downloadType).value != ""
    requires '/' !in item && item != "popular"
    ensures var sel := SelectionsAsWritten(downloadType, orderBy).value;
      var c := sel.category;
      var url := ItemUrl(sel, item).0;
      Nozomi.FetchNozomi(url) == Nozomi.FetchNozomiAsWritten(url)
      == Ok(Nozomi.Address(Some(c[..|c| - 1]), None, item, "all"))
  {
    CategoriesAreAreas(downloadType);
    OrderIgnored(downloadType, orderBy);
    var sel := SelectionsAsWritten(downloadType, orderBy).value;
    var c := sel.category;
    var area := c[..|c| - 1];
    assert c == area + "/";
    assert ItemUrl(sel, item).0 == RootUrl + (area + "/") + item + "-all.html";
    AreaListingNozomi(area, item);
  }

  /** An item's listing page in an area leads to the item's nozomi there,
      for the port as written and corrected alike. */
  lemma AreaListingNozomi(area: string, item: string)
    requires IsArea(area) && '/' !in item && item != "popular"
    ensures var url := RootUrl + (area + "/") + item + "-all.html";
      Nozomi.FetchNozomi(url) == Nozomi.FetchNozomiAsWritten(url)
      == Ok(Nozomi.Address(Some(area), None, item, "all"))
  {
    assert '.' !in area + "/";
    ListingBodyOf(area + "/", item);
    AreaBodyAddress(area, item);
  }

  lemma NoDotInPopular(area: string, period: string)
    requires '.' !in area && '.' !in period
    ensures '.' !in area + "/popular/" + period + "/"
  {
    assert '.' !in "/popular/";
    assert '.' !in "/";
  }

  lemma PopularPrefix(area: string, period: string)
    ensures (area + "/") + ("popular/" + period + "/") == area + "/popular/" + period + "/"
  {
    var a := (area + "/") + ("popular/" + period + "/");
    var b := area + "/popular/" + period + "/";
    assert |a| == |b|;
    forall i | 0 <= i < |a| ensures a[i] == b[i] {
      if i < |area| {
      } else if i < |area| + 9 {
        assert a[i] == "/popular/"[i - |area|];
      }
    }
  }

  /** A popular listing page's nozomi. */
  lemma PopularListingNozomi(area: string, period: string, item: string)
    requires IsArea(area) && period != "" && '/' !in period && '.' !in period && '/' !in item
    ensures Nozomi.FetchNozomi(RootUrl + (area + "/") + ("popular/" + period + "/") + item + "-all.html")
      == Ok(Nozomi.Address(Some(area), Some(period), item, "all"))
  {
    var prefix := area + "/popular/" + period + "/";
    NoDotInPopular(area, period);
    ListingBodyOf(prefix, item);
    assert RootUrl + (area + "/") + ("popular/" + period + "/") + item + "-all.html"
      == RootUrl + prefix + item + "-all.html" by {
      PopularPrefix(area, period);
      ConcatAssoc(RootUrl, area + "/", "popular/" + period + "/");
    }
    assert prefix + item + "-all" == area + "/popular/" + period + "/" + item + "-all";
    PopularBodyAddress(area, period, item);
  }

  /** With the order the user chose, a popularity period reaches the
      nozomi: the item's nozomi under the area's popular listing. */
  lemma IntendedOrderReachesNozomi(downloadType: string, orderBy: string, item: string)
    requires Category(downloadType).Some? && Category(downloadType).value != ""
    requires orderBy in OrderChoices && '/' !in item
    ensures var sel := Selections(downloadType, orderBy).value;
      var c := sel.category;
      Nozomi.FetchNozomi(ItemUrl(sel, item).0)
      == Ok(Nozomi.Address(Some(c[..|c| - 1]), Some(Lower(orderBy)), item, "all"))
  {
    CategoriesAreAreas(downloadType);
    PeriodIsWord(orderBy);
    var sel := Selections(downloadType, orderBy).value;
    var c := sel.category;
    var area := c[..|c| - 1];
    var period := Lower(orderBy);
    assert c == area + "/";
    assert sel.order == "popular/" + period + "/";
    PopularListingNozomi(area, period, item);
  }

  // The walk over a nozomi's ids.

  /** What `next_nozomi` gives: an id, or -1 with the item finished when
      there is no nozomi (a gallery-id item) or its ids are used up; and
      the ids left. */
  datatype NextId = NextId(id: int, itemFinished: bool, rest: Option<seq<int>>)

  function NextNozomi(ids: Option<seq<int>>): (r: NextId)
    ensures r.itemFinished <==> ids.None? || ids.value == []
    ensures r.itemFinished ==> r.id == -1 && r.rest == ids
    ensures !r.itemFinished ==> r.rest.Some? && ids.value == [r.id] + r.rest.value
  {
    match ids
    case None => NextId(-1, true, ids)
    case Some(vs) => if vs == [] then NextId(-1, true, ids) else NextId(vs[0], false, Some(vs[1..]))
  }

  /** The ids `k` calls of `next_nozomi` give, and what is left. */
  function Walk(ids: Option<seq<int>>, k: nat): (seq<int>, Option<seq<int>>)
    decreases k
  {
    if k == 0 then ([], ids)
    else
      var n := NextNozomi(ids);
      var (more, left) := Walk(n.rest, k - 1);
      ([n.id] + more, left)
  }

  /** The walk over a nozomi gives its ids in order, one per call, and
      then ends the item. */
  lemma {:induction false} WalkGivesIds(ids: seq<int>)
    ensures Walk(Some(ids), |ids|) == (ids, Some([]))
    ensures NextNozomi(Walk(Some(ids), |ids|).1) == NextId(-1, true, Some([]))
    decreases |ids|
  {
    if |ids| > 0 {
      WalkGivesIds(ids[1..]);
      assert [ids[0]] + ids[1..] == ids;
    }
  }

  /** The walk over a nozomi file's bytes gives the decoded ids. */
  lemma WalkGivesDecodedIds(bs: seq<Nozomi.byte>)
    ensures var ids := Nozomi.DecodeNozomi(bs);
      Walk(Some(ids), |ids|).0 == ids && NextNozomi(Walk(Some(ids), |ids|).1).itemFinished
  {
    WalkGivesIds(Nozomi.DecodeNozomi(bs));
  }

  // File names.

  /** The start of the longest run of letters and digits ending a text. */
  function AlnumTailStart(s: string): (r: nat)
    ensures r <= |s|
    ensures forall i :: r <= i < |s| ==> IsAlnum(s[i])
    ensures r > 0 ==> !IsAlnum(s[r - 1])
    decreases |s|
  {
    if |s| == 0 || !IsAlnum(s[|s| - 1]) then |s|
    else AlnumTailStart(s[..|s| - 1])
  }

  /** The name and extension `.([A-Za-z0-9]+$)` splits a file name into:
      the first character that is not a newline and is followed by a run of
      letters and digits reaching the end (or a final newline) is dropped,
      what precedes it is the name and the run is the extension. None when
      nothing matches, where the source's `res[0]` fails. */
  function SplitFilename(name: string): (r: Option<(string, string)>)
    ensures r.Some? ==> var (base, ext) := r.value;
      ext != "" && (forall i :: 0 <= i < |ext| ==> IsAlnum(ext[i]))
      && |base| < |name| && (name == base + [name[|base|]] + ext || name == base + [name[|base|]] + ext + "\n")
  {
    var s := if |name| > 0 && name[|name| - 1] == '\n' then name[..|name| - 1] else name;
    assert name == s || name == s + "\n";
    var a := AlnumTailStart(s);
    var i := if a > 0 then a - 1 else 0;
    if i + 1 < |s| && s[i] != '\n' then
      CutAround(s, i);
      Some((s[..i], s[i + 1..]))
    else if a > 0 && a + 1 < |s| then
      CutAround(s, a);
      Some((s[..a], s[a + 1..]))
    else None
  }

  /** A text is what precedes a position, its character and what follows. */
  lemma CutAround(s: string, i: nat)
    requires i < |s|
    ensures s == s[..i] + [s[i]] + s[i + 1..] && |s[..i]| == i
  {
  }

  /** A name, a dot and a non-empty run of letters and digits split back
      into the name and the run. */
  lemma FilenameRoundTrip(base: string, ext: string)
    requires ext != "" && forall i :: 0 <= i < |ext| ==> IsAlnum(ext[i])
    ensures SplitFilename(base + "." + ext) == Some((base, ext))
  {
    var name := base + "." + ext;
    var a := AlnumTailStart(name);
    assert name[|base|] == '.';
    assert forall i :: |base| < i < |name| ==> IsAlnum(name[i]) by {
      assert forall i :: |base| < i < |name| ==> name[i] == ext[i - |base| - 1];
    }
    assert a == |base| + 1;
    assert name[..|base|] == base && name[|base| + 1..] == ext;
  }

  // The fields of a gallery's metadata.

  /** A rendered tag: a plain tag keeps the JSON value it names; a sexed
      one is the text "<sex>:" followed by its name's `str()`. */
  datatype TagName = Plain(value: Json) | Sexed(sex: string, name: Json)

  /** The text of a rendered tag whose name is a string. */
  function TagText(t: TagName): (r: Option<string>) {
    match t
    case Plain(Str(s)) => Some(s)
    case Sexed(sex, Str(s)) => Some(sex + ":" + s)
    case _ => None
  }

  /** One tag: "female" wins over "male"; a sexed tag needs its "tag" key
      (a logged `KeyError`), a plain one takes `get("tag")`; an entry that
      is not an object has no `get` and raises. */
  function RenderTag(tag: Json): (r: Result<TagName, Stop>)
    ensures !tag.Obj? <==> r == Err(Raised)
    ensures r == Err(Logged) <==> (tag.Obj? && !HasKey(tag.fields, "tag")
      && (Truthy(Member(tag, "female").value) || Truthy(Member(tag, "male").value)))
  {
    match tag
    case Obj(fields) =>
      var sex :=
        if Truthy(Lookup(fields, "female").GetOr(Null)) then "female"
        else if Truthy(Lookup(fields, "male").GetOr(Null)) then "male"
        else "";
      if sex == "" then Ok(Plain(Lookup(fields, "tag").GetOr(Null)))
      else (
        match Lookup(fields, "tag")
        case None => Err(Logged)
        case Some(name) => Ok(Sexed(sex, name)))
    case _ => Err(Raised)
  }

  /** The sex a tag is rendered with, and the name it keeps. */
  lemma TagSex(fields: Fields, name: string)
    requires Lookup(fields, "tag") == Some(Str(name))
    ensures var female := Truthy(Lookup(fields, "female").GetOr(Null));
      var male := Truthy(Lookup(fields, "male").GetOr(Null));
      TagText(RenderTag(Obj(fields)).value)
      == Some(if female then "female:" + name else if male then "male:" + name else name)
  {
    assert "female" + ":" == "female:" && "male" + ":" == "male:";
  }

  function RenderTags(tags: seq<Json>): (r: Result<seq<TagName>, Stop>)
    ensures r.Ok? ==> |r.value| == |tags|
    ensures r.Ok? ==> forall i :: 0 <= i < |tags| ==> RenderTag(tags[i]) == Ok(r.value[i])
    decreases |tags|
  {
    if |tags| == 0 then Ok([])
    else
      var first :- RenderTag(tags[0]);
      var rest :- RenderTags(tags[1..]);
      Ok([first] + rest)
  }

  /** The first entry that cannot be rendered decides how the tags fail. */
  lemma {:induction false} RenderTagsFirstFailure(tags: seq<Json>)
    ensures RenderTags(tags).Err? <==> exists i :: 0 <= i < |tags| && RenderTag(tags[i]).Err?
    ensures RenderTags(tags).Err? ==> exists i :: (0 <= i < |tags| && RenderTag(tags[i]) == Err(RenderTags(tags).error)
      && forall j :: 0 <= j < i ==> RenderTag(tags[j]).Ok?)
    decreases |tags|
  {
    if |tags| > 0 {
      RenderTagsFirstFailure(tags[1..]);
      if RenderTag(tags[0]).Ok? && RenderTags(tags[1..]).Err? {
        var i :| 0 <= i < |tags[1..]| && RenderTag(tags[1..][i]) == Err(RenderTags(tags[1..]).error)
          && forall j :: 0 <= j < i ==> RenderTag(tags[1..][j]).Ok?;
        assert RenderTag(tags[i + 1]) == Err(RenderTags(tags).error);
        assert forall j :: 1 <= j < i + 1 ==> tags[j] == tags[1..][j - 1];
      }
      if RenderTag(tags[0]).Ok? && RenderTags(tags[1..]).Ok? {
        assert forall i :: 1 <= i < |tags| ==> tags[i] == tags[1..][i - 1];
      }
    }
  }

  /** A list field (`[d.get(inner) for d in value]`): a value that cannot be
      iterated gives ["---"]; an empty text or object gives no entries; a
      list of objects gives each one's entry; anything else reaches `get`
      on a non-object and raises. */
  function Entries(value: Json, inner: string): (r: Result<seq<Json>, Stop>)
    ensures r.Err? ==> r.error == Raised
    ensures value.Arr? && r.Ok? ==> (|r.value| == |value.items|
      && forall i :: 0 <= i < |value.items| ==> Member(value.items[i], inner) == Some(r.value[i]))
    ensures value.Arr? ==> (r.Ok? <==> forall i :: 0 <= i < |value.items| ==> value.items[i].Obj?)
  {
    match value
    case Null => Ok([NoValue])
    case Bool(_) => Ok([NoValue])
    case Num(_) => Ok([NoValue])
    case Float(_) => Ok([NoValue])
    case Str(s) => if s == "" then Ok([]) else Err(Raised)
    case Obj(fields) => if fields == [] then Ok([]) else Err(Raised)
    case Arr(items) =>
      if forall i :: 0 <= i < |items| ==> items[i].Obj? then
        Ok(seq(|items|, i requires 0 <= i < |items| => Lookup(items[i].fields, inner).GetOr(Null)))
      else Err(Raised)
  }

  /** A list field read with `data[key]`: a missing key is a logged
      `KeyError`, except for the parodies, whose handler only catches a
      `TypeError`, so their missing key raises. */
  function ListField(data: Fields, key: string, inner: string): (r: Result<seq<Json>, Stop>)
    ensures !HasKey(data, key) ==> r == Err(if key == "parodys" then Raised else Logged)
    ensures Lookup(data, key) == Some(Null) ==> r == Ok([NoValue])
  {
    match Lookup(data, key)
    case None => Err(if key == "parodys" then Raised else Logged)
    case Some(v) => Entries(v, inner)
  }

  /** `data["tags"]`, rendered: a missing key is logged; a value that is
      not a list raises, unless it is an empty text or object. */
  function TagsField(data: Fields): (r: Result<seq<TagName>, Stop>)
    ensures !HasKey(data, "tags") ==> r == Err(Logged)
    ensures Lookup(data, "tags") == Some(Null) ==> r == Err(Raised)
  {
    match Lookup(data, "tags")
    case None => Err(Logged)
    case Some(Arr(items)) => RenderTags(items)
    case Some(Str(s)) => if s == "" then Ok([]) else Err(Raised)
    case Some(Obj(fields)) => if fields == [] then Ok([]) else Err(Raised)
    case Some(_) => Err(Raised)
  }

  /** `int(data.get("id"))`: a missing, null, list or object id is a logged
      `TypeError`; text that is not an integer raises a `ValueError`. */
  function GalleryId(data: Fields): (r: Result<int, Stop>)
    ensures forall n :: Lookup(data, "id") == Some(Num(n)) ==> r == Ok(n)
    ensures forall t :: Lookup(data, "id") == Some(Str(t)) ==> (r.Ok? <==> ParseInt(t).Some?) && (r.Ok? ==> ParseInt(t) == Some(r.value))
    ensures Lookup(data, "id").GetOr(Null).Null? ==> r == Err(Logged)
  {
    PyInt(Lookup(data, "id").GetOr(Null))
  }

  /** `data[key]` for a field that must be present. */
  function Required(data: Fields, key: string): (r: Result<Json, Stop>)
    ensures r.Ok? <==> HasKey(data, key)
    ensures r.Ok? ==> Lookup(data, key) == Some(r.value)
  {
    match Lookup(data, key)
    case None => Err(Logged)
    case Some(v) => Ok(v)
  }

  /** The upload date's text without its last three characters (the time
      zone's minutes); anything but text is logged. */
  function UploadDate(data: Fields): (r: Result<string, Stop>)
    ensures r.Err? ==> r.error == Logged
  {
    match Lookup(data, "date").GetOr(Null)
    case Str(s) => Ok(if |s| >= 3 then s[..|s| - 3] else "")
    case _ => Err(Logged)
  }

  /** One row of the Hitomi file table, as read from the metadata. */
  datatype FileRow = FileRow(filename: string, ext: string, hash: Json, hasAvif: Json, hasWebp: Json)

  /** One file entry: an entry that is not an object, or lacks a key, or
      whose name is not text, is logged; a name with no extension raises. */
  function FileEntry(file: Json): (r: Result<FileRow, Stop>)
    ensures r.Ok? <==> (file.Obj? && HasKey(file.fields, "hash") && HasKey(file.fields, "hasavif")
      && HasKey(file.fields, "haswebp") && Lookup(file.fields, "name").Some?
      && Lookup(file.fields, "name").value.Str? && SplitFilename(Lookup(file.fields, "name").value.s).Some?)
    ensures r.Ok? ==> (SplitFilename(Lookup(file.fields, "name").value.s) == Some((r.value.filename, r.value.ext))
      && Lookup(file.fields, "hash") == Some(r.value.hash))
  {
    match file
    case Obj(fields) => (
      match Lookup(fields, "name")
      case Some(Str(name)) =>
        var parts := SplitFilename(name);
        if parts.None? then Err(Raised)
        else
          var hash :- Required(fields, "hash");
          var avif :- Required(fields, "hasavif");
          var webp :- Required(fields, "haswebp");
          Ok(FileRow(parts.value.0, parts.value.1, hash, avif, webp))
      case _ => Err(Logged))
    case _ => Err(Logged)
  }

  function FileEntries(files: seq<Json>): (r: Result<seq<FileRow>, Stop>)
    ensures r.Ok? ==> |r.value| == |files| && forall i :: 0 <= i < |files| ==> FileEntry(files[i]) == Ok(r.value[i])
    decreases |files|
  {
    if |files| == 0 then Ok([])
    else
      var first :- FileEntry(files[0]);
      var rest :- FileEntries(files[1..]);
      Ok([first] + rest)
  }

  /** The files: a truthy video file name stands for the gallery's one
      file, with no hash and no other format; otherwise each entry of
      `data["files"]`, whose absence or wrong kind is logged. */
  function FilesField(data: Fields): (r: Result<seq<FileRow>, Stop>)
    ensures !Truthy(Lookup(data, "videofilename").GetOr(Null)) && !HasKey(data, "files") ==> r == Err(Logged)
    ensures Truthy(Lookup(data, "videofilename").GetOr(Null)) && r.Ok? ==> |r.value| == 1
  {
    var video := Lookup(data, "videofilename").GetOr(Null);
    if Truthy(video) then
      match video
      case Str(name) => (
        match SplitFilename(name)
        case None => Err(Raised)
        case Some((base, ext)) => Ok([FileRow(base, ext, Str(""), Bool(false), Bool(false))]))
      case _ => Err(Logged)
    else
      match Lookup(data, "files")
      case None => Err(Logged)
      case Some(Arr(items)) => FileEntries(items)
      case Some(Str(t)) => if t == "" then Ok([]) else Err(Logged)
      case Some(Obj(fields)) => if fields == [] then Ok([]) else Err(Logged)
      case Some(_) => Err(Logged)
  }

  /** A video gallery's one file is its video, whatever the file list says. */
  lemma VideoIsTheFile(data: Fields, base: string, ext: string)
    requires ext != "" && forall i :: 0 <= i < |ext| ==> IsAlnum(ext[i])
    requires Lookup(data, "videofilename") == Some(Str(base + "." + ext))
    ensures FilesField(data) == Ok([FileRow(base, ext, Str(""), Bool(false), Bool(false))])
  {
    FilenameRoundTrip(base, ext);
  }

  /** What the extractor hands on for one gallery. */
  datatype HitomiRecord = HitomiRecord(
    galleryId: int,
    title: Json,
    japaneseTitle: Json,
    artists: seq<Json>,
    groups: seq<Json>,
    typeName: Json,
    language: Json,
    series: seq<Json>,
    characters: seq<Json>,
    tags: seq<TagName>,
    uploadDate: string,
    files: seq<FileRow>,
    video: Json,
    videoFilename: Json)

  /** `_extract_gallery_metadata`, field by field in the source's order;
      the first field that fails decides how the extraction stops. */
  function Extract(data: Fields): (r: Result<HitomiRecord, Stop>)
    ensures r.Ok? ==> (GalleryId(data) == Ok(r.value.galleryId)
      && Lookup(data, "title") == Some(r.value.title)
      && Lookup(data, "japanese_title") == Some(r.value.japaneseTitle)
      && Lookup(data, "type") == Some(r.value.typeName)
      && Lookup(data, "language") == Some(r.value.language)
      && ListField(data, "artists", "artist") == Ok(r.value.artists)
      && ListField(data, "groups", "group") == Ok(r.value.groups)
      && TagsField(data) == Ok(r.value.tags) && FilesField(data) == Ok(r.value.files))
    ensures r.Ok? ==> r.value.videoFilename == Lookup(data, "videofilename").GetOr(Null)
    ensures r.Ok? ==> HasKey(data, "parodys") && HasKey(data, "artists") && HasKey(data, "characters")
  {
    var galleryId :- GalleryId(data);
    var title :- Required(data, "title");
    var japaneseTitle :- Required(data, "japanese_title");
    var artists :- ListField(data, "artists", "artist");
    var groups :- ListField(data, "groups", "group");
    var typeName :- Required(data, "type");
    var language :- Required(data, "language");
    var series :- ListField(data, "parodys", "parody");
    var characters :- ListField(data, "characters", "character");
    var tags :- TagsField(data);
    var uploadDate :- UploadDate(data);
    var files :- FilesField(data);
    Ok(HitomiRecord(galleryId, title, japaneseTitle, artists, groups, typeName, language, series,
      characters, tags, uploadDate, files, Lookup(data, "video").GetOr(Null),
      Lookup(data, "videofilename").GetOr(Null)))
  }

  /** `_extract_gallery_metadata` through `HitomiGalleryMetadata(...)`:
      after a successful extraction, `__post_init__` runs on the JSON's
      title, artists and groups and counts the files, and what it raises
      is not caught. A null title is a `TypeError`, a title with two "|"
      a `ValueError`, and an empty artist or group list an `IndexError`;
      an "anime" gallery has one page. */
  function ExtractGallery(data: Fields): (r: Result<(HitomiRecord, Derived), Halt>)
    ensures Extract(data).Err? ==> r == Err(Stopped(Extract(data).error))
    ensures Extract(data).Ok? ==> var rec := Extract(data).value;
      (r.Ok? <==> TitlesOf(rec.title).Ok? && |rec.artists| > 0 && |rec.groups| > 0)
      && (r.Err? ==> r.error.NotBuilt?)
      && (r.Ok? ==> (r.value.0 == rec && r.value.1.artistName == rec.artists[0] && r.value.1.groupName == rec.groups[0]
            && r.value.1.pages == (if rec.typeName == Str("anime") then 1 else |rec.files|)))
      && (r.Err? ==> r.error.error == (if TitlesOf(rec.title).Err? then TitlesOf(rec.title).error else IndexError))
  {
    match Extract(data)
    case Err(stop) => Err(Stopped(stop))
    case Ok(rec) =>
      match PostInitOf(rec.title, rec.artists, rec.groups, |rec.files|, rec.typeName == Str("anime"))
      case Err(e) => Err(NotBuilt(e))
      case Ok(derived) => Ok((rec, derived))
  }

  /** The three ways a gallery the extraction accepted still raises in
      `__post_init__`: a null title, a title with two "|", and, when the
      title splits, an empty artist or group list. */
  lemma ExtractGalleryRaises(data: Fields)
    ensures Extract(data).Ok? && Lookup(data, "title") == Some(Null) ==> ExtractGallery(data) == Err(NotBuilt(TypeError))
    ensures forall t :: Extract(data).Ok? && Lookup(data, "title") == Some(Str(t)) && CountChar(t, '|') >= 2 ==>
      ExtractGallery(data) == Err(NotBuilt(ValueError))
    ensures Extract(data).Ok? && TitlesOf(Extract(data).value.title).Ok?
      && (Lookup(data, "artists") == Some(Arr([])) || Lookup(data, "groups") == Some(Arr([])))
      ==> ExtractGallery(data) == Err(NotBuilt(IndexError))
  {
    if Extract(data).Ok? {
      var rec := Extract(data).value;
      if rec.title.Str? && '|' !in rec.title.s {
        CountCharAbsent(rec.title.s, '|');
      }
    }
  }

  /** Everything `Extract` reads before the parodies is in order. */
  predicate FineUpToParodies(data: Fields) {
    GalleryId(data).Ok? && HasKey(data, "title") && HasKey(data, "japanese_title")
    && ListField(data, "artists", "artist").Ok? && ListField(data, "groups", "group").Ok?
    && HasKey(data, "type") && HasKey(data, "language")
  }

  /** The parodies are the one list whose missing key escapes as an
      exception; a missing character list is logged like the others. */
  lemma MissingKeysStopDifferently(data: Fields)
    requires FineUpToParodies(data)
    ensures !HasKey(data, "parodys") ==> Extract(data) == Err(Raised)
    ensures HasKey(data, "parodys") && ListField(data, "parodys", "parody").Ok? && !HasKey(data, "characters")
      ==> Extract(data) == Err(Logged)
  {
  }
}
