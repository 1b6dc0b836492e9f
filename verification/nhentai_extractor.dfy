/** nhentai's extractor (`downloader/services/nhentai/extractor.py`) and
    the thumbnail rewrite of its controller (`nhentai/main.py`): the user's
    selections, the listing URL of a download item, the walk over a
    listing's pages, and the rules that pick a gallery's fields and files
    out of the API's metadata JSON. */
module NhentaiExtractor {
  import opened Wrappers
  import opened Text
  import opened Json
  import opened Extraction
  import Metadata
  import Nozomi

  const GalleryIds: string := "Gallery ID(s)"

  /** The listing category of each download type (`DOWNLOAD_TYPES`); a
      gallery-id download has none, and an unknown type is a `KeyError`. */
  function Category(downloadType: string): (r: Option<string>) {
    if downloadType == "Artist(s)" then Some("artist")
    else if downloadType == "Character(s)" then Some("character")
    else if downloadType == GalleryIds then Some("")
    else if downloadType == "Group(s)" then Some("group")
    else if downloadType == "Parody(s)" then Some("parody")
    else if downloadType == "Tag(s)" then Some("tag")
    else None
  }

  /** Only gallery-id downloads lack a category, and every category is a
      single lower-case path segment. */
  lemma CategoriesAreSegments(downloadType: string)
    requires Category(downloadType).Some?
    ensures Category(downloadType) == Some("") <==> downloadType == GalleryIds
    ensures IsLower(Category(downloadType).value) && '/' !in Category(downloadType).value
  {
  }

  /** The choices offered for the order (`ORDER_BY`). */
  const OrderChoices: seq<string> := ["Recent", "Today", "Week", "All time"]

  /** The path segment of the chosen order: the day's and week's popular
      listings, the all-time popular listing, and the recent listing
      (no segment) for anything else. */
  function Order(orderBy: string): (r: string)
    ensures r != "" <==> orderBy in {"Today", "Week", "All time"}
    ensures r != "" ==> StartsWith(r, "/popular")
    ensures orderBy == "Today" || orderBy == "Week" ==> r == "/popular-" + Lower(orderBy)
  {
    if orderBy == "Today" || orderBy == "Week" then "/popular-" + Lower(orderBy)
    else if orderBy == "All time" then "/popular"
    else ""
  }

  /** Different choices list galleries in different orders. */
  lemma OrderChoicesDistinct(a: string, b: string)
    requires a in OrderChoices && b in OrderChoices && a != b
    ensures Order(a) != Order(b)
  {
    assert Lower("Today") == "today" && Lower("Week") == "week";
    assert ("/popular-" + "today")[9] != ("/popular-" + "week")[9];
  }

  /** The selections `set_user_selections` keeps. */
  datatype Selection = Selection(downloadType: string, category: string, order: string)

  function Selections(downloadType: string, orderBy: string): (r: Option<Selection>)
    ensures r.Some? <==> Category(downloadType).Some?
    ensures r.Some? ==> r.value.category == Category(downloadType).value && r.value.order == Order(orderBy)
  {
    match Category(downloadType)
    case None => None
    case Some(category) => Some(Selection(downloadType, category, Order(orderBy)))
  }

  // The URL of a download item and of its pages.

  const CategoryRoot: string := "https://www.nhentai.net/"
  const PagePlaceholder: string := "?page={}"

  /** `get_download_item_url`: a gallery-id item is its own URL, with item
      context "gallery"; any other item is a listing URL whose page number
      is left as a `{}` placeholder, with the item as context. */
  function ItemUrl(sel: Selection, item: string): (r: (string, string)) {
    if sel.category == "" then (item, "gallery")
    else (CategoryRoot + sel.category + "/" + item + sel.order + PagePlaceholder, item)
  }

  /** `url.format(n)` for the URLs the extractor requests: a listing URL's
      trailing placeholder becomes the page number; a gallery page has no
      placeholder and is requested as it is. */
  function FormatPage(url: string, n: nat): (r: string)
    ensures EndsWith(url, "{}") ==> r == url[..|url| - 2] + NatToString(n)
    ensures !EndsWith(url, "{}") ==> r == url
  {
    if EndsWith(url, "{}") then url[..|url| - 2] + NatToString(n) else url
  }

  /** Page n of a listing item is requested at its category, item and
      order, followed by "?page=n". */
  lemma ListingPageUrl(sel: Selection, item: string, n: nat)
    requires sel.category != ""
    ensures ItemUrl(sel, item).1 == item
    ensures FormatPage(ItemUrl(sel, item).0, n)
      == CategoryRoot + sel.category + "/" + item + sel.order + "?page=" + NatToString(n)
  {
    var prefix := CategoryRoot + sel.category + "/" + item + sel.order;
    var url := prefix + PagePlaceholder;
    assert url == (prefix + "?page=") + "{}";
    assert EndsWith(url, "{}");
    assert url[..|url| - 2] == prefix + "?page=";
  }

  /** Distinct items of one selection get distinct URLs. */
  lemma ItemUrlsDistinct(sel: Selection, a: string, b: string)
    requires ItemUrl(sel, a).0 == ItemUrl(sel, b).0
    ensures a == b
  {
    if sel.category != "" {
      var head := CategoryRoot + sel.category + "/";
      var tail := sel.order + PagePlaceholder;
      var u := ItemUrl(sel, a).0;
      assert u == head + a + tail && u == head + b + tail;
      assert |a| == |b|;
      assert a == u[|head|..|head| + |a|];
      assert b == u[|head|..|head| + |b|];
    }
  }

  // The walk over a listing's pages.

  /** A gallery as a listing shows it: its CDN server and its id. */
  type CdnGallery = (int, int)

  /** What a requested page turns out to be: "No results, sorry." past the
      last page, a listing of galleries, or a page whose galleries cannot
      be read (the source logs it and waits). */
  datatype Reply = NoResults | Listing(galleries: seq<CdnGallery>) | Unreadable

  /** The extractor's walk: the URL template, the page number it last set,
      the galleries of that page not yet handed out, and whether the item
      was reported finished. */
  datatype Walker = Walker(url: string, page: nat, galleries: seq<CdnGallery>, finished: bool)

  /** `get_page`: the walk starts at page 1 and requests it. */
  function GetPage(url: string): (r: (Walker, string))
    ensures r.0.page == 1 && r.0.galleries == [] && !r.0.finished && r.1 == FormatPage(url, 1)
  {
    (Walker(url, 1, [], false), FormatPage(url, 1))
  }

  /** The answer to a page request: past the last page the item is
      finished; a listing's galleries become the ones to hand out; an
      unreadable page changes nothing. */
  function Receive(w: Walker, reply: Reply): (r: Walker)
    ensures r.url == w.url && r.page == w.page
    ensures r.finished <==> w.finished || reply.NoResults?
    ensures r.galleries == if reply.Listing? then reply.galleries else w.galleries
  {
    match reply
    case NoResults => w.(finished := true)
    case Listing(gs) => w.(galleries := gs)
    case Unreadable => w
  }

  /** What `next_gallery` returns: the next (server, id) pair, or the -1
      sentinel together with the request for another page. */
  datatype Next = Gallery(server: int, id: int) | Sentinel(request: string)

  /** `next_gallery`. As written (`advance` false), `_get_next_page`
      requests the page number `get_page` set, since nothing increments
      it; `advance` makes it request the following page. */
  function NextGallery(w: Walker, advance: bool): (r: (Walker, Next))
    ensures |w.galleries| > 0 ==> (r.1 == Gallery(w.galleries[0].0, w.galleries[0].1)
      && r.0 == w.(galleries := w.galleries[1..]))
    ensures |w.galleries| == 0 ==> (r.1 == Sentinel(FormatPage(w.url, r.0.page))
      && r.0 == w.(page := if advance then w.page + 1 else w.page))
  {
    if |w.galleries| > 0 then (w.(galleries := w.galleries[1..]), Gallery(w.galleries[0].0, w.galleries[0].1))
    else
      var p := if advance then w.page + 1 else w.page;
      (w.(page := p), Sentinel(FormatPage(w.url, p)))
  }

  /** A listing of `pages` galleries per page: page n (from 1) lists
      `pages[n - 1]`, and every later page shows "No results". */
  function SiteReply(pages: seq<seq<CdnGallery>>, n: nat): Reply {
    if 1 <= n <= |pages| then Listing(pages[n - 1]) else NoResults
  }

  /** The walk once the first page has been answered. */
  function Begin(url: string, pages: seq<seq<CdnGallery>>): Walker {
    Receive(GetPage(url).0, SiteReply(pages, 1))
  }

  /** One call of `next_gallery` against the listing, followed by the
      answer to the page it requests: the galleries handed out (none or
      one) and the walk after it. */
  function Step(w: Walker, pages: seq<seq<CdnGallery>>, advance: bool): (Walker, seq<CdnGallery>) {
    if w.finished then (w, [])
    else
      match NextGallery(w, advance)
      case (w', Gallery(server, id)) => (w', [(server, id)])
      case (w', Sentinel(_)) => (Receive(w', SiteReply(pages, w'.page)), [])
  }

  /** `fuel` steps of the walk: every gallery handed out, in order, and the
      walk at the end. */
  function Run(w: Walker, pages: seq<seq<CdnGallery>>, advance: bool, fuel: nat): (seq<CdnGallery>, Walker)
    decreases fuel
  {
    if fuel == 0 then ([], w)
    else
      var (w', out) := Step(w, pages, advance);
      var (rest, last) := Run(w', pages, advance, fuel - 1);
      (out + rest, last)
  }

  /** Every gallery of every page, in page order. */
  function Flatten(pages: seq<seq<CdnGallery>>): seq<CdnGallery> {
    if |pages| == 0 then [] else pages[0] + Flatten(pages[1..])
  }

  /** Steps a full walk takes: one per gallery and one per page request. */
  function Cost(pages: seq<seq<CdnGallery>>): nat {
    if |pages| == 0 then 0 else |pages[0]| + 1 + Cost(pages[1..])
  }

  /** The galleries already fetched are handed out first, one per step. */
  lemma {:induction false} Drain(w: Walker, pages: seq<seq<CdnGallery>>, advance: bool, fuel: nat)
    requires !w.finished
    ensures Run(w, pages, advance, |w.galleries| + fuel).0
      == w.galleries + Run(w.(galleries := []), pages, advance, fuel).0
    ensures Run(w, pages, advance, |w.galleries| + fuel).1 == Run(w.(galleries := []), pages, advance, fuel).1
    decreases |w.galleries|
  {
    if |w.galleries| == 0 {
      assert w.(galleries := []) == w;
    } else {
      var w1 := w.(galleries := w.galleries[1..]);
      var n := |w.galleries| + fuel;
      var next := Run(w1, pages, advance, n - 1);
      assert Run(w, pages, advance, n) == ([w.galleries[0]] + next.0, next.1) by {
        assert Step(w, pages, advance) == (w1, [w.galleries[0]]);
      }
      assert n - 1 == |w1.galleries| + fuel;
      Drain(w1, pages, advance, fuel);
      assert w1.(galleries := []) == w.(galleries := []);
      ConcatAssoc([w.galleries[0]], w1.galleries, Run(w.(galleries := []), pages, advance, fuel).0);
      assert [w.galleries[0]] + w1.galleries == w.galleries;
    }
  }

  /** From the end of page q, advancing walks the remaining pages and
      finishes on the first "No results" page. */
  lemma {:induction false} AdvanceFrom(w: Walker, pages: seq<seq<CdnGallery>>, q: nat)
    requires !w.finished && w.galleries == [] && w.page == q && 1 <= q <= |pages|
    ensures Run(w, pages, true, Cost(pages[q..]) + 1)
      == (Flatten(pages[q..]), w.(page := |pages| + 1, finished := true))
    decreases |pages| - q
  {
    if q == |pages| {
      var last := w.(page := q + 1, finished := true);
      assert pages[q..] == [];
      assert Cost(pages[q..]) == 0 && Flatten(pages[q..]) == [];
      assert SiteReply(pages, q + 1) == NoResults;
      assert Step(w, pages, true) == (last, []);
      assert Run(last, pages, true, 0) == ([], last);
      assert Run(w, pages, true, 1) == ([] + [], last);
      assert Cost(pages[q..]) + 1 == 1 && [] + [] == Flatten(pages[q..]);
    } else {
      var w1 := w.(page := q + 1, galleries := pages[q]);
      assert Step(w, pages, true) == (w1, []);
      assert pages[q..][0] == pages[q] && pages[q..][1..] == pages[q + 1..];
      assert Cost(pages[q..]) == |pages[q]| + (Cost(pages[q + 1..]) + 1);
      assert Flatten(pages[q..]) == pages[q] + Flatten(pages[q + 1..]);
      var inner := Run(w1, pages, true, Cost(pages[q..]));
      assert Run(w, pages, true, Cost(pages[q..]) + 1) == ([] + inner.0, inner.1);
      Drain(w1, pages, true, Cost(pages[q + 1..]) + 1);
      AdvanceFrom(w1.(galleries := []), pages, q + 1);
      var last := w.(page := |pages| + 1, finished := true);
      assert w1.(galleries := []).(page := |pages| + 1, finished := true) == last;
      assert |w1.galleries| + (Cost(pages[q + 1..]) + 1) == Cost(pages[q..]);
      assert inner.0 == pages[q] + Flatten(pages[q + 1..]);
      assert inner.1 == last;
      assert [] + inner.0 == Flatten(pages[q..]);
    }
  }

  /** The walk after the first page's answer: its galleries to hand out,
      or, for an item without pages, finished. */
  lemma BeginOnFirstPage(url: string, pages: seq<seq<CdnGallery>>)
    ensures |pages| == 0 ==> Begin(url, pages) == Walker(url, 1, [], true)
    ensures |pages| > 0 ==> Begin(url, pages) == Walker(url, 1, pages[0], false)
  {
  }

  /** A walk's fetched galleries come before whatever the emptied walk
      would hand out. */
  lemma DrainThen(w: Walker, pages: seq<seq<CdnGallery>>, fuel: nat, total: nat, out: seq<CdnGallery>, last: Walker)
    requires !w.finished && total == |w.galleries| + fuel
    requires Run(w.(galleries := []), pages, true, fuel) == (out, last)
    ensures Run(w, pages, true, total) == (w.galleries + out, last)
  {
    Drain(w, pages, true, fuel);
  }

  /** A non-empty list of pages costs its first page's galleries, one
      request, and the rest; its galleries are the first page's, then the
      rest's. */
  lemma FirstPageSplit(pages: seq<seq<CdnGallery>>)
    requires |pages| > 0
    ensures Cost(pages) == |pages[0]| + (Cost(pages[1..]) + 1)
    ensures Flatten(pages) == pages[0] + Flatten(pages[1..])
  {
  }

  /** The first page's galleries, then the walk of the rest. */
  lemma WalkAfterFirstPage(url: string, pages: seq<seq<CdnGallery>>, total: nat, flat: seq<CdnGallery>)
    requires |pages| > 0
    requires total == |pages[0]| + (Cost(pages[1..]) + 1) && flat == pages[0] + Flatten(pages[1..])
    ensures Run(Walker(url, 1, pages[0], false), pages, true, total) == (flat, Walker(url, |pages| + 1, [], true))
  {
    var w0 := Walker(url, 1, [], false);
    var last := Walker(url, |pages| + 1, [], true);
    AdvanceFrom(w0, pages, 1);
    assert w0.(page := |pages| + 1, finished := true) == last;
    DrainThen(Walker(url, 1, pages[0], false), pages, Cost(pages[1..]) + 1, total, Flatten(pages[1..]), last);
  }

  /** From the first page's galleries, advancing walks every page. */
  lemma WalkFromFirstPage(url: string, pages: seq<seq<CdnGallery>>)
    requires |pages| > 0
    ensures Run(Walker(url, 1, pages[0], false), pages, true, Cost(pages))
      == (Flatten(pages), Walker(url, |pages| + 1, [], true))
  {
    FirstPageSplit(pages);
    WalkAfterFirstPage(url, pages, Cost(pages), Flatten(pages));
  }

  /** Had the page number advanced, an item's walk would hand out every
      gallery of every page exactly once, in order, and then finish. */
  lemma IntendedWalksEveryPage(url: string, pages: seq<seq<CdnGallery>>)
    ensures Run(Begin(url, pages), pages, true, Cost(pages)) == (Flatten(pages), Walker(url, |pages| + 1, [], true))
  {
    BeginOnFirstPage(url, pages);
    if |pages| == 0 {
      assert Cost(pages) == 0 && Flatten(pages) == [];
    } else {
      WalkFromFirstPage(url, pages);
    }
  }

  /** As written, a walk that starts on a listed first page stays on page
      1 and is never reported finished. */
  lemma {:induction false} AsWrittenStaysOnFirstPage(w: Walker, pages: seq<seq<CdnGallery>>, fuel: nat)
    requires |pages| >= 1 && w.page == 1 && !w.finished
    ensures Run(w, pages, false, fuel).1.page == 1 && !Run(w, pages, false, fuel).1.finished
    decreases fuel
  {
    if fuel > 0 {
      AsWrittenStaysOnFirstPage(Step(w, pages, false).0, pages, fuel - 1);
    }
  }

  /** As written, the galleries of the first page are handed out again
      once they run out, and the item never finishes. */
  lemma AsWrittenRepeatsFirstPage(url: string, pages: seq<seq<CdnGallery>>, fuel: nat)
    requires |pages| >= 1
    ensures Run(Begin(url, pages), pages, false, 2 * |pages[0]| + 1).0 == pages[0] + pages[0]
    ensures !Run(Begin(url, pages), pages, false, fuel).1.finished
  {
    var w := Walker(url, 1, pages[0], false);
    assert Begin(url, pages) == w;
    FirstPageTwice(w, pages, 2 * |pages[0]| + 1);
    AsWrittenStaysOnFirstPage(w, pages, fuel);
  }

  /** As written, the first page's galleries, a request for page 1 again,
      and the same galleries once more. */
  lemma FirstPageTwice(w: Walker, pages: seq<seq<CdnGallery>>, total: nat)
    requires |pages| >= 1 && w == Walker(w.url, 1, pages[0], false) && total == 2 * |pages[0]| + 1
    ensures Run(w, pages, false, total).0 == pages[0] + pages[0]
  {
    var w0 := w.(galleries := []);
    Drain(w, pages, false, |pages[0]| + 1);
    RefetchFirstPage(w, pages, |pages[0]|);
    Drain(w, pages, false, 0);
    assert Run(w0, pages, false, 0).0 == [];
    assert pages[0] + [] == pages[0];
  }

  /** As written, an emptied first page requests page 1 and gets its
      galleries back. */
  lemma RefetchFirstPage(w: Walker, pages: seq<seq<CdnGallery>>, n: nat)
    requires |pages| >= 1 && w == Walker(w.url, 1, pages[0], false)
    ensures Run(w.(galleries := []), pages, false, n + 1).0 == Run(w, pages, false, n).0
  {
    assert Step(w.(galleries := []), pages, false) == (w, []);
    assert [] + Run(w, pages, false, n).0 == Run(w, pages, false, n).0;
  }

  // The fields of a gallery's metadata.

  /** `data.get("title").get("english")` and `.get("japanese")`: a title
      that is not an object has no `get` (a logged `AttributeError`, on the
      first of the two reads); a missing entry is null. */
  function Titles(data: Fields): (r: Result<(Json, Json), Stop>)
    ensures r.Err? <==> !Lookup(data, "title").GetOr(Null).Obj?
    ensures r.Err? ==> r.error == Logged
    ensures forall f :: Lookup(data, "title") == Some(Obj(f)) ==>
      r == Ok((Lookup(f, "english").GetOr(Null), Lookup(f, "japanese").GetOr(Null)))
  {
    var title := Lookup(data, "title").GetOr(Null);
    match (Member(title, "english"), Member(title, "japanese"))
    case (Some(english), Some(japanese)) => Ok((english, japanese))
    case _ => Err(Logged)
  }

  /** A tag a list comprehension keeps: one of the given type, and, when
      `skipTranslated`, not named "translated". */
  predicate Selected(tag: Fields, kind: string, skipTranslated: bool) {
    Lookup(tag, "type") == Some(Str(kind)) && (!skipTranslated || Lookup(tag, "name") != Some(Str("translated")))
  }

  /** `[tag["name"] for tag in tags if <selected>]` over a list: an entry
      that is not an object has no `get` and raises; a kept tag without a
      name is a logged `KeyError`; the first failing entry decides. */
  function Names(tags: seq<Json>, kind: string, skipTranslated: bool): (r: Result<seq<Json>, Stop>)
    ensures r.Ok? <==> forall i :: 0 <= i < |tags| ==>
      (tags[i].Obj? && (Selected(tags[i].fields, kind, skipTranslated) ==> HasKey(tags[i].fields, "name")))
    ensures r.Ok? ==> |r.value| <= |tags|
    ensures r.Ok? && skipTranslated ==> Str("translated") !in r.value
    decreases |tags|
  {
    if |tags| == 0 then Ok([])
    else
      var rest := Names(tags[1..], kind, skipTranslated);
      assert forall i :: 1 <= i < |tags| ==> tags[i] == tags[1..][i - 1];
      WithEntry(tags[0], rest, kind, skipTranslated)
  }

  /** One entry of the comprehension ahead of the names of the entries
      after it. */
  function WithEntry(tag: Json, rest: Result<seq<Json>, Stop>, kind: string, skipTranslated: bool): (r: Result<seq<Json>, Stop>)
    ensures r.Ok? <==> (tag.Obj? && (Selected(tag.fields, kind, skipTranslated) ==> HasKey(tag.fields, "name")) && rest.Ok?)
    ensures r.Ok? ==> |r.value| <= |rest.value| + 1
    ensures r.Ok? && skipTranslated && Str("translated") !in rest.value ==> Str("translated") !in r.value
  {
    match tag
    case Obj(fields) =>
      if !Selected(fields, kind, skipTranslated) then rest
      else (
        match Lookup(fields, "name")
        case None => Err(Logged)
        case Some(name) => (
          match rest
          case Ok(names) => Ok([name] + names)
          case Err(e) => Err(e)))
    case _ => Err(Raised)
  }

  /** Two list comprehensions run one after the other: the first failure
      wins, otherwise the names follow each other. */
  function Combine(x: Result<seq<Json>, Stop>, y: Result<seq<Json>, Stop>): Result<seq<Json>, Stop> {
    match x
    case Err(e) => Err(e)
    case Ok(a) => (match y case Err(e) => Err(e) case Ok(b) => Ok(a + b))
  }

  /** One tag on its own: its name if it is kept, nothing otherwise. */
  lemma NamesOfOne(tag: Fields, kind: string, skipTranslated: bool)
    ensures Names([Obj(tag)], kind, skipTranslated)
      == if !Selected(tag, kind, skipTranslated) then Ok([])
         else if HasKey(tag, "name") then Ok([Lookup(tag, "name").value])
         else Err(Logged)
  {
    assert [Obj(tag)][1..] == [];
    var none := Names([], kind, skipTranslated);
    assert none == Ok([]);
    var r := Names([Obj(tag)], kind, skipTranslated);
    if !Selected(tag, kind, skipTranslated) {
      assert r == none;
    } else {
      match Lookup(tag, "name")
      case None =>
        assert !HasKey(tag, "name");
        assert r == Err(Logged);
      case Some(name) =>
        assert HasKey(tag, "name");
        assert [name] + [] == [name];
    }
  }

  /** The names of a list are those of its front followed by those of its
      back, and the front's failure comes first. */
  lemma {:induction false} NamesConcat(a: seq<Json>, b: seq<Json>, kind: string, skipTranslated: bool)
    ensures Names(a + b, kind, skipTranslated) == Combine(Names(a, kind, skipTranslated), Names(b, kind, skipTranslated))
    decreases |a|
  {
    var y := Names(b, kind, skipTranslated);
    if |a| == 0 {
      assert a + b == b;
      assert Names(a, kind, skipTranslated) == Ok([]);
      if y.Ok? { assert [] + y.value == y.value; }
    } else {
      var c := a + b;
      assert c[0] == a[0] && c[1..] == a[1..] + b;
      NamesConcat(a[1..], b, kind, skipTranslated);
      var x := Names(a[1..], kind, skipTranslated);
      assert Names(c, kind, skipTranslated) == WithEntry(a[0], Combine(x, y), kind, skipTranslated);
      assert Names(a, kind, skipTranslated) == WithEntry(a[0], x, kind, skipTranslated);
      WithEntryCombine(a[0], x, y, kind, skipTranslated);
    }
  }

  /** An entry put ahead of two comprehensions run in turn is put ahead of
      the first. */
  lemma WithEntryCombine(tag: Json, x: Result<seq<Json>, Stop>, y: Result<seq<Json>, Stop>, kind: string, skipTranslated: bool)
    ensures WithEntry(tag, Combine(x, y), kind, skipTranslated) == Combine(WithEntry(tag, x, kind, skipTranslated), y)
  {
    if x.Ok? && y.Ok? {
      forall name: Json ensures [name] + (x.value + y.value) == ([name] + x.value) + y.value {
        assert [name] + (x.value + y.value) == ([name] + x.value) + y.value;
      }
    }
  }

  /** `json_data.get("tags")` filtered by type: a missing, null, boolean or
      numeric value is a logged `TypeError`; empty text or an empty object
      give no names; any other text or object reaches `get` on a
      non-object and raises. */
  function TagNames(data: Fields, kind: string, skipTranslated: bool): (r: Result<seq<Json>, Stop>)
    ensures forall items :: Lookup(data, "tags") == Some(Arr(items)) ==> r == Names(items, kind, skipTranslated)
    ensures !HasKey(data, "tags") ==> r == Err(Logged)
    ensures r.Ok? && skipTranslated ==> Str("translated") !in r.value
  {
    match Lookup(data, "tags").GetOr(Null)
    case Arr(items) => Names(items, kind, skipTranslated)
    case Str(s) => if s == "" then Ok([]) else Err(Raised)
    case Obj(f) => if f == [] then Ok([]) else Err(Raised)
    case _ => Err(Logged)
  }

  /** `[...][0]`: an empty list is a logged `IndexError`. */
  function First(names: Result<seq<Json>, Stop>): (r: Result<Json, Stop>)
    ensures names.Ok? && |names.value| > 0 ==> r == Ok(names.value[0])
    ensures names.Ok? && |names.value| == 0 ==> r == Err(Logged)
    ensures names.Err? ==> r == Err(names.error)
  {
    var values :- names;
    if |values| == 0 then Err(Logged) else Ok(values[0])
  }

  /** The gallery's type: its first "category" tag. */
  function TypeName(data: Fields): Result<Json, Stop> {
    First(TagNames(data, "category", false))
  }

  /** The gallery's language: its first "language" tag other than
      "translated". */
  function Language(data: Fields): (r: Result<Json, Stop>)
    ensures r.Ok? ==> r.value != Str("translated")
  {
    First(TagNames(data, "language", true))
  }

  /** A translated gallery's language is the language tag after the
      "translated" marker. */
  lemma TranslatedLanguage(data: Fields, marker: Fields, tag: Fields, name: string)
    requires Lookup(data, "tags") == Some(Arr([Obj(marker), Obj(tag)]))
    requires Lookup(marker, "type") == Some(Str("language")) && Lookup(marker, "name") == Some(Str("translated"))
    requires Lookup(tag, "type") == Some(Str("language")) && Lookup(tag, "name") == Some(Str(name))
    requires name != "translated"
    ensures Language(data) == Ok(Str(name))
  {
    NamesConcat([Obj(marker)], [Obj(tag)], "language", true);
    NamesOfOne(marker, "language", true);
    NamesOfOne(tag, "language", true);
    assert [Obj(marker)] + [Obj(tag)] == [Obj(marker), Obj(tag)];
    assert [] + [Str(name)] == [Str(name)];
    assert Names([Obj(marker), Obj(tag)], "language", true) == Ok([Str(name)]);
    assert TagNames(data, "language", true) == Ok([Str(name)]);
  }

  /** `datetime.fromtimestamp(json_data.get("upload_date"))` needs a
      number (a boolean is one); anything else is a logged `TypeError`.
      The timestamp is kept as whole seconds: the date printed with
      "%Y-%m-%d" depends only on the whole second a float falls in. */
  function UploadTimestamp(data: Fields): (r: Result<int, Stop>)
    ensures r.Err? ==> r.error == Logged
    ensures forall n :: Lookup(data, "upload_date") == Some(Num(n)) ==> r == Ok(n)
    ensures forall x :: Lookup(data, "upload_date") == Some(Float(x)) ==> r.Ok? && r.value as real <= x < r.value as real + 1.0
    ensures !HasKey(data, "upload_date") ==> r.Err?
  {
    match Lookup(data, "upload_date").GetOr(Null)
    case Num(n) => Ok(n)
    case Float(x) => Ok(x.Floor)
    case Bool(b) => Ok(if b then 1 else 0)
    case _ => Err(Logged)
  }

  // The files of a gallery.

  /** `EXTENSIONS[t]`: "j" is a JPEG and "p" a PNG; any other type is a
      `KeyError` (or, for a list or object, a `TypeError`). */
  function Extension(t: Json): (r: Option<string>)
    ensures r.Some? <==> t == Str("j") || t == Str("p")
    ensures r.Some? ==> r.value in {"jpg", "png"}
  {
    if t == Str("j") then Some("jpg") else if t == Str("p") then Some("png") else None
  }

  /** A page entry whose image type is known. */
  predicate KnownPage(page: Json) {
    page.Obj? && Extension(Lookup(page.fields, "t").GetOr(Null)).Some?
  }

  function PageExt(page: Json): string
    requires KnownPage(page)
  {
    Extension(Lookup(page.fields, "t").GetOr(Null)).value
  }

  const ImageHost: string := ".nhentai.net/galleries/"

  /** `IMAGE_URL_FORMAT`: the image of a page on a CDN server. */
  function ImageUrl(server: int, mediaId: int, page: nat, ext: string): string {
    "https://i" + IntToString(server) + ImageHost + IntToString(mediaId) + "/" + NatToString(page) + "." + ext
  }

  /** The (URL, file name, extension) of every page entry, numbered from 1;
      an entry that is not an object with a known image type stops it with
      a logged error. */
  function PageFiles(pages: seq<Json>, server: int, mediaId: int): (r: Result<seq<(string, string, string)>, Stop>)
    ensures r.Err? ==> r.error == Logged
    ensures r.Ok? <==> forall j :: 0 <= j < |pages| ==> KnownPage(pages[j])
  {
    if forall j :: 0 <= j < |pages| ==> KnownPage(pages[j]) then
      Ok(seq(|pages|, j requires 0 <= j < |pages| =>
        (ImageUrl(server, mediaId, j + 1, PageExt(pages[j])), NatToString(j + 1), PageExt(pages[j]))))
    else Err(Logged)
  }

  /** `json_data.get("images").get("pages")`, enumerated from 1 into the
      file table: every failure here is logged. Empty text or an empty
      object have no pages; other text and objects reach `get` on a
      non-object. */
  function FilesField(data: Fields, server: int, mediaId: int): (r: Result<Metadata.FileTable, Stop>)
    ensures r.Err? ==> r.error == Logged
    ensures r.Ok? ==> Metadata.Aligned(r.value)
  {
    match Member(Lookup(data, "images").GetOr(Null), "pages")
    case None => Err(Logged)
    case Some(Arr(pages)) =>
      var rows :- PageFiles(pages, server, mediaId);
      Ok(Metadata.InsertAll(Metadata.EmptyTable, rows))
    case Some(Str(s)) => if s == "" then Ok(Metadata.EmptyTable) else Err(Logged)
    case Some(Obj(f)) => if f == [] then Ok(Metadata.EmptyTable) else Err(Logged)
    case Some(_) => Err(Logged)
  }

  /** Page j (from 0) becomes the row of file j + 1. */
  lemma PageFilesRows(pages: seq<Json>, server: int, mediaId: int, rows: seq<(string, string, string)>)
    requires PageFiles(pages, server, mediaId) == Ok(rows)
    ensures |rows| == |pages|
    ensures forall j :: 0 <= j < |pages| ==> (KnownPage(pages[j])
      && rows[j] == (ImageUrl(server, mediaId, j + 1, PageExt(pages[j])), NatToString(j + 1), PageExt(pages[j])))
  {
  }

  /** The file table built from the page rows holds them in order, each
      with an empty formatted name. */
  lemma PageTable(pages: seq<Json>, server: int, mediaId: int, rows: seq<(string, string, string)>)
    requires PageFiles(pages, server, mediaId) == Ok(rows)
    ensures Metadata.Size(Metadata.InsertAll(Metadata.EmptyTable, rows)) == |pages|
    ensures forall j :: 0 <= j < |pages| ==>
      Metadata.Rows(Metadata.InsertAll(Metadata.EmptyTable, rows))[j]
        == (ImageUrl(server, mediaId, j + 1, PageExt(pages[j])), NatToString(j + 1), PageExt(pages[j]), "")
  {
    PageFilesRows(pages, server, mediaId, rows);
    TableRows(rows);
  }

  /** The table built from `rows` lists them, each with an empty
      formatted name. */
  lemma TableOfRows(rows: seq<(string, string, string)>)
    ensures Metadata.Rows(Metadata.InsertAll(Metadata.EmptyTable, rows))
      == seq(|rows|, i requires 0 <= i < |rows| => (rows[i].0, rows[i].1, rows[i].2, ""))
  {
    Metadata.InsertAllRows(Metadata.EmptyTable, rows);
    assert Metadata.Rows(Metadata.EmptyTable) == [];
  }

  /** Row j of the table built from `rows` is `rows[j]` with an empty
      formatted name. */
  lemma TableRows(rows: seq<(string, string, string)>)
    ensures Metadata.Size(Metadata.InsertAll(Metadata.EmptyTable, rows)) == |rows|
    ensures forall j :: 0 <= j < |rows| ==>
      Metadata.Rows(Metadata.InsertAll(Metadata.EmptyTable, rows))[j] == (rows[j].0, rows[j].1, rows[j].2, "")
  {
    var want := seq(|rows|, i requires 0 <= i < |rows| => (rows[i].0, rows[i].1, rows[i].2, ""));
    TableOfRows(rows);
    forall j | 0 <= j < |rows|
      ensures Metadata.Rows(Metadata.InsertAll(Metadata.EmptyTable, rows))[j] == (rows[j].0, rows[j].1, rows[j].2, "")
    {
      assert want[j] == (rows[j].0, rows[j].1, rows[j].2, "");
    }
  }

  /** A gallery with a page list has one file per page, in order: page i
      (from 1) is named i and fetched from the gallery's CDN server with
      the page's image type; one page of unknown type fails them all. */
  lemma FilesArePages(data: Fields, images: Fields, pages: seq<Json>, server: int, mediaId: int)
    requires Lookup(data, "images") == Some(Obj(images)) && Lookup(images, "pages") == Some(Arr(pages))
    ensures FilesField(data, server, mediaId).Ok? <==> forall j :: 0 <= j < |pages| ==> KnownPage(pages[j])
    ensures FilesField(data, server, mediaId).Ok? ==> (
      var t := FilesField(data, server, mediaId).value;
      Metadata.Size(t) == |pages|
      && forall j :: 0 <= j < |pages| ==>
        Metadata.Rows(t)[j] == (ImageUrl(server, mediaId, j + 1, PageExt(pages[j])), NatToString(j + 1), PageExt(pages[j]), ""))
  {
    FilesFromPageList(data, images, pages, server, mediaId);
    match PageFiles(pages, server, mediaId)
    case Err(_) =>
    case Ok(rows) =>
      PageTable(pages, server, mediaId, rows);
  }

  /** With a page list, the files are the table of its rows. */
  lemma FilesFromPageList(data: Fields, images: Fields, pages: seq<Json>, server: int, mediaId: int)
    requires Lookup(data, "images") == Some(Obj(images)) && Lookup(images, "pages") == Some(Arr(pages))
    ensures FilesField(data, server, mediaId).Ok? <==> PageFiles(pages, server, mediaId).Ok?
    ensures PageFiles(pages, server, mediaId).Ok? ==>
      FilesField(data, server, mediaId).value == Metadata.InsertAll(Metadata.EmptyTable, PageFiles(pages, server, mediaId).value)
  {
    assert Member(Lookup(data, "images").GetOr(Null), "pages") == Some(Arr(pages));
  }

  /** A list field read without failure and shown as its names, or as
      ["---"] when it has none. */
  predicate ShownAs(names: Result<seq<Json>, Stop>, shown: seq<Json>) {
    names.Ok? && shown == OrNoValue(names.value)
  }

  /** nhentai's gallery record as the extractor builds it. */
  datatype NhentaiRecord = NhentaiRecord(
    galleryId: int,
    mediaId: int,
    title: Json,
    japaneseTitle: Json,
    artists: seq<Json>,
    groups: seq<Json>,
    typeName: Json,
    language: Json,
    series: seq<Json>,
    characters: seq<Json>,
    tags: seq<Json>,
    uploadTimestamp: int,
    files: Metadata.FileTable)

  /** `_extract_gallery_metadata` for the gallery `current` (its CDN server
      and id, as the listing showed them): the fields in the source's
      order, each failure stopping the extraction. The record's gallery id
      is the listing's, whatever the JSON's id says; empty lists become
      ["---"]. */
  function Extract(data: Fields, current: CdnGallery): (r: Result<NhentaiRecord, Stop>)
    ensures r.Ok? ==> r.value.galleryId == current.1 && PyInt(Lookup(data, "id").GetOr(Null)).Ok?
    ensures r.Ok? ==> PyInt(Lookup(data, "media_id").GetOr(Null)) == Ok(r.value.mediaId)
    ensures r.Ok? ==> Titles(data) == Ok((r.value.title, r.value.japaneseTitle))
    ensures r.Ok? ==> (ShownAs(TagNames(data, "artist", false), r.value.artists)
      && ShownAs(TagNames(data, "group", false), r.value.groups)
      && ShownAs(TagNames(data, "parody", false), r.value.series)
      && ShownAs(TagNames(data, "character", false), r.value.characters)
      && ShownAs(TagNames(data, "tag", false), r.value.tags))
    ensures r.Ok? ==> TypeName(data) == Ok(r.value.typeName) && Language(data) == Ok(r.value.language)
    ensures r.Ok? ==> FilesField(data, current.0, r.value.mediaId) == Ok(r.value.files)
    ensures TagNames(data, "category", false) == Ok([]) ==> r.Err?
    ensures TagNames(data, "language", true) == Ok([]) ==> r.Err?
  {
    var _ :- PyInt(Lookup(data, "id").GetOr(Null));
    var mediaId :- PyInt(Lookup(data, "media_id").GetOr(Null));
    var titles :- Titles(data);
    var artists :- TagNames(data, "artist", false);
    var groups :- TagNames(data, "group", false);
    var typeName :- TypeName(data);
    var language :- Language(data);
    var series :- TagNames(data, "parody", false);
    var characters :- TagNames(data, "character", false);
    var tags :- TagNames(data, "tag", false);
    var uploadTimestamp :- UploadTimestamp(data);
    var files :- FilesField(data, current.0, mediaId);
    Ok(NhentaiRecord(current.1, mediaId, titles.0, titles.1, OrNoValue(artists), OrNoValue(groups),
      typeName, language, OrNoValue(series), OrNoValue(characters), OrNoValue(tags), uploadTimestamp, files))
  }

  /** `_extract_gallery_metadata` through `nhentaiGalleryMetadata(...)`:
      after a successful extraction, `__post_init__` runs on the record's
      title and lists and counts the file table's rows, and what it raises
      is not caught. The lists were filled with "---", so only the title
      can raise: a missing English title is null, a `TypeError`. */
  function ExtractGallery(data: Fields, current: CdnGallery): (r: Result<(NhentaiRecord, Derived), Halt>)
    ensures Extract(data, current).Err? ==> r == Err(Stopped(Extract(data, current).error))
    ensures Extract(data, current).Ok? ==> var rec := Extract(data, current).value;
      (r.Ok? <==> TitlesOf(rec.title).Ok?)
      && (r.Err? ==> r == Err(NotBuilt(TitlesOf(rec.title).error)))
      && (r.Ok? ==> (r.value.0 == rec && r.value.1.artistName == rec.artists[0] && r.value.1.groupName == rec.groups[0]
            && r.value.1.pages == Metadata.Size(rec.files)))
  {
    match Extract(data, current)
    case Err(stop) => Err(Stopped(stop))
    case Ok(rec) =>
      match PostInitOf(rec.title, rec.artists, rec.groups, Metadata.Size(rec.files), false)
      case Err(e) => Err(NotBuilt(e))
      case Ok(derived) => Ok((rec, derived))
  }

  /** A gallery the extraction accepted whose title object lacks "english"
      raises a `TypeError` in `__post_init__`, and no gallery ever raises
      an `IndexError` there. */
  lemma ExtractGalleryRaises(data: Fields, current: CdnGallery)
    ensures forall f :: Extract(data, current).Ok? && Lookup(data, "title") == Some(Obj(f)) && !HasKey(f, "english") ==>
      ExtractGallery(data, current) == Err(NotBuilt(TypeError))
    ensures ExtractGallery(data, current) != Err(NotBuilt(IndexError))
  {
    if Extract(data, current).Ok? {
      var rec := Extract(data, current).value;
      forall f | Lookup(data, "title") == Some(Obj(f)) && !HasKey(f, "english")
        ensures ExtractGallery(data, current) == Err(NotBuilt(TypeError))
      {
        assert Lookup(f, "english") == None;
        assert rec.title == Null;
      }
    }
  }

  // The thumbnail rewrite of `_get_file_url`.

  /** The parts of a thumbnail URL
      "https://t<server>.nhentai.net/galleries/<media>/<page>t.<ext>". */
  datatype ThumbParts = ThumbParts(server: string, media: string, page: string, ext: string)

  predicate IsLowerLetters(s: string) {
    |s| > 0 && forall i :: 0 <= i < |s| ==> 'a' <= s[i] <= 'z'
  }

  predicate ThumbWf(p: ThumbParts) {
    AllDigits(p.server) && |p.media| > 0 && '\n' !in p.media
    && |p.page| > 0 && AllDigits(p.page) && IsLowerLetters(p.ext)
  }

  /** The path after the host, shared by a thumbnail and its image. */
  function ImagePath(p: ThumbParts): string {
    p.media + "/" + p.page
  }

  function Thumbnail(p: ThumbParts): string {
    "https://t" + (p.server + (ImageHost + (ImagePath(p) + ("t." + p.ext))))
  }

  function FullImage(p: ThumbParts): string {
    "https://i" + (p.server + (ImageHost + (ImagePath(p) + ("." + p.ext))))
  }

  /** What follows `prefix` in `s`, if `s` starts with it. */
  function After(s: string, prefix: string): (r: Option<string>)
    ensures r.Some? <==> StartsWith(s, prefix)
    ensures r.Some? ==> s == prefix + r.value
  {
    if StartsWith(s, prefix) then Some(s[|prefix|..]) else None
  }

  lemma AfterPrefix(prefix: string, rest: string)
    ensures After(prefix + rest, prefix) == Some(rest)
  {
    assert (prefix + rest)[..|prefix|] == prefix;
  }

  /** `s` cut after its leading run of digits. */
  function SplitDigits(s: string): (r: (string, string))
    ensures r.0 + r.1 == s && AllDigits(r.0)
    ensures |r.1| > 0 ==> !IsDigit(r.1[0])
    decreases |s|
  {
    if |s| == 0 || !IsDigit(s[0]) then ("", s)
    else
      var (d, x) := SplitDigits(s[1..]);
      assert [s[0]] + d + x == s;
      ([s[0]] + d, x)
  }

  lemma {:induction false} SplitDigitsOf(d: string, x: string)
    requires AllDigits(d) && (|x| == 0 || !IsDigit(x[0]))
    ensures SplitDigits(d + x) == (d, x)
    decreases |d|
  {
    if |d| > 0 {
      assert (d + x)[0] == d[0] && (d + x)[1..] == d[1..] + x;
      SplitDigitsOf(d[1..], x);
      assert [d[0]] + d[1..] == d;
    } else {
      assert d + x == x;
    }
  }

  /** The parts of a URL that is wholly a thumbnail URL. */
  function ParseThumbnail(url: string): (r: Option<ThumbParts>)
    ensures r.Some? ==> ThumbWf(r.value) && Thumbnail(r.value) == url
  {
    var rest :- After(url, "https://t");
    var (server, host) := SplitDigits(rest);
    var path :- After(host, ImageHost);
    var (media, tail) :- Nozomi.SplitLast(path, '/');
    var (page, suffix) := SplitDigits(tail);
    var ext :- After(suffix, "t.");
    if |page| == 0 || |media| == 0 || '\n' in media || !IsLowerLetters(ext) then None
    else
      var p := ThumbParts(server, media, page, ext);
      ThumbnailOf(url, rest, host, path, tail, suffix, p);
      Some(p)
  }

  lemma ThumbnailOf(url: string, rest: string, host: string, path: string, tail: string, suffix: string, p: ThumbParts)
    requires url == "https://t" + rest && rest == p.server + host && host == ImageHost + path
    requires path == p.media + ['/'] + tail && tail == p.page + suffix && suffix == "t." + p.ext
    ensures Thumbnail(p) == url
  {
    assert path + ("t." + p.ext) == path + suffix;
    assert ImagePath(p) + ("t." + p.ext) == path;
  }

  /** Every well-formed thumbnail URL is read back into its parts. */
  lemma ThumbnailRoundTrip(p: ThumbParts)
    requires ThumbWf(p)
    ensures ParseThumbnail(Thumbnail(p)) == Some(p)
  {
    var suffix := "t." + p.ext;
    var tail := p.page + suffix;
    var path := p.media + ['/'] + tail;
    var host := ImageHost + path;
    var rest := p.server + host;
    assert Thumbnail(p) == "https://t" + rest by {
      assert ImagePath(p) + suffix == path;
    }
    AfterPrefix("https://t", rest);
    assert host[0] == '.';
    SplitDigitsOf(p.server, host);
    AfterPrefix(ImageHost, path);
    assert '/' !in tail by {
      forall i | 0 <= i < |tail| ensures tail[i] != '/' {
        if i < |p.page| { assert tail[i] == p.page[i]; }
        else if i >= |p.page| + 2 { assert tail[i] == p.ext[i - |p.page| - 2]; }
      }
    }
    Nozomi.SplitLastAt(p.media, tail, '/');
    SplitDigitsOf(p.page, suffix);
    AfterPrefix("t.", p.ext);
  }

  /** `_get_file_url`: a thumbnail URL becomes the URL of the full image;
      any other URL is unchanged, which fails the source's assertion
      (`None`). */
  function FileUrlFromThumbnail(thumbnailUrl: string): (r: Option<string>)
    ensures r.Some? ==> r.value != thumbnailUrl
    ensures r.Some? ==> StartsWith(r.value, "https://i") && |r.value| + 1 == |thumbnailUrl|
  {
    var p :- ParseThumbnail(thumbnailUrl);
    assert Thumbnail(p)[8] == 't' && FullImage(p)[8] == 'i';
    Some(FullImage(p))
  }

  /** The rewrite of a thumbnail gives the image URL the extractor builds
      for the same server, media id, page and type. */
  lemma ThumbnailGivesImageUrl(server: nat, mediaId: nat, page: nat, ext: string)
    requires page >= 1 && IsLowerLetters(ext)
    ensures FileUrlFromThumbnail(Thumbnail(ThumbParts(NatToString(server), NatToString(mediaId), NatToString(page), ext)))
      == Some(ImageUrl(server, mediaId, page, ext))
  {
    var p := ThumbParts(NatToString(server), NatToString(mediaId), NatToString(page), ext);
    assert '\n' !in p.media by {
      forall i | 0 <= i < |p.media| ensures p.media[i] != '\n' { assert IsDigit(p.media[i]); }
    }
    ThumbnailRoundTrip(p);
    assert FileUrlFromThumbnail(Thumbnail(p)) == Some(FullImage(p));
    ImageUrlParts(server, mediaId, page, ext);
  }

  lemma ImageUrlParts(server: nat, mediaId: nat, page: nat, ext: string)
    ensures FullImage(ThumbParts(NatToString(server), NatToString(mediaId), NatToString(page), ext))
      == ImageUrl(server, mediaId, page, ext)
  {
    var s, m, pg := NatToString(server), NatToString(mediaId), NatToString(page);
    assert IntToString(server) == s && IntToString(mediaId) == m;
    assert ImagePath(ThumbParts(s, m, pg, ext)) == m + "/" + pg;
    Regroup("https://i", s, ImageHost, m, pg, ext);
  }

  /** The nested form of an image URL equals its left-to-right form. */
  lemma Regroup(a: string, s: string, h: string, m: string, pg: string, e: string)
    ensures a + (s + (h + ((m + "/" + pg) + ("." + e)))) == a + s + h + m + "/" + pg + "." + e
  {
    var mp := m + "/" + pg;
    assert mp + ("." + e) == mp + "." + e;
    assert h + (mp + "." + e) == h + m + "/" + pg + "." + e;
    assert s + (h + m + "/" + pg + "." + e) == s + h + m + "/" + pg + "." + e;
  }
}
