/** What the services' extractors share when they read a gallery's
    metadata JSON: how an extraction stops short, the placeholder of an
    empty list, Python's `int()` of a JSON value, and the gallery record's
    `__post_init__` applied to the values the JSON gave. */
module Extraction {
  import opened Wrappers
  import opened Text
  import opened Json
  import Metadata

  /** How an extraction stops short: the source logs an assumption error
      and emits nothing, or an exception it does not catch escapes. */
  datatype Stop = Logged | Raised

  /** The placeholder an empty list field is shown with. */
  const NoValue: Json := Str("---")

  /** `int(x)` of a float: truncation toward zero. */
  function Truncate(x: real): int {
    if x >= 0.0 then x.Floor else -((-x).Floor)
  }

  /** `int(v)` in a handler that catches only `TypeError`: an integer is
      itself, a float is truncated toward zero, a boolean is 0 or 1, text
      must be an integer literal (a `ValueError` escapes otherwise), and
      null, lists and objects are the logged `TypeError`. */
  function PyInt(v: Json): (r: Result<int, Stop>)
    ensures v.Num? ==> r == Ok(v.n)
    ensures v.Float? ==> (r.Ok? && (r.value as real) * v.x >= 0.0
      && (if v.x >= 0.0 then r.value as real <= v.x < r.value as real + 1.0
          else r.value as real - 1.0 < v.x <= r.value as real))
    ensures v.Str? ==> (r.Ok? <==> ParseInt(v.s).Some?) && (r.Ok? ==> ParseInt(v.s) == Some(r.value))
    ensures v.Str? && r.Err? ==> r.error == Raised
    ensures v.Null? || v.Arr? || v.Obj? ==> r == Err(Logged)
  {
    match v
    case Num(n) => Ok(n)
    case Float(x) => Ok(Truncate(x))
    case Bool(b) => Ok(if b then 1 else 0)
    case Str(s) => (match ParseInt(s) case Some(n) => Ok(n) case None => Err(Raised))
    case _ => Err(Logged)
  }

  /** The text of a number reads back as that number. */
  lemma PyIntOfText(n: int)
    ensures PyInt(Str(IntToString(n))) == Ok(n)
  {
    IntToStringParses(n);
  }

  /** A float with no fraction reads as the integer it equals, so `int()`
      gives the same for `3` and `3.0`. */
  lemma PyIntOfWholeFloat(n: int)
    ensures PyInt(Float(n as real)) == PyInt(Num(n))
  {
  }

  /** `values or ["---"]` */
  function OrNoValue(values: seq<Json>): (r: seq<Json>)
    ensures |r| >= 1
    ensures |values| > 0 ==> r == values
    ensures |values| == 0 ==> r == [NoValue]
  {
    if |values| > 0 then values else [NoValue]
  }

  // The gallery record's `__post_init__`, on the values the JSON gave.

  /** The exceptions building a gallery record can raise once the JSON's
      values reach it. */
  datatype PyError = TypeError | AttributeError | ValueError | IndexError

  /** Why no gallery record comes out of an extraction: the extraction
      stopped, or building the record raised. */
  datatype Halt = Stopped(stop: Stop) | NotBuilt(error: PyError)

  /** What `__post_init__` derives: the two titles, the first artist and
      group, and the page count. */
  datatype Derived = Derived(originalTitle: string, translatedTitle: string, artistName: Json, groupName: Json, pages: int)

  /** `title.split("|") if "|" in title else (...)` for whatever JSON value
      the title is: text is split as `Metadata.SplitTitle` does; `in` on
      null, a boolean or a number is a `TypeError`; a list or object is
      searched for the element or key "|", and when found it has no
      `split`, an `AttributeError`. */
  function TitlesOf(title: Json): (r: Result<(string, string), PyError>)
    ensures title.Str? ==> ((r.Ok? <==> Metadata.SplitTitle(title.s).Ok?)
      && (r.Ok? ==> Metadata.SplitTitle(title.s) == Ok(r.value))
      && (r.Err? ==> r.error == ValueError))
    ensures title.Null? || title.Bool? || title.Num? || title.Float? ==> r == Err(TypeError)
    ensures title.Arr? ==> (r.Err? <==> Str("|") in title.items)
    ensures title.Obj? ==> (r.Err? <==> HasKey(title.fields, "|"))
    ensures (title.Arr? || title.Obj?) ==>
      ((r.Err? ==> r.error == AttributeError) && (r.Ok? ==> r.value == (Metadata.NoOriginalTitle, Metadata.NoTranslatedTitle)))
  {
    var none := Ok((Metadata.NoOriginalTitle, Metadata.NoTranslatedTitle));
    match title
    case Str(s) => (match Metadata.SplitTitle(s) case Ok(t) => Ok(t) case Err(_) => Err(ValueError))
    case Arr(items) => if Str("|") in items then Err(AttributeError) else none
    case Obj(fields) => if HasKey(fields, "|") then Err(AttributeError) else none
    case _ => Err(TypeError)
  }

  /** `__post_init__`: the titles first, then `artists[0]` and `groups[0]`
      (an `IndexError` on an empty list), then the page count, which is the
      number of files except that a Hitomi "anime" gallery has one page. */
  function PostInitOf(title: Json, artists: seq<Json>, groups: seq<Json>, fileCount: nat, anime: bool): (r: Result<Derived, PyError>)
    ensures r.Ok? <==> TitlesOf(title).Ok? && |artists| > 0 && |groups| > 0
    ensures r.Err? ==> r.error == (if TitlesOf(title).Err? then TitlesOf(title).error else IndexError)
    ensures r.Ok? ==> ((r.value.originalTitle, r.value.translatedTitle) == TitlesOf(title).value
      && r.value.artistName == artists[0] && r.value.groupName == groups[0]
      && r.value.pages == (if anime then 1 else fileCount))
  {
    var titles :- TitlesOf(title);
    if |artists| == 0 || |groups| == 0 then Err(IndexError)
    else Ok(Derived(titles.0, titles.1, artists[0], groups[0], if anime then 1 else fileCount))
  }

  function Strs(names: seq<string>): (r: seq<Json>)
    ensures |r| == |names| && forall i :: 0 <= i < |names| ==> r[i] == Str(names[i])
  {
    seq(|names|, i requires 0 <= i < |names| => Str(names[i]))
  }

  /** On text values, building from the JSON agrees with the record built
      from the same text: it succeeds or fails together (a `ValueError` for
      the title, an `IndexError` for an empty list) and derives the same
      titles, first artist and group, and page count. */
  lemma PostInitAgrees(f: Metadata.Fields, fileCount: nat)
    ensures var anime := f.extra.HitomiExtra? && f.typeName == "anime";
      var r := PostInitOf(Str(f.title), Strs(f.artists), Strs(f.groups), fileCount, anime);
      var g := Metadata.PostInit(f, fileCount);
      (r.Ok? <==> g.Ok?)
      && (r.Ok? ==> r.value == Derived(g.value.originalTitle, g.value.translatedTitle,
            Str(g.value.artistName), Str(g.value.groupName), g.value.pages))
      && (r.Err? ==> (r.error == ValueError <==> g.error == Metadata.ValueError))
  {
  }
}
