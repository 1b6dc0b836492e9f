/** Hitomi's nozomi files (`downloader/services/hitomi/extractor.py` and
    the site's own `fetch_nozomi` in `checks/fetch_nozomi.js`): the list of
    gallery ids a listing page stands for, stored as big-endian signed
    32-bit integers, and the address of that file derived from the page's
    path. */
module Nozomi {
  import opened Wrappers
  import opened Text

  newtype byte = x: int | 0 <= x < 256

  const Two32: int := 0x1_0000_0000
  const Two31: int := 0x8000_0000

  predicate IsInt32(v: int) { -Two31 <= v < Two31 }

  /** The unsigned big-endian value of some bytes. */
  function BeUnsigned(bs: seq<byte>): (r: nat)
    decreases |bs|
  {
    if |bs| == 0 then 0 else BeUnsigned(bs[..|bs| - 1]) * 256 + bs[|bs| - 1] as int
  }

  function Pow256(n: nat): (r: nat)
    ensures r >= 1
  {
    if n == 0 then 1 else 256 * Pow256(n - 1)
  }

  /** `int.from_bytes(bs, "big", signed=True)`. */
  function BeSigned(bs: seq<byte>): int {
    if |bs| > 0 && bs[0] >= 128 then BeUnsigned(bs) - Pow256(|bs|) else BeUnsigned(bs)
  }

  /** The four big-endian bytes of a 32-bit integer in two's complement. */
  function EncodeInt32(v: int): (r: seq<byte>)
    requires IsInt32(v)
    ensures |r| == 4
  {
    var u := if v < 0 then v + Two32 else v;
    [(u / 0x100_0000) as byte, (u / 0x1_0000 % 256) as byte, (u / 256 % 256) as byte, (u % 256) as byte]
  }

  lemma FourBytes(bs: seq<byte>)
    requires |bs| == 4
    ensures BeUnsigned(bs) == bs[0] as int * 0x100_0000 + bs[1] as int * 0x1_0000 + bs[2] as int * 256 + bs[3] as int
    ensures Pow256(4) == Two32
  {
    var b0, b1, b2, b3 := bs[0] as int, bs[1] as int, bs[2] as int, bs[3] as int;
    assert bs[..3][..2][..1][..0] == [];
    assert bs[..3][..2][..1] == [bs[0]];
    assert BeUnsigned(bs[..3][..2][..1]) == b0;
    assert bs[..3][..2] == [bs[0], bs[1]];
    assert BeUnsigned(bs[..3][..2]) == b0 * 256 + b1;
    assert bs[..3] == [bs[0], bs[1], bs[2]];
    assert BeUnsigned(bs[..3]) == (b0 * 256 + b1) * 256 + b2;
    assert BeUnsigned(bs) == ((b0 * 256 + b1) * 256 + b2) * 256 + b3;
  }

  /** The decoding of an encoded integer gives it back. */
  lemma DecodeEncodeInt32(v: int)
    requires IsInt32(v)
    ensures BeSigned(EncodeInt32(v)) == v
  {
    var u := if v < 0 then v + Two32 else v;
    var bs := EncodeInt32(v);
    FourBytes(bs);
    DigitsOf(u);
    assert bs[0] >= 128 <==> v < 0;
  }

  /** The base-256 digits of a 32-bit unsigned value put it back together. */
  lemma DigitsOf(u: int)
    requires 0 <= u < Two32
    ensures u / 0x100_0000 < 256
    ensures u == (u / 0x100_0000) * 0x100_0000 + (u / 0x1_0000 % 256) * 0x1_0000 + (u / 256 % 256) * 256 + u % 256
    ensures u / 0x100_0000 >= 128 <==> u >= Two31
  {
    var q1 := u / 256;
    var q2 := q1 / 256;
    var q3 := q2 / 256;
    assert u == q1 * 256 + u % 256;
    assert q1 == q2 * 256 + q1 % 256;
    assert q2 == q3 * 256 + q2 % 256;
    assert q2 == u / 0x1_0000;
    assert q3 == u / 0x100_0000;
  }

  /** The encoding of four decoded bytes gives them back. */
  lemma EncodeDecodeInt32(bs: seq<byte>)
    requires |bs| == 4
    ensures IsInt32(BeSigned(bs)) && EncodeInt32(BeSigned(bs)) == bs
  {
    FourBytes(bs);
    var u := BeUnsigned(bs);
    assert 0 <= u < Two32;
    DigitsOf(u);
    UniqueDigits(bs[0] as int, bs[1] as int, bs[2] as int, bs[3] as int, u);
    var r := EncodeInt32(BeSigned(bs));
    assert r[0] == bs[0] && r[1] == bs[1] && r[2] == bs[2] && r[3] == bs[3];
  }

  /** Base-256 digits are unique. */
  lemma UniqueDigits(b0: int, b1: int, b2: int, b3: int, u: int)
    requires 0 <= b0 < 256 && 0 <= b1 < 256 && 0 <= b2 < 256 && 0 <= b3 < 256
    requires u == b0 * 0x100_0000 + b1 * 0x1_0000 + b2 * 256 + b3
    ensures u % 256 == b3 && u / 256 % 256 == b2 && u / 0x1_0000 % 256 == b1 && u / 0x100_0000 == b0
  {
    var q1 := b0 * 0x1_0000 + b1 * 256 + b2;
    assert u == q1 * 256 + b3;
    assert u / 256 == q1 && u % 256 == b3;
    var q2 := b0 * 256 + b1;
    assert q1 == q2 * 256 + b2;
    assert q1 / 256 == q2 && q1 % 256 == b2;
    assert u / 0x1_0000 == q2;
    assert q2 / 256 == b0 && q2 % 256 == b1;
    assert u / 0x100_0000 == b0;
  }

  /** `_get_nozomi_from_bytes`: one value per four bytes, taken at offsets
      0, 4, 8, ...; a shorter tail is decoded from the bytes it has. */
  function DecodeNozomi(bs: seq<byte>): (r: seq<int>)
    ensures |r| == (|bs| + 3) / 4
    ensures forall i :: 0 <= i < |r| && 4 * i + 4 <= |bs| ==> r[i] == BeSigned(bs[4 * i..4 * i + 4])
    decreases |bs|
  {
    if |bs| == 0 then []
    else if |bs| < 4 then [BeSigned(bs)]
    else
      var rest := DecodeNozomi(bs[4..]);
      assert forall i :: 1 <= i && 4 * i + 4 <= |bs| ==> bs[4..][4 * (i - 1)..4 * (i - 1) + 4] == bs[4 * i..4 * i + 4];
      [BeSigned(bs[..4])] + rest
  }

  /** The gallery count announced with the ids: whole four-byte values. */
  function TotalGalleries(bs: seq<byte>): nat { |bs| / 4 }

  /** The ids yielded agree with the count announced exactly when the
      file is a whole number of values; otherwise one more, partial, id is
      yielded. */
  lemma CountMatchesTotal(bs: seq<byte>)
    ensures |bs| % 4 == 0 ==> |DecodeNozomi(bs)| == TotalGalleries(bs)
    ensures |bs| % 4 != 0 ==> |DecodeNozomi(bs)| == TotalGalleries(bs) + 1
  {
  }

  /** The file a list of ids is stored as. */
  function EncodeNozomi(vs: seq<int>): (r: seq<byte>)
    requires forall i :: 0 <= i < |vs| ==> IsInt32(vs[i])
    ensures |r| == 4 * |vs|
  {
    if |vs| == 0 then [] else EncodeInt32(vs[0]) + EncodeNozomi(vs[1..])
  }

  /** Decoding a stored list gives the ids back, and as many as announced. */
  lemma {:induction false} DecodeEncode(vs: seq<int>)
    requires forall i :: 0 <= i < |vs| ==> IsInt32(vs[i])
    ensures DecodeNozomi(EncodeNozomi(vs)) == vs
    ensures TotalGalleries(EncodeNozomi(vs)) == |vs|
  {
    if |vs| > 0 {
      var e := EncodeNozomi(vs);
      DecodeEncode(vs[1..]);
      assert e[..4] == EncodeInt32(vs[0]);
      assert e[4..] == EncodeNozomi(vs[1..]);
      DecodeEncodeInt32(vs[0]);
    }
  }

  /** Every whole-value file is the encoding of what it decodes to. */
  lemma {:induction false} EncodeDecode(bs: seq<byte>)
    requires |bs| % 4 == 0
    ensures forall i :: 0 <= i < |DecodeNozomi(bs)| ==> IsInt32(DecodeNozomi(bs)[i])
    ensures EncodeNozomi(DecodeNozomi(bs)) == bs
    decreases |bs|
  {
    if |bs| > 0 {
      EncodeDecode(bs[4..]);
      EncodeDecodeInt32(bs[..4]);
      var d := DecodeNozomi(bs);
      assert d[1..] == DecodeNozomi(bs[4..]);
      assert bs == bs[..4] + bs[4..];
    }
  }

  // The nozomi address.

  const Domain: string := "ltn.hitomi.la"
  const NozomiExtension: string := ".nozomi"
  const SiteMarker: string := "hitomi.la/"

  /** The last index at which `sub` occurs at or before `k`. */
  function LastAt(s: string, sub: string, k: nat): (r: Option<nat>)
    ensures r.Some? ==> r.value <= k && OccursAt(s, sub, r.value)
    ensures forall j :: r.Some? && r.value < j <= k ==> !OccursAt(s, sub, j)
    ensures r.None? ==> forall j :: 0 <= j <= k ==> !OccursAt(s, sub, j)
  {
    if OccursAt(s, sub, k) then Some(k)
    else if k == 0 then None
    else LastAt(s, sub, k - 1)
  }

  /** The page's path: the text after the last "hitomi.la/", or the whole
      address when there is none. */
  function FilePath(url: string): (r: string)
    ensures !Contains(url, SiteMarker) ==> r == url
  {
    if |url| < |SiteMarker| then url
    else match LastAt(url, SiteMarker, |url| - |SiteMarker|)
      case None => url
      case Some(k) => url[k + |SiteMarker|..]
  }

  /** The maximal run of digits at the end of a text. */
  function TrailingDigits(s: string): (r: string)
    ensures |r| <= |s| && r == s[|s| - |r|..] && AllDigits(r)
    ensures |r| < |s| ==> !IsDigit(s[|s| - |r| - 1])
    decreases |s|
  {
    if |s| == 0 || !IsDigit(s[|s| - 1]) then ""
    else
      var r := TrailingDigits(s[..|s| - 1]);
      assert s[..|s| - 1][|s| - 1 - |r|..] == s[|s| - 1 - |r|..|s| - 1];
      r + [s[|s| - 1]]
  }

  const PageQuery: string := "?page="

  /** The pattern `\.html(?:\?page=\d+)?$` both implementations remove:
      a trailing ".html", or a trailing ".html?page=" and digits. */
  function DropListingSuffix(fp: string): (r: string)
    ensures EndsWith(fp, ".html") ==> r == fp[..|fp| - 5]
  {
    var d := TrailingDigits(fp);
    var n := |fp| - |d|;
    if EndsWith(fp, ".html") then fp[..|fp| - 5]
    else if |d| > 0 && EndsWith(fp[..n], ".html" + PageQuery) then fp[..n - 11]
    else fp
  }

  /** The last index of a character. */
  function LastIndexOf(s: string, c: char): (r: Option<nat>)
    ensures r.None? <==> c !in s
    ensures r.Some? ==> r.value < |s| && s[r.value] == c
    ensures forall j :: r.Some? && r.value < j < |s| ==> s[j] != c
    decreases |s|
  {
    if |s| == 0 then None
    else if s[|s| - 1] == c then Some(|s| - 1)
    else
      var r := LastIndexOf(s[..|s| - 1], c);
      assert r.None? ==> forall i :: 0 <= i < |s| - 1 ==> s[..|s| - 1][i] == s[i];
      r
  }

  /** `s.rsplit(c, 1)` as a pair, when `c` occurs. */
  function SplitLast(s: string, c: char): (r: Option<(string, string)>)
    ensures r.None? <==> c !in s
    ensures r.Some? ==> s == r.value.0 + [c] + r.value.1 && c !in r.value.1
  {
    match LastIndexOf(s, c)
    case None => None
    case Some(k) =>
      assert s == s[..k] + [c] + s[k + 1..];
      var t := s[k + 1..];
      assert forall j :: 0 <= j < |t| ==> t[j] == s[k + 1 + j];
      Some((s[..k], s[k + 1..]))
  }

  /** The three address shapes: an area with a popularity period, an
      area, or neither. An empty area or period counts as none. */
  function Address(area: Option<string>, popular: Option<string>, tag: string, language: string): string {
    var leaf := tag + "-" + language + NozomiExtension;
    if area.None? || area.value == "" then Domain + "/" + leaf
    else if popular.Some? && popular.value != "" && area.value != "popular" then
      Domain + "/" + area.value + "/popular/" + popular.value + "/" + leaf
    else Domain + "/" + area.value + "/" + leaf
  }

  /** The exceptions the port can raise. */
  datatype PyError = IndexError | TypeError

  /** The area and period a tag with "/" names, as the port reads it: a
      second element "popular" names the period and is removed with it,
      else a first element "popular" names the period; the area and tag
      are then the first two elements left. */
  function AreaOf(tag: string): (r: Result<(string, Option<string>, string), PyError>)
    requires '/' in tag
  {
    var ae := Split(tag, '/');
    assert |ae| >= 2 by { SplitCount(tag, '/'); CountPositive(tag, '/'); }
    if ae[1] == "popular" then
      if |ae| < 3 then Err(IndexError)
      else
        var rest := ae[..1] + ae[3..];
        if |rest| < 2 then Err(IndexError) else Ok((rest[0], Some(ae[2]), rest[1]))
    else if ae[0] == "popular" then Ok((ae[0], Some(ae[1]), ae[1]))
    else Ok((ae[0], None, ae[1]))
  }

  lemma CountPositive(s: string, c: char)
    requires c in s
    ensures CountChar(s, c) >= 1
    decreases |s|
  {
    if s[0] != c {
      CountPositive(s[1..], c);
    }
  }

  /** The path a listing page's address leaves once the site and the
      ".html" ending are removed. */
  function ListingBody(url: string): string {
    DropListingSuffix(FilePath(url))
  }

  /** `fetch_nozomi` as written, from the listing body on: the area starts
      as the integer 1, so a tag without "/" reaches the area join with an
      integer and raises a TypeError; a body without "-" has no language
      and raises an IndexError (after any IndexError of the area split,
      which is the same error). */
  function NozomiAddressAsWritten(body: string): (r: Result<string, PyError>) {
    match SplitLast(body, '-')
    case None => Err(IndexError)
    case Some(e) =>
      if '/' in e.0 then
        match AreaOf(e.0)
        case Err(err) => Err(err)
        case Ok(a) => Ok(Address(Some(a.0), a.1, a.2, e.1))
      else Err(TypeError)
  }

  /** `fetch_nozomi` with no area until one is read, as in the site's own
      code: a tag without "/" is addressed at the domain's root. */
  function NozomiAddress(body: string): (r: Result<string, PyError>)
    ensures r.Err? ==> r.error == IndexError
    ensures NozomiAddressAsWritten(body).Ok? ==> r == NozomiAddressAsWritten(body)
    ensures r.Ok? && NozomiAddressAsWritten(body).Err? ==> NozomiAddressAsWritten(body).error == TypeError
  {
    match SplitLast(body, '-')
    case None => Err(IndexError)
    case Some(e) =>
      if '/' in e.0 then
        match AreaOf(e.0)
        case Err(err) => Err(err)
        case Ok(a) => Ok(Address(Some(a.0), a.1, a.2, e.1))
      else Ok(Address(None, None, e.0, e.1))
  }

  function FetchNozomiAsWritten(url: string): (r: Result<string, PyError>) {
    NozomiAddressAsWritten(ListingBody(url))
  }

  function FetchNozomi(url: string): (r: Result<string, PyError>) {
    NozomiAddress(ListingBody(url))
  }

  const IndexListing: string := "https://" + SiteMarker + "index-all.html"

  /** The site's front page: as written the port raises a TypeError where
      the site's code asks for the "index-all" nozomi. */
  lemma IndexListingFails()
    ensures FetchNozomiAsWritten(IndexListing) == Err(TypeError)
    ensures FetchNozomi(IndexListing) == Ok("ltn.hitomi.la/index-all.nozomi")
  {
    var body := "index" + "-" + "all";
    assert ListingBody(IndexListing) == body by {
      NoMarkerWithoutSlash("index-all.html");
      FilePathAfterMarker("https://", "index-all.html");
      IndexAllBody();
    }
    WithoutArea("index", "all");
    IndexAllAddress();
  }

  lemma IndexAllAddress()
    ensures Address(None, None, "index", "all") == "ltn.hitomi.la/index-all.nozomi"
  {
  }

  lemma IndexAllBody()
    ensures DropListingSuffix("index-all.html") == "index" + "-" + "all"
  {
    var fp := "index-all.html";
    assert EndsWith(fp, ".html") by { assert fp[|fp| - 5..] == ".html"; }
  }

  /** A tag without "/": the port as written fails, the corrected port
      addresses the tag at the domain's root. */
  lemma WithoutArea(tag: string, language: string)
    requires '-' !in language && '/' !in tag
    ensures NozomiAddressAsWritten(tag + "-" + language) == Err(TypeError)
    ensures NozomiAddress(tag + "-" + language) == Ok(Address(None, None, tag, language))
  {
    SplitLastAt(tag, language, '-');
  }

  /** The path of an address with one "hitomi.la/" before it: the marker
      cannot overlap itself, since its first letter does not recur. */
  lemma FilePathAfterMarker(p: string, t: string)
    requires !Contains(t, SiteMarker)
    ensures FilePath(p + SiteMarker + t) == t
  {
    var url := p + SiteMarker + t;
    var m := |SiteMarker|;
    assert OccursAt(url, SiteMarker, |p|) by { assert url[|p|..|p| + m] == SiteMarker; }
    forall j | |p| < j <= |url| - m
      ensures !OccursAt(url, SiteMarker, j)
    {
      if j < |p| + m {
        assert url[j] == SiteMarker[j - |p|];
        assert url[j..j + m][0] == url[j];
      } else {
        assert url[j..j + m] == t[j - |p| - m..j - |p|];
        assert !OccursAt(t, SiteMarker, j - |p| - m);
      }
    }
    assert url[|p| + m..] == t;
  }

  /** A path with no "/" holds no "hitomi.la/". */
  lemma NoMarkerWithoutSlash(t: string)
    requires '/' !in t
    ensures !Contains(t, SiteMarker)
  {
    forall k | 0 <= k <= |t| - |SiteMarker|
      ensures !OccursAt(t, SiteMarker, k)
    {
      assert SiteMarker[9] == '/' && t[k + 9] in t;
      assert t[k..k + |SiteMarker|][9] == t[k + 9];
    }
  }

  /** Splitting at the last separator of `a + [c] + b`, with `c` not in `b`. */
  lemma SplitLastAt(a: string, b: string, c: char)
    requires c !in b
    ensures SplitLast(a + [c] + b, c) == Some((a, b))
  {
    var s := a + [c] + b;
    assert s[|a|] == c;
    var k := LastIndexOf(s, c).value;
    assert k >= |a|;
    forall i | |a| < i < |s|
      ensures s[i] != c
    {
      assert s[i] == b[i - |a| - 1];
    }
    assert k == |a|;

    assert s[..|a|] == a && s[|a| + 1..] == b;
  }

  // The site's own `fetch_nozomi`, which the port follows.

  predicate IsAreaChar(c: char) { IsAlnum(c) || c == '_' }

  predicate IsTagChar(c: char) { IsAreaChar(c) || c == ':' || c == ' ' || c == '.' || c == '-' }

  predicate AllChars(s: string, p: char -> bool) { forall i :: 0 <= i < |s| ==> p(s[i]) }

  /** The area split of the site's code: like the port's, but the parts
      left must be exactly an area and a tag. */
  function SiteAreaOf(tag: string): (r: Option<(string, Option<string>, string)>)
    requires '/' in tag
  {
    var ae := Split(tag, '/');
    assert |ae| >= 2 by { SplitCount(tag, '/'); CountPositive(tag, '/'); }
    if ae[1] == "popular" then
      if |ae| == 4 then Some((ae[0], Some(ae[2]), ae[3])) else None
    else if ae[0] == "popular" then
      if |ae| == 2 then Some((ae[0], Some(ae[1]), ae[1])) else None
    else if |ae| == 2 then Some((ae[0], None, ae[1]))
    else None
  }

  /** Where the site's split succeeds the port's gives the same parts. */
  lemma SiteAreaAgrees(tag: string)
    requires '/' in tag && SiteAreaOf(tag).Some?
    ensures AreaOf(tag) == Ok(SiteAreaOf(tag).value)
  {
    var ae := Split(tag, '/');
    if ae[1] == "popular" {
      assert ae[..1] + ae[3..] == [ae[0], ae[3]];
    }
  }

  /** The listing page a trailing "?page=N" names, if any. */
  function PageSuffix(fp: string): Option<nat> {
    var d := TrailingDigits(fp);
    if |d| > 0 && EndsWith(fp[..|fp| - |d|], PageQuery) then Some(DigitsValue(d)) else None
  }

  /** The nozomi a listing path asks for, with the page it shows; None
      where the site's code gives up. The page number is the one already
      showing when the path names none. */
  function SiteNozomi(fp: string, currentPage: int): (r: Option<(string, int)>)
    ensures r.Some? && fp == "" ==> r.value == ("ltn.hitomi.la/index-all.nozomi", 1)
    ensures r.Some? && PageSuffix(fp).Some? ==> r.value.1 == PageSuffix(fp).value >= 1
  {
    if fp == "" then
      IndexAllAddress();
      Some((Address(None, None, "index", "all"), 1))
    else
      var page := PageSuffix(fp);
      if page.Some? && page.value < 1 then None
      else if page.Some? && |fp| - |TrailingDigits(fp)| == |PageQuery| then
        IndexAllAddress();
        Some((Address(None, None, "index", "all"), page.value))
      else
        var p := if page.Some? then page.value else currentPage;
        match SplitLast(DropListingSuffix(fp), '-')
        case None => None
        case Some(e) =>
          var parts :=
            if '/' in e.0 then SiteAreaOf(e.0) else Some(("", None, e.0));
          if parts.None? then None
          else
            var (area, popular, tag) := parts.value;
            if '/' in e.0 && (area == "" || !AllChars(area, IsAreaChar)) then None
            else if tag == "" || !AllChars(tag, IsTagChar) then None
            else if e.1 == "" || !AllChars(e.1, IsAsciiLetter) then None
            else Some((Address(if '/' in e.0 then Some(area) else None, popular, tag, e.1), p))
  }

  /** Every listing path beyond the front page that the site's code
      accepts is addressed the same way by the port, with or without the
      correction when the tag names an area. */
  lemma PortFollowsSite(fp: string, currentPage: int)
    ensures (SiteNozomi(fp, currentPage).Some? && fp != "" && |fp| - |TrailingDigits(fp)| != |PageQuery|) ==>
      NozomiAddress(DropListingSuffix(fp)) == Ok(SiteNozomi(fp, currentPage).value.0)
    ensures (SiteNozomi(fp, currentPage).Some? && fp != "" && |fp| - |TrailingDigits(fp)| != |PageQuery|) ==>
      ('/' in SplitLast(DropListingSuffix(fp), '-').value.0 ==>
         NozomiAddressAsWritten(DropListingSuffix(fp)) == Ok(SiteNozomi(fp, currentPage).value.0))
  {
    if SiteNozomi(fp, currentPage).Some? && fp != "" && |fp| - |TrailingDigits(fp)| != |PageQuery| {
      var e := SplitLast(DropListingSuffix(fp), '-').value;
      if '/' in e.0 {
        SiteAreaAgrees(e.0);
      }
    }
  }

  // The byte range of one page.

  /** The first and last byte of page `page` with `perPage` ids a page. */
  function PageRange(page: nat, perPage: nat): (r: (int, int))
    requires page >= 1
    ensures r.0 >= 0 && r.1 - r.0 + 1 == 4 * perPage
    ensures r.0 % 4 == 0
  {
    var start := (page - 1) * perPage * 4;
    (start, start + perPage * 4 - 1)
  }

  /** Pages follow each other with no byte skipped or shared. */
  lemma PagesAreContiguous(page: nat, perPage: nat)
    requires page >= 1
    ensures PageRange(page, perPage).1 + 1 == PageRange(page + 1, perPage).0
  {
  }

  /** Dropping whole values from the front drops their ids. */
  lemma {:induction false} DecodeDrop(bs: seq<byte>, i: nat)
    requires 4 * i <= |bs|
    ensures DecodeNozomi(bs[4 * i..]) == DecodeNozomi(bs)[i..]
    decreases i
  {
    if i > 0 {
      DecodeDrop(bs[4..], i - 1);
      assert bs[4..][4 * (i - 1)..] == bs[4 * i..];
    }
  }

  /** Keeping whole values at the front keeps their ids. */
  lemma {:induction false} DecodeTake(bs: seq<byte>, j: nat)
    requires 4 * j <= |bs|
    ensures DecodeNozomi(bs[..4 * j]) == DecodeNozomi(bs)[..j]
    decreases j
  {
    if j > 0 {
      DecodeTake(bs[4..], j - 1);
      assert bs[..4 * j][4..] == bs[4..][..4 * (j - 1)];
      assert bs[..4 * j][..4] == bs[..4];
    }
  }

  /** The decoding of an aligned slice is the slice of the decoding. */
  lemma DecodeSlice(bs: seq<byte>, i: nat, j: nat)
    requires i <= j && 4 * j <= |bs|
    ensures DecodeNozomi(bs[4 * i..4 * j]) == DecodeNozomi(bs)[i..j]
  {
    DecodeTake(bs, j);
    DecodeDrop(bs[..4 * j], i);
    assert bs[..4 * j][4 * i..] == bs[4 * i..4 * j];
  }

  /** The bytes of a page decode to the ids listed on that page. */
  lemma PageHoldsItsIds(bs: seq<byte>, page: nat, perPage: nat)
    requires page >= 1 && 4 * (page * perPage) <= |bs|
    ensures var (first, last) := PageRange(page, perPage);
      DecodeNozomi(bs[first..last + 1]) == DecodeNozomi(bs)[(page - 1) * perPage..page * perPage]
  {
    PageArithmetic(page, perPage);
    DecodeSlice(bs, (page - 1) * perPage, page * perPage);
  }

  lemma PageArithmetic(page: nat, perPage: nat)
    requires page >= 1
    ensures PageRange(page, perPage).0 == 4 * ((page - 1) * perPage)
    ensures PageRange(page, perPage).1 + 1 == 4 * (page * perPage)
    ensures (page - 1) * perPage <= page * perPage
  {
    var n := (page - 1) * perPage;
    assert page * perPage == n + perPage;
  }
}
