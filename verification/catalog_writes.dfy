/** The catalog's write side (`insert_into_*` in
    `database_manager/main.py` and the services' `insert_into_table`): the
    statements a finished gallery queues, and their effect on an abstract
    catalog when the single writer applies them in queue order. */
module CatalogWrites {
  import opened Wrappers
  import opened Text
  import opened CatalogSchema
  import opened Metadata
  import opened SharedManager

  /** A gallery is unique per source: `UNIQUE("source", "gallery_id")`. */
  datatype GalleryKey = GalleryKey(source: string, galleryId: int)

  /** The columns of a `Galleries` row; type and source are stored by the
      name they were looked up with. */
  datatype GalleryRow = GalleryRow(
    title: string, japaneseTitle: string, uploadDate: string,
    pages: int, location: string, typeName: string, sourceName: string)

  /** One queued statement, after its bind values are filled in. */
  datatype Write =
    | InsertName(category: Category, name: string)
    | InsertTag(tagName: string, sex: int)
    | Link(linkCategory: Category, linkName: string, linkId: int)
    | LinkTag(linkTag: string, tagId: int)
    | InsertGallery(galleryId: int, row: GalleryRow)
    | LinkMediaId(mediaId: int, mediaGallery: int)

  /** The catalog's contents, by value rather than by surrogate id: name
      tables, the tag table keyed by (name, sex), galleries, and the
      junction rows. */
  datatype Catalog = Catalog(
    names: set<(Category, string)>,
    tags: set<(string, int)>,
    galleries: map<GalleryKey, GalleryRow>,
    links: set<(Category, string, GalleryKey)>,
    tagLinks: set<((string, int), GalleryKey)>,
    mediaIds: set<(int, GalleryKey)>)

  const EmptyCatalog: Catalog := Catalog({}, {}, map[], {}, {}, {})

  /** The galleries a junction `SELECT ... WHERE "gallery_id" = ?` reaches:
      every gallery with that id, whatever its source. */
  function WithId(c: Catalog, id: int): (r: set<GalleryKey>)
    ensures forall k :: k in r <==> k in c.galleries && k.galleryId == id
  {
    set k | k in c.galleries && k.galleryId == id
  }

  /** The effect of one statement. Every insert is `INSERT OR IGNORE`; a
      junction insert selects from the cross product of the named entity
      and the galleries with the id, so it adds nothing when either is
      missing; a gallery is inserted only when its type and source names
      exist and its key is new. */
  function Apply(c: Catalog, w: Write): Catalog {
    match w
    case InsertName(cat, n) => c.(names := c.names + {(cat, n)})
    case InsertTag(n, s) => c.(tags := c.tags + {(n, s)})
    case Link(cat, n, id) =>
      if (cat, n) in c.names then c.(links := c.links + set k | k in WithId(c, id) :: (cat, n, k))
      else c
    case LinkTag(n, id) =>
      c.(tagLinks := c.tagLinks + set t, k | t in c.tags && t.0 == n && k in WithId(c, id) :: (t, k))
    case InsertGallery(id, row) =>
      var key := GalleryKey(row.sourceName, id);
      if (Type, row.typeName) in c.names && (Source, row.sourceName) in c.names && key !in c.galleries
      then c.(galleries := c.galleries[key := row])
      else c
    case LinkMediaId(m, id) => c.(mediaIds := c.mediaIds + set k | k in WithId(c, id) :: (m, k))
  }

  /** The writer thread draining the queue in order. */
  function ApplyAll(c: Catalog, ws: seq<Write>): Catalog
    decreases |ws|
  {
    if |ws| == 0 then c else ApplyAll(Apply(c, ws[0]), ws[1..])
  }

  /** Nothing is ever removed or overwritten: rows only accumulate. */
  predicate Grows(a: Catalog, b: Catalog) {
    a.names <= b.names && a.tags <= b.tags && a.links <= b.links
    && a.tagLinks <= b.tagLinks && a.mediaIds <= b.mediaIds
    && forall k :: k in a.galleries ==> k in b.galleries && b.galleries[k] == a.galleries[k]
  }

  /** Every row refers to rows that exist: a gallery to its type and source,
      a junction row to its entity and its gallery. */
  predicate Consistent(c: Catalog) {
    (forall k :: k in c.galleries ==>
      (Type, c.galleries[k].typeName) in c.names && (Source, c.galleries[k].sourceName) in c.names
      && k.source == c.galleries[k].sourceName)
    && (forall l :: l in c.links ==> (l.0, l.1) in c.names && l.2 in c.galleries)
    && (forall l :: l in c.tagLinks ==> l.0 in c.tags && l.1 in c.galleries)
    && (forall l :: l in c.mediaIds ==> l.1 in c.galleries)
  }

  /** Applying a statement only adds rows, keeps the catalog consistent,
      and applying it again changes nothing (`INSERT OR IGNORE`). */
  lemma ApplyProperties(c: Catalog, w: Write)
    ensures Grows(c, Apply(c, w))
    ensures Consistent(c) ==> Consistent(Apply(c, w))
    ensures Apply(Apply(c, w), w) == Apply(c, w)
  {
    match w
    case InsertGallery(id, row) =>
    case Link(cat, n, id) =>
      var c' := Apply(c, w);
      if (cat, n) in c.names {
        assert WithId(c', id) == WithId(c, id);
      }
    case LinkTag(n, id) =>
      var c' := Apply(c, w);
      assert WithId(c', id) == WithId(c, id);
    case LinkMediaId(m, id) =>
      var c' := Apply(c, w);
      assert WithId(c', id) == WithId(c, id);
    case _ =>
  }

  lemma GrowsTransitive(a: Catalog, b: Catalog, d: Catalog)
    requires Grows(a, b) && Grows(b, d)
    ensures Grows(a, d)
  {
  }

  /** Draining a queue only adds rows and keeps the catalog consistent. */
  lemma {:induction false} ApplyAllProperties(c: Catalog, ws: seq<Write>)
    ensures Grows(c, ApplyAll(c, ws))
    ensures Consistent(c) ==> Consistent(ApplyAll(c, ws))
    decreases |ws|
  {
    if |ws| > 0 {
      ApplyProperties(c, ws[0]);
      ApplyAllProperties(Apply(c, ws[0]), ws[1..]);
      GrowsTransitive(c, Apply(c, ws[0]), ApplyAll(c, ws));
    }
  }

  /** Two queues drained one after the other are one queue. */
  lemma {:induction false} ApplyAllConcat(c: Catalog, a: seq<Write>, b: seq<Write>)
    ensures ApplyAll(c, a + b) == ApplyAll(ApplyAll(c, a), b)
    decreases |a|
  {
    if |a| == 0 {
      assert a + b == b;
    } else {
      assert (a + b)[0] == a[0];
      assert (a + b)[1..] == a[1..] + b;
      ApplyAllConcat(Apply(c, a[0]), a[1..], b);
    }
  }

  /** Draining a queue of one, two or three statements. */
  lemma ApplyAllSteps(c: Catalog, ws: seq<Write>)
    ensures |ws| == 1 ==> ApplyAll(c, ws) == Apply(c, ws[0])
    ensures |ws| == 2 ==> ApplyAll(c, ws) == Apply(Apply(c, ws[0]), ws[1])
    ensures |ws| == 3 ==> ApplyAll(c, ws) == Apply(Apply(Apply(c, ws[0]), ws[1]), ws[2])
  {
    if 1 <= |ws| <= 3 {
      var c1 := Apply(c, ws[0]);
      assert ApplyAll(c, ws) == ApplyAll(c1, ws[1..]);
      if |ws| >= 2 {
        var c2 := Apply(c1, ws[1]);
        assert ApplyAll(c1, ws[1..]) == ApplyAll(c2, ws[2..]);
        if |ws| == 3 {
          assert ApplyAll(c2, ws[2..]) == ApplyAll(Apply(c2, ws[2]), ws[3..]);
        }
      }
    }
  }

  /** A junction insert links the entity to the galleries with that id in
      every source, and to nothing else. */
  lemma LinkReachesEveryId(c: Catalog, cat: Category, n: string, id: int)
    requires (cat, n) in c.names
    ensures forall k :: (cat, n, k) in Apply(c, Link(cat, n, id)).links <==>
      (cat, n, k) in c.links || (k in c.galleries && k.galleryId == id)
  {
  }

  /** A tag junction insert matches the tag by name alone, so it links
      every sex recorded under that name. */
  lemma TagLinkIgnoresSex(c: Catalog, n: string, id: int)
    ensures forall t, k :: (t, k) in Apply(c, LinkTag(n, id)).tagLinks <==>
      (t, k) in c.tagLinks || (t in c.tags && t.0 == n && k in c.galleries && k.galleryId == id)
  {
  }

  // The statements each `insert_into_*` queues.

  /** `insert_into_artists`, `_characters`, `_groups`, `_languages`,
      `_series`: the lower-cased name, then its junction row. */
  function InsertInto(cat: Category, id: int, name: string): seq<Write> {
    [InsertName(cat, Lower(name)), Link(cat, Lower(name), id)]
  }

  /** `insert_into_types` and `insert_into_sources`: the lower-cased name
      only; the gallery row refers to it. */
  function InsertIntoName(cat: Category, name: string): (r: seq<Write>)
  {
    [InsertName(cat, Lower(name))]
  }

  /** `insert_into_tags`: the lower-cased tag with its sex, then its
      junction row, matched by name. */
  function InsertIntoTags(id: int, name: string, sex: int): seq<Write> {
    [InsertTag(Lower(name), sex), LinkTag(Lower(name), id)]
  }

  /** `insert_into_galleries`: the row, with the type name bound as given
      (not lower-cased) and looked up in `Types`. */
  function InsertIntoGalleries(id: int, row: GalleryRow): seq<Write> {
    [InsertGallery(id, row)]
  }

  /** One `insert_into_*` call per name, in list order. */
  function Each(cat: Category, id: int, names: seq<string>): (r: seq<Write>)
    ensures |r| == 2 * |names|
    ensures forall i :: 0 <= i < |names| ==>
      r[2 * i] == InsertName(cat, Lower(names[i])) && r[2 * i + 1] == Link(cat, Lower(names[i]), id)
    decreases |names|
  {
    if |names| == 0 then [] else InsertInto(cat, id, names[0]) + Each(cat, id, names[1..])
  }

  /** Once a gallery with the id exists, each name's pair of statements
      links it; later statements keep the link. */
  lemma {:induction false} EachLinks(c: Catalog, cat: Category, id: int, names: seq<string>, k: GalleryKey)
    requires k in c.galleries && k.galleryId == id
    ensures forall i :: 0 <= i < |names| ==> (cat, Lower(names[i]), k) in ApplyAll(c, Each(cat, id, names)).links
    decreases |names|
  {
    if |names| > 0 {
      var head := InsertInto(cat, id, names[0]);
      var c1 := ApplyAll(c, head);
      ApplyAllSteps(c, head);
      assert (cat, Lower(names[0]), k) in c1.links;
      assert k in c1.galleries;
      ApplyAllConcat(c, head, Each(cat, id, names[1..]));
      EachLinks(c1, cat, id, names[1..], k);
      ApplyAllProperties(c1, Each(cat, id, names[1..]));
      forall i | 0 <= i < |names|
        ensures (cat, Lower(names[i]), k) in ApplyAll(c, Each(cat, id, names)).links
      {
        if i > 0 {
          assert names[i] == names[1..][i - 1];
        }
      }
    }
  }

  // The Hitomi service's `insert_into_table`.

  /** Hitomi's tag prefixes: "female:" gives sex 0 and is removed, else
      "male:" gives sex 1 and is removed, else the tag is kept with -1. */
  function ClassifyTag(tag: string): (r: (string, int))
    ensures r.1 == 0 <==> Contains(tag, "female:")
    ensures r.1 == 1 <==> !Contains(tag, "female:") && Contains(tag, "male:")
    ensures r.1 == -1 <==> !Contains(tag, "male:") && !Contains(tag, "female:")
    ensures r.1 == -1 ==> r.0 == tag
  {
    if Contains(tag, "female:") then (Replace(tag, "female:", ""), 0)
    else if Contains(tag, "male:") then (Replace(tag, "male:", ""), 1)
    else (tag, -1)
  }

  /** Every "female:" tag also contains "male:", which is why the female
      prefix is tested first. */
  lemma FemaleContainsMale(tag: string)
    requires Contains(tag, "female:")
    ensures Contains(tag, "male:")
  {
    var k :| 0 <= k <= |tag| - 7 && OccursAt(tag, "female:", k);
    assert tag[k + 2..k + 7] == "male:" by {
      assert tag[k..k + 7] == "female:";
    }
    assert OccursAt(tag, "male:", k + 2);
  }

  function HitomiTags(id: int, tags: seq<string>): (r: seq<Write>)
    ensures |r| == 2 * |tags|
    ensures forall i :: 0 <= i < |tags| ==>
      r[2 * i] == InsertTag(Lower(ClassifyTag(tags[i]).0), ClassifyTag(tags[i]).1)
      && r[2 * i + 1] == LinkTag(Lower(ClassifyTag(tags[i]).0), id)
    decreases |tags|
  {
    if |tags| == 0 then []
    else
      var t := ClassifyTag(tags[0]);
      InsertIntoTags(id, t.0, t.1) + HitomiTags(id, tags[1..])
  }

  /** nhentai files every tag with sex -1. */
  function PlainTags(id: int, tags: seq<string>): (r: seq<Write>)
    ensures |r| == 2 * |tags|
    ensures forall i :: 0 <= i < |tags| ==>
      r[2 * i] == InsertTag(Lower(tags[i]), -1) && r[2 * i + 1] == LinkTag(Lower(tags[i]), id)
    decreases |tags|
  {
    if |tags| == 0 then [] else InsertIntoTags(id, tags[0], -1) + PlainTags(id, tags[1..])
  }

  /** The `Galleries` row a gallery record is filed as. */
  function RowOf(g: Gallery, location: string, source: string): GalleryRow {
    GalleryRow(g.fields.title, g.fields.japaneseTitle, g.fields.uploadDate, g.pages, location, g.fields.typeName, source)
  }

  /** The entities that follow the gallery row, in the order both services
      queue them; `tagWrites` differ between the services. */
  function EntityWrites(f: Fields, tagWrites: seq<Write>): seq<Write> {
    var id := f.galleryId;
    Each(Artist, id, f.artists) + Each(Character, id, f.characters) + Each(Group, id, f.groups)
    + InsertInto(Language, id, f.language) + Each(Series, id, f.series) + tagWrites
  }

  /** The first statements of both services: the type, the source, and
      the gallery row that refers to them. */
  function GalleryHead(typeName: string, source: string, id: int, row: GalleryRow): seq<Write> {
    InsertIntoName(Type, typeName) + InsertIntoName(Source, source) + InsertIntoGalleries(id, row)
  }

  /** Hitomi's `insert_into_table`: type, source "hitomi", the gallery row,
      then the entities. */
  function HitomiWrites(g: Gallery, location: string): seq<Write> {
    var f := g.fields;
    GalleryHead(f.typeName, "hitomi", f.galleryId, RowOf(g, location, "hitomi"))
    + EntityWrites(f, HitomiTags(f.galleryId, f.tags))
  }

  lemma LowerFixed(s: string)
    requires IsLower(s)
    ensures Lower(s) == s
  {
  }

  /** The state right after a gallery row's statement: its key exists,
      holding the new row when the key was new. */
  lemma {:induction false} GalleryStep(c: Catalog, typeName: string, source: string, id: int, row: GalleryRow)
    requires row.typeName == typeName && row.sourceName == source && IsLower(source)
    requires Lower(typeName) == typeName || (Type, typeName) in c.names
    ensures var c3 := ApplyAll(c, GalleryHead(typeName, source, id, row));
      GalleryKey(source, id) in c3.galleries
      && (GalleryKey(source, id) !in c.galleries ==> c3.galleries[GalleryKey(source, id)] == row)
      && Grows(c, c3)
  {
    LowerFixed(source);
    var ws := GalleryHead(typeName, source, id, row);
    assert ws == [InsertName(Type, Lower(typeName)), InsertName(Source, source), InsertGallery(id, row)];
    ApplyAllSteps(c, ws);
    ApplyAllProperties(c, ws);
  }

  /** Every name of the list, lower-cased, is linked to the gallery. */
  predicate Linked(c: Catalog, cat: Category, names: seq<string>, key: GalleryKey) {
    forall i :: 0 <= i < |names| ==> (cat, Lower(names[i]), key) in c.links
  }

  lemma LinkedKept(a: Catalog, b: Catalog, cat: Category, names: seq<string>, key: GalleryKey)
    requires Linked(a, cat, names, key) && Grows(a, b)
    ensures Linked(b, cat, names, key)
  {
  }

  /** Every tag of the list, by its (name, sex) row, is linked to the
      gallery. */
  predicate TagsLinked(c: Catalog, tags: seq<(string, int)>, key: GalleryKey) {
    forall i :: 0 <= i < |tags| ==> (tags[i], key) in c.tagLinks
  }

  lemma TagsLinkedKept(a: Catalog, b: Catalog, tags: seq<(string, int)>, key: GalleryKey)
    requires TagsLinked(a, tags, key) && Grows(a, b)
    ensures TagsLinked(b, tags, key)
  {
  }

  /** What filing a gallery leaves behind, once its statements have been
      applied: the gallery exists under its source, every artist,
      character, group and series (by its lower-cased name), the language
      and every tag row in `tags` are linked to it, and nothing was lost. */
  predicate Filed(before: Catalog, after: Catalog, f: Fields, tags: seq<(string, int)>, key: GalleryKey) {
    key in after.galleries
    && Linked(after, Artist, f.artists, key)
    && Linked(after, Character, f.characters, key)
    && Linked(after, Group, f.groups, key)
    && Linked(after, Series, f.series, key)
    && (Language, Lower(f.language), key) in after.links
    && TagsLinked(after, tags, key)
    && Grows(before, after)
  }

  /** Tag statements in `insert_into_tags` pairs: row i of `tags` is
      inserted, then linked by its name to the gallery id. */
  predicate TagPairs(ws: seq<Write>, tags: seq<(string, int)>, id: int) {
    |ws| == 2 * |tags|
    && forall i :: 0 <= i < |tags| ==> ws[2 * i] == InsertTag(tags[i].0, tags[i].1) && ws[2 * i + 1] == LinkTag(tags[i].0, id)
  }

  /** Each pair links its tag row to a gallery that exists before them,
      since the row is inserted just before its junction statement. */
  lemma {:induction false} TagPairsLink(c: Catalog, ws: seq<Write>, tags: seq<(string, int)>, key: GalleryKey)
    requires key in c.galleries && TagPairs(ws, tags, key.galleryId)
    ensures TagsLinked(ApplyAll(c, ws), tags, key)
    decreases |tags|
  {
    if |tags| > 0 {
      var c2 := Apply(Apply(c, ws[0]), ws[1]);
      assert key in WithId(Apply(c, ws[0]), key.galleryId);
      assert (tags[0], key) in c2.tagLinks;
      assert ApplyAll(c, ws) == ApplyAll(c2, ws[2..]);
      assert TagPairs(ws[2..], tags[1..], key.galleryId) by {
        forall i | 0 <= i < |tags[1..]|
          ensures ws[2..][2 * i] == InsertTag(tags[1..][i].0, tags[1..][i].1)
          ensures ws[2..][2 * i + 1] == LinkTag(tags[1..][i].0, key.galleryId)
        {
          assert tags[1..][i] == tags[i + 1];
          assert ws[2..][2 * i] == ws[2 * (i + 1)];
          assert ws[2..][2 * i + 1] == ws[2 * (i + 1) + 1];
        }
      }
      TagPairsLink(c2, ws[2..], tags[1..], key);
      ApplyAllProperties(c2, ws[2..]);
      forall i | 0 <= i < |tags| ensures (tags[i], key) in ApplyAll(c, ws).tagLinks {
        if i > 0 { assert tags[i] == tags[1..][i - 1]; }
      }
    }
  }

  /** The (name, sex) rows Hitomi files its tags under. */
  function HitomiTagRows(tags: seq<string>): seq<(string, int)> {
    seq(|tags|, i requires 0 <= i < |tags| => (Lower(ClassifyTag(tags[i]).0), ClassifyTag(tags[i]).1))
  }

  /** The (name, sex) rows nhentai files its tags under. */
  function PlainTagRows(tags: seq<string>): seq<(string, int)> {
    seq(|tags|, i requires 0 <= i < |tags| => (Lower(tags[i]), -1))
  }

  lemma HitomiTagPairs(id: int, tags: seq<string>)
    ensures TagPairs(HitomiTags(id, tags), HitomiTagRows(tags), id)
  {
  }

  lemma PlainTagPairs(id: int, tags: seq<string>)
    ensures TagPairs(PlainTags(id, tags), PlainTagRows(tags), id)
  {
  }

  lemma HitomiRowsLinked(c: Catalog, tags: seq<string>, key: GalleryKey)
    requires TagsLinked(c, HitomiTagRows(tags), key)
    ensures forall i :: 0 <= i < |tags| ==> ((Lower(ClassifyTag(tags[i]).0), ClassifyTag(tags[i]).1), key) in c.tagLinks
  {
    forall i | 0 <= i < |tags| ensures ((Lower(ClassifyTag(tags[i]).0), ClassifyTag(tags[i]).1), key) in c.tagLinks {
      assert HitomiTagRows(tags)[i] == (Lower(ClassifyTag(tags[i]).0), ClassifyTag(tags[i]).1);
    }
  }

  lemma PlainRowsLinked(c: Catalog, tags: seq<string>, key: GalleryKey)
    requires TagsLinked(c, PlainTagRows(tags), key)
    ensures forall i :: 0 <= i < |tags| ==> ((Lower(tags[i]), -1), key) in c.tagLinks
  {
    forall i | 0 <= i < |tags| ensures ((Lower(tags[i]), -1), key) in c.tagLinks {
      assert PlainTagRows(tags)[i] == (Lower(tags[i]), -1);
    }
  }

  /** The gallery row finds its type: the type name is already lower case
      (as `insert_into_types` files it), or a type of that exact spelling
      is already filed. */
  predicate TypeOk(c: Catalog, f: Fields) {
    Lower(f.typeName) == f.typeName || (Type, f.typeName) in c.names
  }

  /** A category's statements, followed by any others, leave every one of
      its names linked to a gallery that exists before them. */
  lemma EachThen(c: Catalog, cat: Category, names: seq<string>, key: GalleryKey, rest: seq<Write>)
    requires key in c.galleries
    ensures Linked(ApplyAll(c, Each(cat, key.galleryId, names) + rest), cat, names, key)
    ensures Grows(c, ApplyAll(c, Each(cat, key.galleryId, names) + rest))
  {
    var ws := Each(cat, key.galleryId, names);
    var c1 := ApplyAll(c, ws);
    EachLinks(c, cat, key.galleryId, names, key);
    ApplyAllConcat(c, ws, rest);
    ApplyAllProperties(c1, rest);
    LinkedKept(c1, ApplyAll(c1, rest), cat, names, key);
    ApplyAllProperties(c, ws);
    GrowsTransitive(c, c1, ApplyAll(c1, rest));
  }

  /** One name's statements are its `insert_into_*` call. */
  lemma EachOfOne(cat: Category, id: int, name: string)
    ensures Each(cat, id, [name]) == InsertInto(cat, id, name)
  {
    assert [name][1..] == [];
    assert Each(cat, id, []) == [];
    assert InsertInto(cat, id, name) + [] == InsertInto(cat, id, name);
  }

  /** The entity statements, grouped from the right. */
  lemma EntityWritesSplit(f: Fields, tagWrites: seq<Write>)
    ensures var id := f.galleryId;
      EntityWrites(f, tagWrites)
      == Each(Artist, id, f.artists) + (Each(Character, id, f.characters) + (Each(Group, id, f.groups)
        + (Each(Language, id, [f.language]) + (Each(Series, id, f.series) + tagWrites))))
  {
    var id := f.galleryId;
    EachOfOne(Language, id, f.language);
    Regroup(Each(Artist, id, f.artists), Each(Character, id, f.characters), Each(Group, id, f.groups),
      Each(Language, id, [f.language]), Each(Series, id, f.series), tagWrites);
  }

  lemma Regroup<T>(a: seq<T>, b: seq<T>, c: seq<T>, d: seq<T>, e: seq<T>, f: seq<T>)
    ensures a + b + c + d + e + f == a + (b + (c + (d + (e + f))))
  {
    assert a + b + c + d + e + f == a + (b + c + d + e + f);
    assert b + c + d + e + f == b + (c + d + e + f);
    assert c + d + e + f == c + (d + e + f);
  }

  /** The entity statements link every entity to a gallery that exists
      before them. */
  lemma EntityWritesLink(c: Catalog, f: Fields, tagWrites: seq<Write>, tags: seq<(string, int)>, key: GalleryKey)
    requires key in c.galleries && key.galleryId == f.galleryId
    requires TagPairs(tagWrites, tags, f.galleryId)
    ensures Filed(c, ApplyAll(c, EntityWrites(f, tagWrites)), f, tags, key)
  {
    var id := f.galleryId;
    var a := Each(Artist, id, f.artists);
    var ch := Each(Character, id, f.characters);
    var gr := Each(Group, id, f.groups);
    var la := Each(Language, id, [f.language]);
    var se := Each(Series, id, f.series);
    var w4 := se + tagWrites;
    var w3 := la + w4;
    var w2 := gr + w3;
    var w1 := ch + w2;
    EachOfOne(Language, id, f.language);
    EntityWritesSplit(f, tagWrites);
    var after := ApplyAll(c, a + w1);
    EachThen(c, Artist, f.artists, key, w1);
    var c1 := ApplyAll(c, a);
    ApplyAllProperties(c, a);
    ApplyAllConcat(c, a, w1);
    EachThen(c1, Character, f.characters, key, w2);
    var c2 := ApplyAll(c1, ch);
    ApplyAllProperties(c1, ch);
    ApplyAllConcat(c1, ch, w2);
    EachThen(c2, Group, f.groups, key, w3);
    var c3 := ApplyAll(c2, gr);
    ApplyAllProperties(c2, gr);
    ApplyAllConcat(c2, gr, w3);
    EachThen(c3, Language, [f.language], key, w4);
    var c4 := ApplyAll(c3, la);
    ApplyAllProperties(c3, la);
    ApplyAllConcat(c3, la, w4);
    EachThen(c4, Series, f.series, key, tagWrites);
    var c5 := ApplyAll(c4, se);
    ApplyAllProperties(c4, se);
    ApplyAllConcat(c4, se, tagWrites);
    TagPairsLink(c5, tagWrites, tags, key);
    assert Linked(after, Language, [f.language], key);
  }

  /** Filing a Hitomi gallery: when its type resolves, the gallery exists
      under "hitomi" afterwards (holding this row if it was new) and every
      entity is linked to it, each tag under its lower-cased name without
      the sex prefix and with that prefix's sex. */
  lemma HitomiFilesGallery(c: Catalog, g: Gallery, location: string)
    requires TypeOk(c, g.fields)
    ensures var after := ApplyAll(c, HitomiWrites(g, location));
      var key := GalleryKey("hitomi", g.fields.galleryId);
      Filed(c, after, g.fields, HitomiTagRows(g.fields.tags), key)
      && (forall i :: 0 <= i < |g.fields.tags| ==>
            ((Lower(ClassifyTag(g.fields.tags[i]).0), ClassifyTag(g.fields.tags[i]).1), key) in after.tagLinks)
      && (key !in c.galleries ==> after.galleries[key] == RowOf(g, location, "hitomi"))
  {
    var f := g.fields;
    var key := GalleryKey("hitomi", f.galleryId);
    var head := GalleryHead(f.typeName, "hitomi", f.galleryId, RowOf(g, location, "hitomi"));
    var rest := EntityWrites(f, HitomiTags(f.galleryId, f.tags));
    LowerFixed("hitomi");
    GalleryStep(c, f.typeName, "hitomi", f.galleryId, RowOf(g, location, "hitomi"));
    var c3 := ApplyAll(c, head);
    ApplyAllConcat(c, head, rest);
    HitomiTagPairs(f.galleryId, f.tags);
    EntityWritesLink(c3, f, HitomiTags(f.galleryId, f.tags), HitomiTagRows(f.tags), key);
    HitomiRowsLinked(ApplyAll(c3, rest), f.tags, key);
    GrowsTransitive(c, c3, ApplyAll(c3, rest));
  }

  /** Statements other than a gallery row never add a gallery. */
  lemma {:induction false} NoGalleryWrites(c: Catalog, ws: seq<Write>)
    requires forall i :: 0 <= i < |ws| ==> !ws[i].InsertGallery?
    ensures ApplyAll(c, ws).galleries == c.galleries
    decreases |ws|
  {
    if |ws| > 0 {
      NoGalleryWrites(Apply(c, ws[0]), ws[1..]);
    }
  }

  /** The other side of `TypeOk`: a new gallery whose type name has upper
      case letters, and whose exact spelling is not yet a type, is never
      filed, because `Types` holds only the lower-cased name. */
  lemma HitomiUnresolvedType(c: Catalog, g: Gallery, location: string)
    requires !TypeOk(c, g.fields)
    requires GalleryKey("hitomi", g.fields.galleryId) !in c.galleries
    ensures GalleryKey("hitomi", g.fields.galleryId) !in ApplyAll(c, HitomiWrites(g, location)).galleries
  {
    var f := g.fields;
    var head := GalleryHead(f.typeName, "hitomi", f.galleryId, RowOf(g, location, "hitomi"));
    var rest := EntityWrites(f, HitomiTags(f.galleryId, f.tags));
    var c1 := Apply(c, head[0]);
    var c2 := Apply(c1, head[1]);
    assert (Type, f.typeName) !in c2.names;
    ApplyAllSteps(c, head);
    ApplyAllConcat(c, head, rest);
    NoGalleryWrites(ApplyAll(c, head), rest) by {
      HitomiTagsNoGallery(f.galleryId, f.tags);
      EntityNoGallery(f, HitomiTags(f.galleryId, f.tags));
    }
  }

  lemma EntityNoGallery(f: Fields, tagWrites: seq<Write>)
    requires forall i :: 0 <= i < |tagWrites| ==> !tagWrites[i].InsertGallery?
    ensures forall i :: 0 <= i < |EntityWrites(f, tagWrites)| ==> !EntityWrites(f, tagWrites)[i].InsertGallery?
  {
    var id := f.galleryId;
    EachNoGallery(Artist, id, f.artists);
    EachNoGallery(Character, id, f.characters);
    EachNoGallery(Group, id, f.groups);
    EachNoGallery(Series, id, f.series);
    var ws := Each(Artist, id, f.artists);
    NoGalleryConcat(ws, Each(Character, id, f.characters));
    ws := ws + Each(Character, id, f.characters);
    NoGalleryConcat(ws, Each(Group, id, f.groups));
    ws := ws + Each(Group, id, f.groups);
    NoGalleryConcat(ws, InsertInto(Language, id, f.language));
    ws := ws + InsertInto(Language, id, f.language);
    NoGalleryConcat(ws, Each(Series, id, f.series));
    ws := ws + Each(Series, id, f.series);
    NoGalleryConcat(ws, tagWrites);
  }

  lemma NoGalleryConcat(a: seq<Write>, b: seq<Write>)
    requires forall i :: 0 <= i < |a| ==> !a[i].InsertGallery?
    requires forall i :: 0 <= i < |b| ==> !b[i].InsertGallery?
    ensures forall i :: 0 <= i < |a + b| ==> !(a + b)[i].InsertGallery?
  {
    forall i | |a| <= i < |a + b| ensures !(a + b)[i].InsertGallery? {
      assert (a + b)[i] == b[i - |a|];
    }
  }

  lemma EachNoGallery(cat: Category, id: int, names: seq<string>)
    ensures forall i :: 0 <= i < |Each(cat, id, names)| ==> !Each(cat, id, names)[i].InsertGallery?
  {
    var r := Each(cat, id, names);
    forall i | 0 <= i < |r| ensures !r[i].InsertGallery? {
      assert r[2 * (i / 2)] == InsertName(cat, Lower(names[i / 2]));
    }
  }

  lemma HitomiTagsNoGallery(id: int, tags: seq<string>)
    ensures forall i :: 0 <= i < |HitomiTags(id, tags)| ==> !HitomiTags(id, tags)[i].InsertGallery?
  {
    var r := HitomiTags(id, tags);
    forall i | 0 <= i < |r| ensures !r[i].InsertGallery? {
      var k := i / 2;
      var t := ClassifyTag(tags[k]);
      if i == 2 * k {
        assert r[i] == InsertTag(Lower(t.0), t.1);
      } else {
        assert r[2 * k + 1] == LinkTag(Lower(t.0), id);
      }
    }
  }

  // The nhentai service's `insert_into_table`.

  /** A call that may raise after queueing some statements. */
  datatype Run = Run(queued: seq<Write>, raised: Option<Exception>)

  /** The media-id helper, which the nhentai manager defines but
      `insert_into_table` looks up on the shared manager. */
  const MediaIdHelper: string := "_insert_into_nhentai_media_id"

  /** The shared manager has no such attribute. */
  lemma HelperNotShared()
    ensures LookupAll([MediaIdHelper]) == Err(AttributeError)
  {
    assert MediaIdHelper !in Attributes;
  }

  /** `insert_into_table` as written: the type and source statements are
      queued, then the helper is looked up on the shared manager. The
      lookup raises, so what was queued is a proper start of the corrected
      sequence, without its gallery row. */
  function NhentaiRunAsWritten(g: Gallery, location: string): (r: Run)
    ensures r.raised == Some(AttributeError)
    ensures r.queued < NhentaiWrites(g, location)
    ensures forall i :: 0 <= i < |r.queued| ==> !r.queued[i].InsertGallery?
  {
    var f := g.fields;
    var head := InsertIntoName(Type, f.typeName) + InsertIntoName(Source, "nhentai");
    HelperNotShared();
    assert GalleryHead(f.typeName, "nhentai", f.galleryId, RowOf(g, location, "nhentai"))
      == head + InsertIntoGalleries(f.galleryId, RowOf(g, location, "nhentai"));
    match LookupAll([MediaIdHelper])
    case Err(e) => Run(head, Some(e))
    case Ok(_) => Run(NhentaiWritesInSourceOrder(g, location), None)
  }

  /** As written, filing an nhentai gallery stops after the type and
      source rows: no gallery, junction or media-id row is ever added, and
      what was queued is the start of the corrected sequence. */
  lemma NhentaiAsWrittenFilesNothing(c: Catalog, g: Gallery, location: string)
    ensures var after := ApplyAll(c, NhentaiRunAsWritten(g, location).queued);
      after.galleries == c.galleries && after.links == c.links
      && after.tagLinks == c.tagLinks && after.mediaIds == c.mediaIds
    ensures NhentaiRunAsWritten(g, location).queued <= NhentaiWrites(g, location)
  {
    ApplyAllSteps(c, NhentaiRunAsWritten(g, location).queued);
  }

  /** The media id of a record, or none for a Hitomi record. */
  function MediaIdOf(f: Fields): Option<int> {
    if f.extra.NhentaiExtra? then Some(f.extra.mediaId) else None
  }

  /** `_insert_into_nhentai_media_id`. */
  function InsertIntoMediaId(id: int, media: Option<int>): seq<Write> {
    match media
    case Some(m) => [LinkMediaId(m, id)]
    case None => []
  }

  /** The statement order of the source with the helper resolved: the
      media-id row is queued before the gallery row it selects. */
  function NhentaiWritesInSourceOrder(g: Gallery, location: string): seq<Write> {
    var f := g.fields;
    (InsertIntoName(Type, f.typeName) + InsertIntoName(Source, "nhentai")
     + InsertIntoMediaId(f.galleryId, MediaIdOf(f)))
    + (InsertIntoGalleries(f.galleryId, RowOf(g, location, "nhentai"))
       + EntityWrites(f, PlainTags(f.galleryId, f.tags)))
  }

  /** In that order a gallery with a new id never gets its media id: the
      junction row's `SELECT` runs before any gallery with the id exists. */
  lemma MediaIdLostInSourceOrder(c: Catalog, g: Gallery, location: string)
    requires g.fields.extra.NhentaiExtra?
    requires forall k :: k in c.galleries ==> k.galleryId != g.fields.galleryId
    requires forall l :: l in c.mediaIds ==> l.1.galleryId != g.fields.galleryId
    ensures var after := ApplyAll(c, NhentaiWritesInSourceOrder(g, location));
      forall k :: (g.fields.extra.mediaId, k) !in after.mediaIds || k.galleryId != g.fields.galleryId
  {
    var f := g.fields;
    var id := f.galleryId;
    var head := InsertIntoName(Type, f.typeName) + InsertIntoName(Source, "nhentai")
      + InsertIntoMediaId(id, MediaIdOf(f));
    var entities := EntityWrites(f, PlainTags(id, f.tags));
    var rest := InsertIntoGalleries(id, RowOf(g, location, "nhentai")) + entities;
    assert head == [head[0], head[1], LinkMediaId(f.extra.mediaId, id)] && head[0].InsertName? && head[1].InsertName?;
    PlainTagsNoMedia(id, f.tags);
    EntityNoMedia(f, PlainTags(id, f.tags));
    forall i | 0 <= i < |rest| ensures !rest[i].LinkMediaId? {
      if i > 0 { assert rest[i] == entities[i - 1]; }
    }
    LinkedBeforeGallery(c, head, rest, f.extra.mediaId, id);
  }

  /** A media-id row queued after two name inserts, for an id no gallery
      has, followed only by statements that add no media id: the gallery
      never gets a media-id row. */
  lemma LinkedBeforeGallery(c: Catalog, head: seq<Write>, rest: seq<Write>, m: int, id: int)
    requires |head| == 3 && head[0].InsertName? && head[1].InsertName? && head[2] == LinkMediaId(m, id)
    requires forall k :: k in c.galleries ==> k.galleryId != id
    requires forall l :: l in c.mediaIds ==> l.1.galleryId != id
    requires forall i :: 0 <= i < |rest| ==> !rest[i].LinkMediaId?
    ensures forall k :: (m, k) !in ApplyAll(c, head + rest).mediaIds || k.galleryId != id
  {
    var c3 := ApplyAll(c, head);
    assert head == [head[0], head[1], LinkMediaId(m, id)];
    NamesThenMediaId(c, head[0], head[1], m, id);
    ApplyAllConcat(c, head, rest);
    NoMediaIdWrites(c3, rest);
  }

  /** Two name inserts and then a media-id row for an id no gallery has:
      the row selects nothing. */
  lemma NamesThenMediaId(c: Catalog, w0: Write, w1: Write, m: int, id: int)
    requires w0.InsertName? && w1.InsertName?
    requires forall k :: k in c.galleries ==> k.galleryId != id
    ensures ApplyAll(c, [w0, w1, LinkMediaId(m, id)]).mediaIds == c.mediaIds
  {
    var c2 := Apply(Apply(c, w0), w1);
    assert WithId(c2, id) == {};
    ApplyAllSteps(c, [w0, w1, LinkMediaId(m, id)]);
  }

  /** Statements other than a media-id row never add one. */
  lemma {:induction false} NoMediaIdWrites(c: Catalog, ws: seq<Write>)
    requires forall i :: 0 <= i < |ws| ==> !ws[i].LinkMediaId?
    ensures ApplyAll(c, ws).mediaIds == c.mediaIds
    decreases |ws|
  {
    if |ws| > 0 {
      NoMediaIdWrites(Apply(c, ws[0]), ws[1..]);
    }
  }

  lemma EntityNoMedia(f: Fields, tagWrites: seq<Write>)
    requires forall i :: 0 <= i < |tagWrites| ==> !tagWrites[i].LinkMediaId?
    ensures forall i :: 0 <= i < |EntityWrites(f, tagWrites)| ==> !EntityWrites(f, tagWrites)[i].LinkMediaId?
  {
    var id := f.galleryId;
    EachNoMedia(Artist, id, f.artists);
    EachNoMedia(Character, id, f.characters);
    EachNoMedia(Group, id, f.groups);
    EachNoMedia(Series, id, f.series);
    var ws := Each(Artist, id, f.artists);
    NoMediaConcat(ws, Each(Character, id, f.characters));
    ws := ws + Each(Character, id, f.characters);
    NoMediaConcat(ws, Each(Group, id, f.groups));
    ws := ws + Each(Group, id, f.groups);
    NoMediaConcat(ws, InsertInto(Language, id, f.language));
    ws := ws + InsertInto(Language, id, f.language);
    NoMediaConcat(ws, Each(Series, id, f.series));
    ws := ws + Each(Series, id, f.series);
    NoMediaConcat(ws, tagWrites);
  }

  lemma NoMediaConcat(a: seq<Write>, b: seq<Write>)
    requires forall i :: 0 <= i < |a| ==> !a[i].LinkMediaId?
    requires forall i :: 0 <= i < |b| ==> !b[i].LinkMediaId?
    ensures forall i :: 0 <= i < |a + b| ==> !(a + b)[i].LinkMediaId?
  {
    forall i | |a| <= i < |a + b| ensures !(a + b)[i].LinkMediaId? {
      assert (a + b)[i] == b[i - |a|];
    }
  }

  lemma EachNoMedia(cat: Category, id: int, names: seq<string>)
    ensures forall i :: 0 <= i < |Each(cat, id, names)| ==> !Each(cat, id, names)[i].LinkMediaId?
  {
    var r := Each(cat, id, names);
    forall i | 0 <= i < |r| ensures !r[i].LinkMediaId? {
      assert r[2 * (i / 2)] == InsertName(cat, Lower(names[i / 2]));
    }
  }

  lemma PlainTagsNoMedia(id: int, tags: seq<string>)
    ensures forall i :: 0 <= i < |PlainTags(id, tags)| ==> !PlainTags(id, tags)[i].LinkMediaId?
  {
    var r := PlainTags(id, tags);
    forall i | 0 <= i < |r| ensures !r[i].LinkMediaId? {
      var k := i / 2;
      if i == 2 * k {
        assert r[i] == InsertTag(Lower(tags[k]), -1);
      } else {
        assert r[2 * k + 1] == LinkTag(Lower(tags[k]), id);
      }
    }
  }

  /** The corrected nhentai filing: type, source "nhentai", the gallery
      row, its media id, then the entities with every tag at sex -1. */
  function NhentaiWrites(g: Gallery, location: string): seq<Write> {
    var f := g.fields;
    GalleryHead(f.typeName, "nhentai", f.galleryId, RowOf(g, location, "nhentai"))
    + (InsertIntoMediaId(f.galleryId, MediaIdOf(f)) + EntityWrites(f, PlainTags(f.galleryId, f.tags)))
  }

  /** Once the gallery row exists, the media-id statement links it. */
  lemma MediaLinkStep(c: Catalog, f: Fields, key: GalleryKey)
    requires f.extra.NhentaiExtra? && key in c.galleries && key.galleryId == f.galleryId
    ensures var after := ApplyAll(c, InsertIntoMediaId(f.galleryId, MediaIdOf(f)));
      (f.extra.mediaId, key) in after.mediaIds && Grows(c, after)
  {
    var media := InsertIntoMediaId(f.galleryId, MediaIdOf(f));
    assert media == [LinkMediaId(f.extra.mediaId, f.galleryId)];
    ApplyAllSteps(c, media);
    assert key in WithId(c, f.galleryId);
    ApplyProperties(c, media[0]);
  }

  /** With the media-id row after the gallery row, a resolved nhentai
      gallery is filed with its media id and all its entities, each tag
      under its lower-cased name with sex -1. */
  lemma NhentaiFilesGallery(c: Catalog, g: Gallery, location: string)
    requires g.fields.extra.NhentaiExtra?
    requires TypeOk(c, g.fields)
    ensures var after := ApplyAll(c, NhentaiWrites(g, location));
      var key := GalleryKey("nhentai", g.fields.galleryId);
      Filed(c, after, g.fields, PlainTagRows(g.fields.tags), key)
      && (forall i :: 0 <= i < |g.fields.tags| ==> ((Lower(g.fields.tags[i]), -1), key) in after.tagLinks)
      && (g.fields.extra.mediaId, key) in after.mediaIds
      && (key !in c.galleries ==> after.galleries[key] == RowOf(g, location, "nhentai"))
  {
    var f := g.fields;
    var id := f.galleryId;
    var key := GalleryKey("nhentai", id);
    var head := GalleryHead(f.typeName, "nhentai", id, RowOf(g, location, "nhentai"));
    var media := InsertIntoMediaId(id, MediaIdOf(f));
    var rest := EntityWrites(f, PlainTags(id, f.tags));
    assert media == [LinkMediaId(f.extra.mediaId, id)];
    LowerFixed("nhentai");
    GalleryStep(c, f.typeName, "nhentai", id, RowOf(g, location, "nhentai"));
    var c3 := ApplyAll(c, head);
    var c4 := ApplyAll(c3, media);
    MediaLinkStep(c3, f, key);
    ApplyAllConcat(c, head, media + rest);
    ApplyAllConcat(c3, media, rest);
    PlainTagPairs(id, f.tags);
    EntityWritesLink(c4, f, PlainTags(id, f.tags), PlainTagRows(f.tags), key);
    PlainRowsLinked(ApplyAll(c4, rest), f.tags, key);
    GrowsTransitive(c, c3, c4);
    GrowsTransitive(c, c4, ApplyAll(c4, rest));
  }
}
