/** The catalog's fixed tables (`database_manager/constants.py`): the eight
    filter keys, the JOIN fragment and the WHERE column of each, and the
    uniqueness constraint of every table. */
module CatalogSchema {
  import opened Wrappers

  datatype Category = Artist | Character | Group | Language | Series | Tag | Type | Source

  /** The keys in the order `JOIN_MAPPING` lists them. */
  const Categories: seq<Category> := [Artist, Character, Group, Language, Series, Tag, Type, Source]

  function Key(c: Category): string {
    match c
    case Artist => "artist"
    case Character => "character"
    case Group => "group"
    case Language => "language"
    case Series => "series"
    case Tag => "tag"
    case Type => "type"
    case Source => "source"
  }

  /** How a category's table reaches `Galleries`: through a junction table
      keyed by `gallery`, or directly through a column of `Galleries`. */
  datatype JoinFragment =
    | ThroughJunction(junction: string, table: string, linkColumn: string, idColumn: string)
    | OnGalleryColumn(table: string, idColumn: string, galleryColumn: string)

  /** `JOIN_MAPPING` */
  const JoinMapping: map<string, JoinFragment> := map[
    "artist" := ThroughJunction("Artist_Gallery", "Artists", "artist", "artist_id"),
    "character" := ThroughJunction("Character_Gallery", "Characters", "character", "character_id"),
    "group" := ThroughJunction("Group_Gallery", "Groups", "group", "group_id"),
    "language" := ThroughJunction("Language_Gallery", "Languages", "language", "language_id"),
    "series" := ThroughJunction("Series_Gallery", "Series", "series", "series_id"),
    "tag" := ThroughJunction("Tag_Gallery", "Tags", "tag", "tag_id"),
    "type" := OnGalleryColumn("Types", "type_id", "type"),
    "source" := OnGalleryColumn("Sources", "source_id", "source")
  ]

  /** The table and name column a category's filter values are compared
      with. */
  function NameColumn(c: Category): (string, string) {
    match c
    case Artist => ("Artists", "artist_name")
    case Character => ("Characters", "character_name")
    case Group => ("Groups", "group_name")
    case Language => ("Languages", "language_name")
    case Series => ("Series", "series_name")
    case Tag => ("Tags", "tag_name")
    case Type => ("Types", "type_name")
    case Source => ("Sources", "source_name")
  }

  /** The quoted `"table"."column"` of a category's name column. */
  function WhereColumn(c: Category): string {
    Quote(NameColumn(c).0) + "." + Quote(NameColumn(c).1)
  }

  /** `WHERE_MAPPING`: the quoted column a filter value is compared with. */
  const WhereMapping: map<string, string> := map[
    "artist" := WhereColumn(Artist),
    "character" := WhereColumn(Character),
    "group" := WhereColumn(Group),
    "language" := WhereColumn(Language),
    "series" := WhereColumn(Series),
    "tag" := WhereColumn(Tag),
    "type" := WhereColumn(Type),
    "source" := WhereColumn(Source)
  ]

  /** The key of a filter term, when it names one of the eight categories. */
  function CategoryOf(key: string): (r: Option<Category>)
    ensures r.Some? ==> Key(r.value) == key
  {
    if key == "artist" then Some(Artist)
    else if key == "character" then Some(Character)
    else if key == "group" then Some(Group)
    else if key == "language" then Some(Language)
    else if key == "series" then Some(Series)
    else if key == "tag" then Some(Tag)
    else if key == "type" then Some(Type)
    else if key == "source" then Some(Source)
    else None
  }

  /** Every category is listed, and its key is in `JOIN_MAPPING`. */
  lemma CategoriesComplete(c: Category)
    ensures c in Categories && Key(c) in JoinMapping
  {
    match c
    case Artist => assert Categories[0] == c;
    case Character => assert Categories[1] == c;
    case Group => assert Categories[2] == c;
    case Language => assert Categories[3] == c;
    case Series => assert Categories[4] == c;
    case Tag => assert Categories[5] == c;
    case Type => assert Categories[6] == c;
    case Source => assert Categories[7] == c;
  }

  /** Both mappings have exactly the same keys, and those are the keys of
      the eight categories. */
  lemma MappingsShareKeys()
    ensures JoinMapping.Keys == WhereMapping.Keys
    ensures forall k :: k in JoinMapping <==> CategoryOf(k).Some?
  {
    forall k | CategoryOf(k).Some? ensures k in JoinMapping {
      CategoriesComplete(CategoryOf(k).value);
    }
  }

  /** A category's key reads back as that category. */
  lemma KeyRoundTrip(c: Category)
    ensures CategoryOf(Key(c)) == Some(c)
  {
  }

  /** "type" and "source" join on a column of `Galleries`; the other six go
      through a junction table whose `gallery` column holds the gallery. */
  lemma DirectJoinsAreTypeAndSource()
    ensures forall k :: k in JoinMapping ==> (JoinMapping[k].OnGalleryColumn? <==> k == "type" || k == "source")
  {
  }

  /** A double-quoted SQL identifier. */
  function Quote(name: string): string { "\"" + name + "\"" }

  /** The SQL text of a fragment: one `JOIN … ON …` line per joined
      table, each ending in a line feed. */
  function JoinSql(f: JoinFragment): string {
    match f
    case ThroughJunction(junction, table, link, id) =>
      "JOIN " + Quote(junction) + " ON " + Quote(junction) + "." + Quote("gallery")
      + "=" + Quote("Galleries") + "." + Quote("gallery_database_id") + "\n"
      + "JOIN " + Quote(table) + " ON " + Quote(junction) + "." + Quote(link)
      + "=" + Quote(table) + "." + Quote(id) + "\n"
    case OnGalleryColumn(table, id, column) =>
      "JOIN " + Quote(table) + " ON " + Quote(table) + "." + Quote(id)
      + "=" + Quote("Galleries") + "." + Quote(column) + "\n"
  }

  lemma QuoteFree(name: string)
    requires '?' !in name
    ensures '?' !in Quote(name)
  {
  }

  predicate FieldsFree(f: JoinFragment) {
    match f
    case ThroughJunction(junction, table, link, id) =>
      '?' !in junction && '?' !in table && '?' !in link && '?' !in id
    case OnGalleryColumn(table, id, column) => '?' !in table && '?' !in id && '?' !in column
  }

  /** A fragment built from placeholder-free names has no placeholder. */
  lemma JoinSqlFree(f: JoinFragment)
    requires FieldsFree(f)
    ensures '?' !in JoinSql(f)
  {
    match f
    case ThroughJunction(junction, table, link, id) =>
      QuoteFree(junction); QuoteFree(table); QuoteFree(link); QuoteFree(id);
      QuoteFree("gallery"); QuoteFree("Galleries"); QuoteFree("gallery_database_id");
    case OnGalleryColumn(table, id, column) =>
      QuoteFree(table); QuoteFree(id); QuoteFree(column); QuoteFree("Galleries");
  }

  /** The JOIN fragment of each category, as `JOIN_MAPPING` lists it. */
  function Fragment(c: Category): JoinFragment {
    match c
    case Artist => ThroughJunction("Artist_Gallery", "Artists", "artist", "artist_id")
    case Character => ThroughJunction("Character_Gallery", "Characters", "character", "character_id")
    case Group => ThroughJunction("Group_Gallery", "Groups", "group", "group_id")
    case Language => ThroughJunction("Language_Gallery", "Languages", "language", "language_id")
    case Series => ThroughJunction("Series_Gallery", "Series", "series", "series_id")
    case Tag => ThroughJunction("Tag_Gallery", "Tags", "tag", "tag_id")
    case Type => OnGalleryColumn("Types", "type_id", "type")
    case Source => OnGalleryColumn("Sources", "source_id", "source")
  }

  lemma FragmentMapped(c: Category)
    ensures Key(c) in JoinMapping && JoinMapping[Key(c)] == Fragment(c)
  {
    match c
    case Artist =>
    case Character =>
    case Group =>
    case Language =>
    case Series =>
    case Tag =>
    case Type =>
    case Source =>
  }

  /** The names in a category's JOIN fragment hold no `?`. */
  lemma FragmentFieldsFree(c: Category)
    ensures FieldsFree(Fragment(c))
  {
    match c
    case Artist => JunctionFree("Artist_Gallery", "Artists", "artist", "artist_id");
    case Character => JunctionFree("Character_Gallery", "Characters", "character", "character_id");
    case Group => JunctionFree("Group_Gallery", "Groups", "group", "group_id");
    case Language => JunctionFree("Language_Gallery", "Languages", "language", "language_id");
    case Series => JunctionFree("Series_Gallery", "Series", "series", "series_id");
    case Tag => JunctionFree("Tag_Gallery", "Tags", "tag", "tag_id");
    case Type => ColumnFree("Types", "type_id", "type");
    case Source => ColumnFree("Sources", "source_id", "source");
  }

  lemma JunctionFree(junction: string, table: string, link: string, id: string)
    requires '?' !in junction && '?' !in table && '?' !in link && '?' !in id
    ensures FieldsFree(ThroughJunction(junction, table, link, id))
  {
  }

  lemma ColumnFree(table: string, id: string, column: string)
    requires '?' !in table && '?' !in id && '?' !in column
    ensures FieldsFree(OnGalleryColumn(table, id, column))
  {
  }

  /** No JOIN fragment puts a `?` placeholder into the query text. */
  lemma JoinHasNoPlaceholder(c: Category)
    ensures Key(c) in JoinMapping && '?' !in JoinSql(JoinMapping[Key(c)])
  {
    FragmentMapped(c);
    FragmentFieldsFree(c);
    JoinSqlFree(JoinMapping[Key(c)]);
  }

  lemma WhereMapped(c: Category)
    ensures Key(c) in WhereMapping && WhereMapping[Key(c)] == WhereColumn(c)
  {
    match c
    case Artist =>
    case Character =>
    case Group =>
    case Language =>
    case Series =>
    case Tag =>
    case Type =>
    case Source =>
  }

  lemma WhereColumnFree(c: Category)
    ensures '?' !in WhereColumn(c)
  {
    var (table, column) := NameColumn(c);
    assert '?' !in table && '?' !in column by {
      match c
      case Artist =>
      case Character =>
      case Group =>
      case Language =>
      case Series =>
      case Tag =>
      case Type =>
      case Source =>
    }
    QuotedPairFree(table, column);
  }

  /** `"table"."column"` has no `?` when neither name has one. */
  lemma QuotedPairFree(table: string, column: string)
    requires '?' !in table && '?' !in column
    ensures '?' !in Quote(table) + "." + Quote(column)
  {
    QuoteFree(table);
    QuoteFree(column);
  }

  /** No WHERE column puts a `?` placeholder into the query text. */
  lemma WhereHasNoPlaceholder(c: Category)
    ensures Key(c) in WhereMapping && '?' !in WhereMapping[Key(c)]
  {
    WhereMapped(c);
    WhereColumnFree(c);
  }

  /** The tables of the catalog. */
  datatype Table =
    | Artists | Characters | Groups | Languages | SeriesTable | Sources | Tags | Types
    | ArtistGallery | CharacterGallery | GroupGallery | LanguageGallery | SeriesGallery | TagGallery
    | MediaIdGallery | Galleries

  /** The columns of each table's UNIQUE constraint in `QUERIES`. */
  function UniqueColumns(t: Table): (r: seq<string>)
    ensures |r| >= 1
  {
    match t
    case Artists => ["artist_name"]
    case Characters => ["character_name"]
    case Groups => ["group_name"]
    case Languages => ["language_name"]
    case SeriesTable => ["series_name"]
    case Sources => ["source_name"]
    case Types => ["type_name"]
    case Tags => ["tag_name", "tag_sex"]
    case ArtistGallery => ["artist", "gallery"]
    case CharacterGallery => ["character", "gallery"]
    case GroupGallery => ["group", "gallery"]
    case LanguageGallery => ["language", "gallery"]
    case SeriesGallery => ["series", "gallery"]
    case TagGallery => ["tag", "gallery"]
    case MediaIdGallery => ["media_id", "gallery"]
    case Galleries => ["source", "gallery_id"]
  }

  predicate IsJunction(t: Table) {
    t.ArtistGallery? || t.CharacterGallery? || t.GroupGallery? || t.LanguageGallery?
    || t.SeriesGallery? || t.TagGallery? || t.MediaIdGallery?
  }

  /** Name tables are unique on their name alone, Tags on (name, sex),
      every junction table on its (entity, gallery) pair, and Galleries on
      (source, gallery_id). */
  lemma UniquenessShapes()
    ensures forall t :: IsJunction(t) ==> |UniqueColumns(t)| == 2 && UniqueColumns(t)[1] == "gallery"
    ensures UniqueColumns(Galleries) == ["source", "gallery_id"]
    ensures UniqueColumns(Tags) == ["tag_name", "tag_sex"]
    ensures forall t :: !IsJunction(t) && t != Galleries && t != Tags ==> |UniqueColumns(t)| == 1
  {
  }
}
