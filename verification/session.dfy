/** The download session controller (`downloader/base_classes/service.py`
    and the services' `main.py`). The Qt state machine becomes a state
    and an event step; each slot becomes a step from the session record
    to the updated record plus the calls it makes next, in order. */
module Session {
  import opened Wrappers
  import opened Text
  import opened StatusTables
  import opened Metadata
  import opened SharedManager

  // The state machine.

  /** The three states, with the codes assigned to the machine's "state"
      property on entry. */
  datatype MachineState = Idle | Initializing | Downloading

  function StateCode(m: MachineState): (r: int)
    ensures 0 <= r <= 2
  {
    match m
    case Idle => 0
    case Initializing => 1
    case Downloading => 2
  }

  /** The two signals the machine has transitions for. */
  datatype MachineEvent = DownloadClicked | SessionInitialized

  /** The transitions: idle to initialising on the download button, and
      initialising to downloading on `_session_initialized`; every other
      signal leaves the state as it is. */
  function Step(m: MachineState, e: MachineEvent): MachineState {
    match (m, e)
    case (Idle, DownloadClicked) => Initializing
    case (Initializing, SessionInitialized) => Downloading
    case _ => m
  }

  /** Each state is entered from exactly one state on exactly one signal. */
  lemma StepEntries(m: MachineState, e: MachineEvent)
    ensures Step(m, e) != m ==>
      (m == Idle && e == DownloadClicked && Step(m, e) == Initializing)
      || (m == Initializing && e == SessionInitialized && Step(m, e) == Downloading)
    ensures Step(m, e) == Downloading <==> m == Downloading || (m == Initializing && e == SessionInitialized)
    ensures Step(m, e) == Initializing <==> (m == Idle && e == DownloadClicked) || (m == Initializing && e != SessionInitialized)
  {
  }

  /** What `_machine_stop_slot` does before restarting the machine. */
  datatype StopEffects = StopEffects(deinitialize: bool, endSession: bool)

  /** Stopping ends the session (deinitialisation and summary) from the
      downloading state, only deinitialises from the initialising state,
      and always restarts the machine in the idle state. */
  function OnStop(m: MachineState): (r: (StopEffects, MachineState))
    ensures r.1 == Idle
    ensures r.0.endSession <==> StateCode(m) == 2
    ensures r.0.deinitialize <==> StateCode(m) != 0
  {
    var code := StateCode(m);
    if code == 2 then (StopEffects(true, true), Idle)
    else if code == 1 then (StopEffects(true, false), Idle)
    else (StopEffects(false, false), Idle)
  }

  // The filter.

  /** The user's three filter sets. */
  datatype Filter = Filter(languagesToInclude: set<string>, tagsBlacklist: set<string>, typesBlacklist: set<string>)

  const LanguageReason: string := "Language not match"
  const TagsReason: string := "Tags blacklist match"
  const TypesReason: string := "Types blacklist match"

  predicate LanguagePasses(f: Filter, language: string) {
    f.languagesToInclude == {} || language in f.languagesToInclude
  }

  predicate TagsPass(f: Filter, tags: seq<string>) {
    forall t :: t in f.tagsBlacklist ==> t !in tags
  }

  /** `_pass_through_filter`: the reason of the first rule that rejects
      the gallery, or none when it passes all three. */
  function PassThroughFilter(f: Filter, language: string, tags: seq<string>, typeName: string): (r: Option<string>)
    ensures r == None <==> LanguagePasses(f, language) && TagsPass(f, tags) && typeName !in f.typesBlacklist
    ensures r == Some(LanguageReason) <==> !LanguagePasses(f, language)
    ensures r == Some(TagsReason) <==> LanguagePasses(f, language) && !TagsPass(f, tags)
    ensures r == Some(TypesReason) <==>
      LanguagePasses(f, language) && TagsPass(f, tags) && typeName in f.typesBlacklist
  {
    if f.languagesToInclude != {} && language !in f.languagesToInclude then Some(LanguageReason)
    else if f.tagsBlacklist != {} && exists t :: t in f.tagsBlacklist && t in tags then Some(TagsReason)
    else if f.typesBlacklist != {} && typeName in f.typesBlacklist then Some(TypesReason)
    else None
  }

  /** Empty sets never filter. */
  lemma EmptyFilterPasses(language: string, tags: seq<string>, typeName: string)
    ensures PassThroughFilter(Filter({}, {}, {}), language, tags, typeName) == None
  {
  }

  // The session record.

  datatype Service = Hitomi | Nhentai

  /** The session summary's counters. */
  datatype Summary = Summary(
    itemsCompleted: nat, itemsInvalid: nat,
    galleriesDownloaded: nat, galleriesFiltered: nat, galleriesAlreadyDownloaded: nat,
    filesDownloaded: nat, filesAlreadyDownloaded: nat,
    totalDownloadSize: int, totalTimeTaken: int)

  const NewSummary: Summary := Summary(0, 0, 0, 0, 0, 0, 0, 0, 0)

  /** The counters only go up. The download size is left out: it adds
      each file's recorded size, which is -1 when the size is unknown. */
  predicate CountersGrow(a: Summary, b: Summary) {
    a.itemsCompleted <= b.itemsCompleted && a.itemsInvalid <= b.itemsInvalid
    && a.galleriesDownloaded <= b.galleriesDownloaded && a.galleriesFiltered <= b.galleriesFiltered
    && a.galleriesAlreadyDownloaded <= b.galleriesAlreadyDownloaded
    && a.filesDownloaded <= b.filesDownloaded && a.filesAlreadyDownloaded <= b.filesAlreadyDownloaded
  }

  /** Every gallery the session meets is counted once: as filtered,
      already downloaded or downloaded. */
  function GalleryCount(m: Summary): nat {
    m.galleriesDownloaded + m.galleriesFiltered + m.galleriesAlreadyDownloaded
  }

  /** The file generator of the current gallery: the files-table cursor is
      the file whose URL was last handed out, and `resent` records that the
      file itself was handed back after a `send(True)`. */
  datatype Session = Session(
    service: Service,
    downloadType: string,
    filter: Filter,
    summary: Summary,
    items: ItemsTable,
    gallery: Option<Gallery>,
    files: FilesTable,
    fileUrls: seq<string>,
    resent: bool,
    replyInFlight: bool)

  predicate Wf(s: Session) {
    ItemsWf(s.items) && ItemsLabelled(s.items) && FilesWf(s.files) && |s.fileUrls| == FileCount(s.files)
  }

  /** What a slot calls next: another slot of the controller, or a request
      to the extractor, catalog, downloader, transport or machine. */
  datatype Action =
    | ContinueItem
    | ContinueGallery
    | EndGallery
    | BeginFileDownload
    | FetchNozomi(nozomiUrl: string)
    | FetchPage(pageUrl: string)
    | FetchCdnServer(cdnGalleryId: int)
    | FetchGalleryMetadata(galleryId: int)
    | LookupGallery(lookupId: int)
    | Download
    | StartFileDownload(url: string)
    | InsertIntoTable
    | AbortReply
    | StopMachine

  // Item parsing in `_initialize_session`.

  const GalleryIds: string := "Gallery ID(s)"
  const Tags: string := "Tag(s)"

  /** Hitomi's tag shorthand: "f:" becomes "female:", then "m:" becomes
      "male:", case-sensitively and before lower-casing. */
  function ExpandTagPrefixes(text: string): string {
    Replace(Replace(text, "f:", "female:"), "m:", "male:")
  }

  /** The item names of a session: the lower-cased input split on commas,
      each piece stripped (Hitomi, after the tag shorthand for tag
      downloads) or stripped with its spaces turned into "-" (nhentai);
      `add_item` strips each name once more. */
  function ItemNames(service: Service, downloadType: string, text: string): (r: seq<string>)
    ensures |r| == CountChar(text, ',') + 1
    ensures forall i :: 0 <= i < |r| ==> ',' !in r[i] && IsLower(r[i]) && Strip(r[i]) == r[i]
    ensures service == Nhentai ==> forall i :: 0 <= i < |r| ==> ' ' !in r[i]
  {
    ExpandKeepsCommas(text);
    var expanded := if service == Hitomi && downloadType == Tags then ExpandTagPrefixes(text) else text;
    LowerKeepsCount(expanded, ',');
    SplitCount(Lower(expanded), ',');
    LowerIsLower(expanded);
    var pieces := Split(Lower(expanded), ',');
    PiecesLower(Lower(expanded), pieces);
    if service == Hitomi then
      seq(|pieces|, i requires 0 <= i < |pieces| => CleanHitomi(pieces[i]))
    else
      seq(|pieces|, i requires 0 <= i < |pieces| => CleanNhentai(pieces[i]))
  }

  /** The tag shorthand adds and removes no commas, so it keeps the number
      of items. */
  lemma ExpandKeepsCommas(text: string)
    ensures CountChar(ExpandTagPrefixes(text), ',') == CountChar(text, ',')
  {
    ReplaceKeepsCount(text, "f:", "female:", ',');
    ReplaceKeepsCount(Replace(text, "f:", "female:"), "m:", "male:", ',');
  }

  /** The pieces of a lower-case text are lower case. */
  lemma PiecesLower(s: string, pieces: seq<string>)
    requires IsLower(s) && pieces == Split(s, ',')
    ensures forall i :: 0 <= i < |pieces| ==> IsLower(pieces[i])
  {
    JoinSplit(s, ',');
    forall i | 0 <= i < |pieces| ensures IsLower(pieces[i]) {
      JoinedPiece(pieces, ',', i);
      LowerFromChars(pieces[i], s);
    }
  }

  /** A text whose characters all occur in a lower-case text, or are "-",
      is lower case. */
  lemma LowerFromChars(a: string, b: string)
    requires IsLower(b) && forall c :: c in a ==> c in b || c == '-'
    ensures IsLower(a)
  {
    forall k | 0 <= k < |a| ensures !('A' <= a[k] <= 'Z') {
      if a[k] != '-' {
        assert a[k] in b;
        var j :| 0 <= j < |b| && b[j] == a[k];
      }
    }
  }

  /** Every character of a piece occurs in the joined text. */
  lemma {:induction false} JoinedPiece(parts: seq<string>, sep: char, i: nat)
    requires i < |parts|
    ensures forall c :: c in parts[i] ==> c in Join(sep, parts)
    decreases |parts|
  {
    if |parts| > 1 {
      if i > 0 {
        JoinedPiece(parts[1..], sep, i - 1);
        assert parts[1..][i - 1] == parts[i];
      }
      assert Join(sep, parts) == parts[0] + [sep] + Join(sep, parts[1..]);
    }
  }

  /** Stripping keeps only characters of the text. */
  lemma StripChars(s: string)
    ensures forall c :: c in Strip(s) ==> c in s
  {
    var r := Strip(s);
    var k :| 0 <= k <= |s| - |r| && OccursAt(s, r, k);
    OccurrenceChars(s, r, k);
  }

  /** A text holds every character of a text occurring in it. */
  lemma OccurrenceChars(s: string, r: string, k: int)
    requires OccursAt(s, r, k)
    ensures forall c :: c in r ==> c in s
  {
    forall c | c in r ensures c in s {
      var j :| 0 <= j < |r| && r[j] == c;
      assert s[k..k + |r|][j] == s[k + j];
    }
  }

  function CleanHitomi(piece: string): (r: string)
    requires ',' !in piece && IsLower(piece)
    ensures ',' !in r && IsLower(r) && Strip(r) == r
  {
    StripChars(piece);
    StripIdempotent(piece);
    Strip(Strip(piece))
  }

  function CleanNhentai(piece: string): (r: string)
    requires ',' !in piece && IsLower(piece)
    ensures ',' !in r && ' ' !in r && IsLower(r) && Strip(r) == r
  {
    var dashed := ReplaceChar(Strip(piece), ' ', "-");
    DashedChars(piece);
    StripChars(dashed);
    StripIdempotent(dashed);
    LowerFromChars(Strip(dashed), piece);
    Strip(dashed)
  }

  /** The stripped piece with its spaces dashed holds only the piece's
      characters other than spaces, and "-". */
  lemma DashedChars(piece: string)
    ensures forall c :: c in ReplaceChar(Strip(piece), ' ', "-") ==> (c in piece && c != ' ') || c == '-'
  {
    var t := Strip(piece);
    StripChars(piece);
    ReplaceCharChars(t, ' ', "-");
    forall c | c in ReplaceChar(t, ' ', "-") ensures (c in piece && c != ' ') || c == '-' {
      assert c in "-" || (c in t && c != ' ');
    }
  }

  /** A character of a replacement's result is the replacement text's or
      one of the original's. */
  lemma {:induction false} ReplaceCharChars(s: string, pat: char, repl: string)
    ensures forall c :: c in ReplaceChar(s, pat, repl) ==> c in repl || (c in s && c != pat)
    decreases |s|
  {
    if |s| > 0 {
      ReplaceCharChars(s[1..], pat, repl);
      assert forall c :: c in s[1..] ==> c in s;
    }
  }

  /** `_initialize_session` once the catalog manager is in hand: a fresh
      summary, the filter, and one Pending row per item name, in order. */
  function InitializeSession(service: Service, downloadType: string, text: string, filter: Filter): (r: Session)
    ensures Wf(r) && r.summary == NewSummary && r.items.cursor == -1
    ensures ItemCount(r.items) == CountChar(text, ',') + 1
    ensures r.items.itemName == ItemNames(service, downloadType, text)
    ensures forall i :: 0 <= i < ItemCount(r.items) ==>
      r.items.status[i] == ItemPending && r.items.downloadType[i] == downloadType
  {
    var names := ItemNames(service, downloadType, text);
    Session(service, downloadType, filter, NewSummary, AddItems(names, downloadType),
            None, NewFiles([]), [], false, false)
  }

  /** Only the Hitomi session announces that it is initialised; the
      nhentai one never does, so its machine never leaves the
      initialising state. */
  function InitializedSignal(service: Service): (r: Option<MachineEvent>)
    ensures r.Some? <==> service == Hitomi
  {
    if service == Hitomi then Some(SessionInitialized) else None
  }

  // Obtaining the catalog manager in `_initialize_session`.

  /** What `_initialize_session` asks of the shared catalog manager before
      it builds the items table: the keywords its service manager passes on
      to `get_instance`, and the signal names it then connects. */
  datatype ManagerUse = ManagerUse(keywords: seq<string>, signals: seq<string>)

  /** As written: Hitomi builds its manager with `parent=self`; nhentai
      connects the two signals under names without the leading underscore. */
  function UseAsWritten(service: Service): ManagerUse {
    match service
    case Hitomi => ManagerUse(["parent"], [])
    case Nhentai => ManagerUse([], [Signals[1][1..], Signals[2][1..]])
  }

  /** As evidently intended: no keyword, and the signals as declared. */
  function UseIntended(service: Service): ManagerUse {
    match service
    case Hitomi => ManagerUse([], [])
    case Nhentai => ManagerUse([], [Signals[1], Signals[2]])
  }

  /** `_initialize_session` with the manager used as `use` says: a keyword
      raises TypeError, then a name the manager lacks raises
      AttributeError, and only otherwise is the session built. */
  function StartSession(service: Service, use: ManagerUse, downloadType: string, text: string, filter: Filter): (r: Result<Session, Exception>)
    ensures r.Ok? <==> use.keywords == [] && LookupAll(use.signals).Ok?
    ensures r.Ok? ==> r.value == InitializeSession(service, downloadType, text, filter)
    ensures r.Err? ==> r.error == (if use.keywords != [] then TypeError else AttributeError)
  {
    match GetInstance(use.keywords)
    case Err(e) => Err(e)
    case Ok(_) =>
      match LookupAll(use.signals)
      case Err(e) => Err(e)
      case Ok(_) => Ok(InitializeSession(service, downloadType, text, filter))
  }

  /** The machine after the download button and `_initialize_session`: it
      reaches downloading exactly when the session is built and announced,
      and otherwise stays initialising. */
  function AfterStart(service: Service, use: ManagerUse, downloadType: string, text: string, filter: Filter): (r: MachineState)
    ensures r == Downloading <==> service == Hitomi && StartSession(service, use, downloadType, text, filter).Ok?
    ensures r != Downloading ==> r == Initializing
  {
    var built := StartSession(service, use, downloadType, text, filter).Ok?;
    var m := Step(Idle, DownloadClicked);
    assert m == Initializing;
    var signal := if built then InitializedSignal(service) else None;
    assert signal == (if built && service == Hitomi then Some(SessionInitialized) else None);
    Announced(m, signal)
  }

  /** The machine after a signal, if one is emitted. */
  function Announced(m: MachineState, e: Option<MachineEvent>): (r: MachineState)
    ensures e.None? ==> r == m
  {
    match e
    case Some(event) => Step(m, event)
    case None => m
  }

  /** As written neither service builds a session: Hitomi's raises
      TypeError and nhentai's AttributeError, so no items table is built
      and the machine stays initialising. */
  lemma AsWrittenNeverStarts(service: Service, downloadType: string, text: string, filter: Filter)
    ensures StartSession(service, UseAsWritten(service), downloadType, text, filter)
      == Err(if service == Hitomi then TypeError else AttributeError)
    ensures AfterStart(service, UseAsWritten(service), downloadType, text, filter) == Initializing
  {
    ConnectedSignals();
  }

  /** As intended both services build the session, and the Hitomi one
      alone is announced and moves the machine on to downloading. */
  lemma IntendedStarts(service: Service, downloadType: string, text: string, filter: Filter)
    ensures StartSession(service, UseIntended(service), downloadType, text, filter)
      == Ok(InitializeSession(service, downloadType, text, filter))
    ensures AfterStart(service, UseIntended(service), downloadType, text, filter)
      == (if service == Hitomi then Downloading else Initializing)
  {
    ConnectedSignals();
  }

  // Item slots.

  /** The row the cursor is on, as the status index of `get_current_index`. */
  function SetCurrentItem(s: Session, value: int): (r: Session)
    requires Wf(s) && ItemStatusLabel(value).Some?
    ensures Wf(r) && r.(items := s.items) == s
    ensures r.items == SetItemData(s.items, s.items.cursor, value, "status").1
  {
    SetItemKeepsLabels(s.items, s.items.cursor, value, "status");
    s.(items := SetItemData(s.items, s.items.cursor, value, "status").1)
  }

  /** `_begin_item_download` with the item's download URL or gallery id:
      for gallery-id downloads a text that is not an integer makes the item
      invalid and an integer fetches that gallery (Hitomi) or its CDN page
      (nhentai); other downloads fetch the listing and mark the item
      downloading. */
  function BeginItem(s: Session, urlOrId: string): (r: (Session, seq<Action>))
    requires Wf(s)
    ensures Wf(r.0) && CountersGrow(s.summary, r.0.summary)
    ensures s.downloadType == GalleryIds && ParseInt(urlOrId).None? ==> r == ItemInvalidSlot(s)
    ensures s.downloadType == GalleryIds && ParseInt(urlOrId).Some? ==>
      r == (s, [if s.service == Hitomi then FetchGalleryMetadata(ParseInt(urlOrId).value)
                else FetchCdnServer(ParseInt(urlOrId).value)])
    ensures s.downloadType != GalleryIds ==>
      r == (SetCurrentItem(s, ItemDownloading), [if s.service == Hitomi then FetchNozomi(urlOrId) else FetchPage(urlOrId)])
  {
    if s.downloadType == GalleryIds then
      match ParseInt(urlOrId)
      case None => ItemInvalidSlot(s)
      case Some(id) =>
        (s, [if s.service == Hitomi then FetchGalleryMetadata(id) else FetchCdnServer(id)])
    else
      (SetCurrentItem(s, ItemDownloading), [if s.service == Hitomi then FetchNozomi(urlOrId) else FetchPage(urlOrId)])
  }

  /** `_continue_item_download` (and `_begin_session`), given the
      extractor's `get_download_item_url`: the next item begins, or, when
      the items are exhausted, the machine stops. */
  function ContinueItems(s: Session, itemUrl: string -> string): (r: (Session, seq<Action>))
    requires Wf(s)
    ensures Wf(r.0) && CountersGrow(s.summary, r.0.summary)
    ensures s.items.cursor + 1 >= ItemCount(s.items) ==> r == (s.(items := s.items.(cursor := -1)), [StopMachine])
    ensures s.items.cursor + 1 < ItemCount(s.items) ==>
      r == BeginItem(s.(items := s.items.(cursor := s.items.cursor + 1)), itemUrl(s.items.itemName[s.items.cursor + 1]))
  {
    var (items', next) := NextItem(s.items);
    match next
    case None => (s.(items := items'), [StopMachine])
    case Some(row) => BeginItem(s.(items := items'), itemUrl(row.itemName))
  }

  /** `_end_item_download`: the item counts as completed, its row is
      marked completed, and the next item follows. */
  function EndItem(s: Session): (r: (Session, seq<Action>))
    requires Wf(s)
    ensures Wf(r.0) && r.1 == [ContinueItem] && CountersGrow(s.summary, r.0.summary)
    ensures r.0.summary == s.summary.(itemsCompleted := s.summary.itemsCompleted + 1)
    ensures r.0.items.status == (if s.items.cursor >= 0 then s.items.status[s.items.cursor := ItemCompleted] else s.items.status)
    ensures r.0.(items := s.items, summary := s.summary) == s && r.0.items.itemName == s.items.itemName
  {
    var s' := SetCurrentItem(s, ItemCompleted);
    (s'.(summary := s.summary.(itemsCompleted := s.summary.itemsCompleted + 1)), [ContinueItem])
  }

  /** `_item_invalid_slot`: the item counts as invalid, its row is marked
      invalid, and the next item follows. */
  function ItemInvalidSlot(s: Session): (r: (Session, seq<Action>))
    requires Wf(s)
    ensures Wf(r.0) && r.1 == [ContinueItem] && CountersGrow(s.summary, r.0.summary)
    ensures r.0.summary == s.summary.(itemsInvalid := s.summary.itemsInvalid + 1)
    ensures r.0.items.status == (if s.items.cursor >= 0 then s.items.status[s.items.cursor := ItemInvalid] else s.items.status)
    ensures r.0.(items := s.items, summary := s.summary) == s && r.0.items.itemName == s.items.itemName
  {
    var s' := SetCurrentItem(s, ItemInvalid);
    (s'.(summary := s.summary.(itemsInvalid := s.summary.itemsInvalid + 1)), [ContinueItem])
  }

  // Gallery slots.

  /** `_metadata_ready_slot`: a gallery the filter rejects counts as
      filtered and the next gallery follows; any other becomes the current
      gallery and is looked up in the catalog. */
  function MetadataReady(s: Session, g: Gallery): (r: (Session, seq<Action>))
    requires Wf(s)
    ensures Wf(r.0) && CountersGrow(s.summary, r.0.summary) && r.0.(summary := s.summary, gallery := s.gallery) == s
    ensures var passes := PassThroughFilter(s.filter, g.fields.language, g.fields.tags, g.fields.typeName).None?;
      && GalleryCount(r.0.summary) == GalleryCount(s.summary) + (if passes then 0 else 1)
      && r.0.summary.galleriesFiltered == s.summary.galleriesFiltered + (if passes then 0 else 1)
      && (r.1 == [LookupGallery(g.fields.galleryId)] <==> passes)
      && (r.1 == [ContinueGallery] <==> !passes)
      && r.0.gallery == (if passes then Some(g) else s.gallery)
  {
    match PassThroughFilter(s.filter, g.fields.language, g.fields.tags, g.fields.typeName)
    case Some(_) =>
      (s.(summary := s.summary.(galleriesFiltered := s.summary.galleriesFiltered + 1)), [ContinueGallery])
    case None => (s.(gallery := Some(g)), [LookupGallery(g.fields.galleryId)])
  }

  /** The keywords of the catalog lookup in `_metadata_ready_slot` as
      written, and as `get` declares them. */
  const LookupKeywordsAsWritten: seq<string> := ["get_callback", "select", "filter", "join"]
  const LookupKeywordsIntended: seq<string> := ["callback", "select", "filter_clause", "join"]

  /** `_metadata_ready_slot` with the lookup's keywords: the session is
      updated as `MetadataReady` says; a filtered gallery never reaches the
      lookup, and for any other the lookup raises TypeError unless its
      keywords bind to `get`'s parameters. */
  function MetadataReadyWith(s: Session, g: Gallery, keywords: seq<string>): (r: (Session, Result<seq<Action>, Exception>))
    requires Wf(s)
    ensures r.0 == MetadataReady(s, g).0
    ensures r.1.Ok? ==> r.1.value == MetadataReady(s, g).1
    ensures r.1.Err? <==>
      PassThroughFilter(s.filter, g.fields.language, g.fields.tags, g.fields.typeName).None? && CallGet(keywords).Err?
    ensures r.1.Err? ==> r.1.error == TypeError
  {
    var (s1, next) := MetadataReady(s, g);
    match PassThroughFilter(s.filter, g.fields.language, g.fields.tags, g.fields.typeName)
    case Some(_) => (s1, Ok(next))
    case None =>
      match CallGet(keywords)
      case Err(e) => (s1, Err(e))
      case Ok(_) => (s1, Ok(next))
  }

  /** As written every gallery the filter lets through raises at the
      lookup (`get` has no `get_callback` and no `filter`), so none is ever
      looked up, downloaded or filed. */
  lemma AsWrittenLookupRaises(s: Session, g: Gallery)
    requires Wf(s) && PassThroughFilter(s.filter, g.fields.language, g.fields.tags, g.fields.typeName).None?
    ensures MetadataReadyWith(s, g, LookupKeywordsAsWritten).1 == Err(TypeError)
  {
    assert "get_callback" !in GetParameters;
  }

  /** With `get`'s own keywords every gallery goes through the slot as
      `MetadataReady` says. */
  lemma IntendedLookupIssued(s: Session, g: Gallery)
    requires Wf(s)
    ensures MetadataReadyWith(s, g, LookupKeywordsIntended) == (MetadataReady(s, g).0, Ok(MetadataReady(s, g).1))
  {
    assert forall i :: 0 <= i < |LookupKeywordsIntended| ==> LookupKeywordsIntended[i] in GetParameters;
  }

  /** The catalog's answer counts as "already downloaded" unless it is
      `[]` or `[[]]`. */
  predicate AlreadyDownloaded<T(==)>(rows: seq<seq<T>>) {
    rows != [] && rows != [[]]
  }

  /** `_ignore_or_download_gallery`: a gallery already in the catalog is
      counted and skipped; otherwise its files are prepared. */
  function LookupFinished<T(==)>(s: Session, rows: seq<seq<T>>): (r: (Session, seq<Action>))
    requires Wf(s)
    ensures Wf(r.0) && CountersGrow(s.summary, r.0.summary) && r.0.(summary := s.summary) == s
    ensures GalleryCount(r.0.summary) == GalleryCount(s.summary) + (if AlreadyDownloaded(rows) then 1 else 0)
    ensures r.0.summary.galleriesAlreadyDownloaded > s.summary.galleriesAlreadyDownloaded <==> AlreadyDownloaded(rows)
    ensures r.1 == [BeginFileDownload] <==> !AlreadyDownloaded(rows)
    ensures r.1 == [ContinueGallery] <==> AlreadyDownloaded(rows)
  {
    if AlreadyDownloaded(rows) then
      (s.(summary := s.summary.(galleriesAlreadyDownloaded := s.summary.galleriesAlreadyDownloaded + 1)), [ContinueGallery])
    else (s, [BeginFileDownload])
  }

  /** The progress bar's file total: one for a Hitomi gallery with a video
      file, else its page count. nhentai always uses the page count. */
  function FileTotal(g: Gallery): int {
    if g.fields.extra.HitomiExtra? && g.fields.extra.videoFilename.Some? then 1 else g.pages
  }

  /** `_begin_file_download`, given the current gallery's formatted file
      names and the URL of each file: a fresh files table, a fresh file
      generator, and the downloader is started. */
  function BeginFiles(s: Session, formatted: seq<string>, urls: seq<string>): (r: (Session, seq<Action>))
    requires Wf(s) && |urls| == |formatted|
    ensures Wf(r.0) && r.1 == [Download] && r.0.summary == s.summary && r.0.items == s.items
    ensures r.0.files == NewFiles(formatted) && r.0.fileUrls == urls && !r.0.resent
  {
    (s.(files := NewFiles(formatted), fileUrls := urls, resent := false), [Download])
  }

  /** `_continue_gallery_download`, given the extractor's next gallery id
      (-1 when the listing is exhausted; for nhentai the id of the next
      (server, id) pair): the next gallery's metadata is fetched, or
      nothing happens and the extractor ends the item. */
  function ContinueGalleries(s: Session, nextId: int): (r: (Session, seq<Action>))
    ensures r.0 == s
    ensures r.1 == [] <==> nextId == -1
    ensures forall a :: a in r.1 ==> a == FetchGalleryMetadata(nextId)
  {
    (s, if nextId != -1 then [FetchGalleryMetadata(nextId)] else [])
  }

  /** `_end_gallery_download`: the gallery counts as downloaded, is filed
      in the catalog, and the next gallery follows. */
  function EndGalleryDownload(s: Session): (r: (Session, seq<Action>))
    ensures CountersGrow(s.summary, r.0.summary) && r.0.(summary := s.summary) == s
    ensures GalleryCount(r.0.summary) == GalleryCount(s.summary) + 1
    ensures r.0.summary.galleriesDownloaded == s.summary.galleriesDownloaded + 1
    ensures r.1 == [InsertIntoTable, ContinueGallery]
  {
    (s.(summary := s.summary.(galleriesDownloaded := s.summary.galleriesDownloaded + 1)), [InsertIntoTable, ContinueGallery])
  }

  // The file generator.

  /** What the generator hands out. */
  datatype Yielded = FileUrl(index: nat, url: string) | FileBack(fileIndex: nat) | Exhausted

  /** `next(generator)`: the next file's URL (the files table's cursor
      moves with it), or exhaustion after the last file. */
  function GenNext(s: Session): (r: (Session, Yielded))
    requires Wf(s)
    ensures Wf(r.0) && r.0.summary == s.summary && r.0.items == s.items && r.0.fileUrls == s.fileUrls && !r.0.resent
    ensures s.files.cursor + 1 < FileCount(s.files) ==>
      r.1 == FileUrl(s.files.cursor + 1, s.fileUrls[s.files.cursor + 1])
      && r.0.files == s.files.(cursor := s.files.cursor + 1)
    ensures s.files.cursor + 1 >= FileCount(s.files) ==> r.1 == Exhausted && r.0.files == s.files
  {
    if s.files.cursor + 1 < FileCount(s.files) then
      var c := s.files.cursor + 1;
      (s.(files := NextFile(s.files).0, resent := false), FileUrl(c, s.fileUrls[c]))
    else (s.(resent := false), Exhausted)
  }

  /** `generator.send(True)` after a URL: the same file is handed back so
      its URL can be rebuilt; a second send moves on as `next` would. */
  function GenSendTrue(s: Session): (r: (Session, Yielded))
    requires Wf(s) && s.files.cursor >= 0
    ensures Wf(r.0)
    ensures !s.resent ==> r == (s.(resent := true), FileBack(s.files.cursor))
    ensures s.resent ==> r == GenNext(s)
  {
    if !s.resent then (s.(resent := true), FileBack(s.files.cursor)) else GenNext(s)
  }

  /** The session's reaction to what the generator hands out. */
  function AfterGen(s: Session, y: Yielded): seq<Action> {
    match y
    case FileUrl(_, url) => [StartFileDownload(url)]
    case FileBack(_) => []
    case Exhausted => [EndGallery]
  }

  /** The `k` things `next` hands out from cursor `c`: the URL of each
      file after the cursor, then exhaustion for ever. */
  function Expected(urls: seq<string>, c: int, k: nat): (r: seq<Yielded>)
    requires -1 <= c
    ensures |r| == k
  {
    seq(k, i requires 0 <= i < k => if c + 1 + i < |urls| then FileUrl(c + 1 + i, urls[c + 1 + i]) else Exhausted)
  }

  /** `k` successive `next` calls: the generator's state after them and
      what each handed out. */
  function GenRun(s: Session, k: nat): (r: (Session, seq<Yielded>))
    requires Wf(s)
    ensures Wf(r.0) && |r.1| == k
    decreases k
  {
    if k == 0 then (s, [])
    else
      var (s1, y) := GenNext(s);
      var (s2, ys) := GenRun(s1, k - 1);
      (s2, [y] + ys)
  }

  /** Successive `next` calls hand out every remaining file's URL in
      order, then only exhaustion. */
  lemma {:induction false} GeneratorInOrder(s: Session, k: nat)
    requires Wf(s)
    ensures GenRun(s, k).1 == Expected(s.fileUrls, s.files.cursor, k)
    decreases k
  {
    if k > 0 {
      var (s1, y) := GenNext(s);
      GeneratorInOrder(s1, k - 1);
      assert GenRun(s, k).1 == [y] + GenRun(s1, k - 1).1;
      ExpectedJoin(s.fileUrls, s.files.cursor, s1.files.cursor, k, y, GenRun(s1, k - 1).1);
    }
  }

  /** What one `next` hands out, followed by what is expected from the
      cursor it leaves, is what is expected from the cursor before it. */
  lemma ExpectedJoin(urls: seq<string>, c: int, c1: int, k: nat, y: Yielded, rest: seq<Yielded>)
    requires -1 <= c && k > 0 && -1 <= c1 && rest == Expected(urls, c1, k - 1)
    requires c + 1 < |urls| ==> y == FileUrl(c + 1, urls[c + 1]) && c1 == c + 1
    requires c + 1 >= |urls| ==> y == Exhausted && c1 == c
    ensures [y] + rest == Expected(urls, c, k)
  {
    ExpectedStep(urls, c, k);
    if c + 1 >= |urls| {
      ExpectedDone(urls, c, k - 1);
    }
  }

  /** The first thing handed out from cursor `c`, then the rest from the
      next cursor. */
  lemma ExpectedStep(urls: seq<string>, c: int, k: nat)
    requires -1 <= c && k > 0
    ensures Expected(urls, c, k)
      == [if c + 1 < |urls| then FileUrl(c + 1, urls[c + 1]) else Exhausted] + Expected(urls, c + 1, k - 1)
  {
    var e := Expected(urls, c, k);
    var e1 := Expected(urls, c + 1, k - 1);
    forall i | 1 <= i < k ensures e[i] == e1[i - 1] {
    }
  }

  /** Past the last file, moving the cursor changes nothing. */
  lemma ExpectedDone(urls: seq<string>, c: int, k: nat)
    requires -1 <= c && c + 1 >= |urls|
    ensures Expected(urls, c, k) == Expected(urls, c + 1, k)
  {
  }

  /** A fresh generator hands out the URLs of all the files in order and
      is then exhausted. */
  lemma FreshGeneratorInOrder(s: Session, formatted: seq<string>, urls: seq<string>)
    requires Wf(s) && |urls| == |formatted|
    ensures GenRun(BeginFiles(s, formatted, urls).0, |urls| + 1).1
      == seq(|urls|, i requires 0 <= i < |urls| => FileUrl(i, urls[i])) + [Exhausted]
  {
    var s0 := BeginFiles(s, formatted, urls).0;
    assert Wf(s0) && s0.fileUrls == urls && s0.files.cursor == -1;
    GeneratorFromStart(s0, urls);
  }

  lemma GeneratorFromStart(s0: Session, urls: seq<string>)
    requires Wf(s0) && s0.fileUrls == urls && s0.files.cursor == -1
    ensures GenRun(s0, |urls| + 1).1
      == seq(|urls|, i requires 0 <= i < |urls| => FileUrl(i, urls[i])) + [Exhausted]
  {
    GeneratorInOrder(s0, |urls| + 1);
    ExpectedFromStart(urls);
  }

  lemma ExpectedFromStart(urls: seq<string>)
    ensures Expected(urls, -1, |urls| + 1)
      == seq(|urls|, i requires 0 <= i < |urls| => FileUrl(i, urls[i])) + [Exhausted]
  {
    var e := Expected(urls, -1, |urls| + 1);
    var want := seq(|urls|, i requires 0 <= i < |urls| => FileUrl(i, urls[i])) + [Exhausted];
    forall i | 0 <= i < |e| ensures e[i] == want[i] {
      if i < |urls| {
        assert want[i] == FileUrl(i, urls[i]);
      }
    }
  }

  /** After a URL, `send(True)` hands back that file, and the following
      `next` hands out the URL of the file after it. */
  lemma ResendThenNext(s: Session)
    requires Wf(s) && !s.resent && 0 <= s.files.cursor
    ensures GenSendTrue(s).1 == FileBack(s.files.cursor)
    ensures s.files.cursor + 1 < FileCount(s.files) ==>
      GenNext(GenSendTrue(s).0).1 == FileUrl(s.files.cursor + 1, s.fileUrls[s.files.cursor + 1])
  {
  }

  /** `_get_file_slot`, on the downloader's `get_file` signal: a new
      generator for the gallery hands out the first file's URL, which is
      downloaded, or the gallery ends when it has no files. */
  function GetFileSlot(s: Session): (r: (Session, seq<Action>))
    requires Wf(s) && s.files.cursor == -1
    ensures Wf(r.0) && r.0.summary == s.summary
    ensures FileCount(s.files) > 0 ==> r.1 == [StartFileDownload(s.fileUrls[0])] && r.0.files.cursor == 0
    ensures FileCount(s.files) == 0 ==> r.1 == [EndGallery]
  {
    var (s1, y) := GenNext(s);
    (s1, AfterGen(s, y))
  }

  /** Hitomi's `_gg_error_handled_slot`, given how a file's URL is built
      from the refreshed gg.js: `send(True)` hands the current file back,
      and its URL is rebuilt and downloaded again. A second refresh for the
      same file resumes the generator past the file: it hands out the next
      file's URL, a string with no `haswebp`, so the slot raises
      AttributeError, or after the last file StopIteration escapes. */
  function GgErrorHandled(s: Session, fileUrl: nat -> string): (r: (Session, Result<seq<Action>, Exception>))
    requires Wf(s) && 0 <= s.files.cursor
    ensures Wf(r.0) && r.0.summary == s.summary && r.0.items == s.items
    ensures !s.resent ==> r.0.files == s.files && r.0.resent && r.1 == Ok([StartFileDownload(fileUrl(s.files.cursor))])
    ensures s.resent && s.files.cursor + 1 < FileCount(s.files) ==>
      r.1 == Err(AttributeError) && r.0.files.cursor == s.files.cursor + 1
    ensures s.resent && s.files.cursor + 1 >= FileCount(s.files) ==> r.1 == Err(StopIteration)
  {
    var (s1, y) := GenSendTrue(s);
    match y
    case FileBack(i) => (s1, Ok([StartFileDownload(fileUrl(i))]))
    case FileUrl(_, _) => (s1, Err(AttributeError))
    case Exhausted => (s1, Err(StopIteration))
  }

  // File slots.

  /** `_end_file_download`: the file counts as downloaded, its recorded
      size is added to the total, and the next file's URL is requested
      (or the gallery ends). */
  function EndFile(s: Session): (r: (Session, seq<Action>))
    requires Wf(s) && 0 <= s.files.cursor
    ensures Wf(r.0) && CountersGrow(s.summary, r.0.summary)
    ensures r.0.summary == s.summary.(filesDownloaded := s.summary.filesDownloaded + 1,
      totalDownloadSize := s.summary.totalDownloadSize + s.files.fileSize[s.files.cursor])
    ensures r.1 == AfterGen(s, GenNext(s).1)
  {
    var s1 := s.(summary := s.summary.(filesDownloaded := s.summary.filesDownloaded + 1,
      totalDownloadSize := s.summary.totalDownloadSize + s.files.fileSize[s.files.cursor]));
    var (s2, y) := GenNext(s1);
    (s2, AfterGen(s, y))
  }

  /** `_gallery_file_already_exists_slot`: the file counts as already
      downloaded, its row is marked completed with its progress set to its
      size, and the next file follows. */
  function FileAlreadyExists(s: Session): (r: (Session, seq<Action>))
    requires Wf(s) && 0 <= s.files.cursor
    ensures Wf(r.0) && CountersGrow(s.summary, r.0.summary)
    ensures r.0.summary == s.summary.(filesAlreadyDownloaded := s.summary.filesAlreadyDownloaded + 1)
    ensures r.0.files.status == s.files.status[s.files.cursor := FileCompleted]
    ensures r.0.files.progress == s.files.progress[s.files.cursor := s.files.fileSize[s.files.cursor]]
    ensures r.1 == AfterGen(s, GenNext(s).1)
  {
    var f1 := SetFileData(s.files, s.files.cursor, FileCompleted, "status").1;
    assert f1.status == s.files.status[s.files.cursor := FileCompleted] && f1.progress == s.files.progress
      && f1.fileSize == s.files.fileSize;
    var f2 := SetFileData(f1, s.files.cursor, -1, "progress").1;
    assert f2.status == f1.status && f2.progress == f1.progress[s.files.cursor := f1.fileSize[s.files.cursor]];
    var s1 := s.(summary := s.summary.(filesAlreadyDownloaded := s.summary.filesAlreadyDownloaded + 1), files := f2);
    var (s2, y) := GenNext(s1);
    SameNextUrl(s, s1);
    (s2, AfterGen(s, y))
  }

  /** `next` hands out the same thing from two states that agree on the
      URLs, the file count and the cursor. */
  lemma SameNextUrl(s: Session, s1: Session)
    requires Wf(s) && Wf(s1) && s1.fileUrls == s.fileUrls
    requires s1.files.cursor == s.files.cursor && FileCount(s1.files) == FileCount(s.files)
    ensures GenNext(s1).1 == GenNext(s).1
  {
  }

  // Cancel.

  /** `_output_dialog_canceled_slot`: aborts the reply in flight if there
      is one, marks the current and every later item aborted, and stops
      the machine. */
  function Cancel(s: Session): (r: (Session, seq<Action>))
    requires Wf(s)
    ensures Wf(r.0) && r.0.summary == s.summary && ItemCount(r.0.items) == ItemCount(s.items)
    ensures r.1 == (if s.replyInFlight then [AbortReply] else []) + [StopMachine]
    ensures s.items.cursor >= 0 ==> forall i :: 0 <= i < ItemCount(s.items) ==>
      r.0.items.status[i] == (if i >= s.items.cursor then ItemAborted else s.items.status[i])
    ensures s.items.cursor < 0 ==> r.0.items == s.items
  {
    (SetCurrentItem(s, ItemAborted), (if s.replyInFlight then [AbortReply] else []) + [StopMachine])
  }

  /** One gallery through the gallery slots: its metadata arrives, a
      gallery the filter lets through is looked up in the catalog (with
      answer `rows`), a new one has its files prepared, and once they are
      done it is filed. The file slots in between leave the gallery
      counters alone. */
  function GalleryThroughSlots(s: Session, g: Gallery, rows: seq<seq<int>>, formatted: seq<string>, urls: seq<string>): Session
    requires Wf(s) && |urls| == |formatted|
  {
    var (s1, a1) := MetadataReady(s, g);
    if a1 == [ContinueGallery] then s1
    else
      var (s2, a2) := LookupFinished(s1, rows);
      if a2 == [ContinueGallery] then s2
      else EndGalleryDownload(BeginFiles(s2, formatted, urls).0).0
  }

  /** Each gallery adds exactly one to exactly one of the three gallery
      counters: filtered, already downloaded, or downloaded. */
  lemma EachGalleryCountedOnce(s: Session, g: Gallery, rows: seq<seq<int>>, formatted: seq<string>, urls: seq<string>)
    requires Wf(s) && |urls| == |formatted|
    ensures var m := GalleryThroughSlots(s, g, rows, formatted, urls).summary;
      && GalleryCount(m) == GalleryCount(s.summary) + 1
      && CountersGrow(s.summary, m)
      && m.itemsCompleted == s.summary.itemsCompleted && m.filesDownloaded == s.summary.filesDownloaded
  {
  }

  /** A filtered gallery is counted and skipped: it never reaches the
      catalog lookup nor the downloader. */
  lemma FilteredGallerySkipped(s: Session, g: Gallery)
    requires Wf(s)
    requires PassThroughFilter(s.filter, g.fields.language, g.fields.tags, g.fields.typeName).Some?
    ensures MetadataReady(s, g).0.summary.galleriesFiltered == s.summary.galleriesFiltered + 1
    ensures forall a :: a in MetadataReady(s, g).1 ==> !a.LookupGallery? && a != BeginFileDownload && a != Download
  {
  }
}
