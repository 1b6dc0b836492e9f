# library-of-h download pipeline, catalog and explorer: a Dafny model

library-of-h is a desktop application that downloads galleries from two
sites, Hitomi and nhentai, and files them on disk and in an SQLite catalog.
This project models the parts of the application that make decisions and
shape data:

- the **download session** (`downloader/base_classes/service.py`): its state
  machine, the item and file generators, the filter a gallery must pass, and
  the bookkeeping of the status tables (`download_items_model.py`,
  `download_files_model.py`);
- the **file downloader** (`service_downloader.py`): the HEAD/GET protocol,
  the resume header, the size checks and the progress counter, and the
  pausable timer (`custom_widgets/elapsed_timer.py`);
- the **network access manager** (`network_access_manager.py` and its
  Hitomi subclass): error classification, deferred requests, retries,
  aborts, and the headers each site sends;
- the **extractors** of both services: how a user's selection becomes
  listing addresses, how listing pages and `.nozomi` files become gallery
  ids, how a gallery's JSON becomes a metadata record, and how file URLs are
  derived (Hitomi's `fetch_nozomi.js` included);
- the **metadata records** (`metadata.py`) and the **catalog**
  (`database_manager/main.py`, `constants.py`, the services'
  `database_manager.py`): the filter-clause language, the SQL the explorer's
  query produces, and the writes that file a gallery;
- the **utilities**: `validate_pathname`, the byte-unit choice and the
  preferences store `NestedDict`;
- the **explorer**'s paging (`explorer/image_browser.py`) and its list model
  (`browser_items_model.py`).

Every module is a set of pure functions over immutable datatypes. Network
replies, the clock, the disk and the catalog's answers are parameters; SQL
is modelled as the text and the bound values it would send, and the
catalog's tables as sets of rows with `INSERT OR IGNORE` semantics. Where a
contract speaks of the source's behaviour it is in the source's own terms:
`int()`, `str()`, `split`, `strip`, dictionary lookups and Qt signals.

The modules, one per source component:

| module | models |
|---|---|
| `Wrappers` | `Option` and `Result` |
| `Text` | the Python string operations the source relies on |
| `Json` | JSON values and Python `dict` operations on them |
| `Pathnames` | `miscellaneous/functions.py` |
| `NestedDict` | `miscellaneous/classes/nested_dict.py` |
| `Metadata` | `downloader/base_classes/metadata.py`, `services/hitomi/metadata.py` |
| `StatusTables` | `download_items_model.py`, `download_files_model.py` |
| `Downloader` | `service_downloader.py`, `custom_widgets/elapsed_timer.py` |
| `Transport` | both `network_access_manager.py` files |
| `Session` | `downloader/base_classes/service.py`, the services' `main.py` and `downloader.py` |
| `Extraction` | what the two extractors share |
| `Nozomi` | Hitomi's `.nozomi` format and `checks/fetch_nozomi.js` |
| `HitomiExtractor` | `services/hitomi/extractor.py` |
| `NhentaiExtractor` | `services/nhentai/extractor.py` |
| `CatalogSchema` | `database_manager/constants.py` |
| `CatalogQuery` | `database_manager/main.py`, the read side |
| `CatalogWrites` | `database_manager/main.py` and the services' `database_manager.py`, the write side |
| `SharedManager` | `DatabaseManagerBase` as its users meet it: `get_instance`, its attributes, `get`'s parameters |
| `Explorer` | `explorer/image_browser.py`, `browser_items_model.py` |

## Model

| member | source | states |
|---|---|---|
| Text.Strip | library_of_h/downloader/services/hitomi/main.py:56 | the stripped text sits inside the original, neither end is whitespace, and a text with no whitespace at either end is kept |
| Text.Lower | library_of_h/downloader/services/hitomi/main.py:56 | every character is lower-cased in place and the length is kept |
| Text.Split | library_of_h/downloader/services/hitomi/main.py:56 | there is at least one piece and no piece holds the separator |
| Text.ReplaceChar | library_of_h/downloader/services/nhentai/main.py:62 | a pattern character not in the replacement is gone afterwards, and a text without it is unchanged |
| Text.IntToString | library_of_h/explorer/image_browser.py:170 | `str(i)` is digits with a leading minus exactly for negative numbers |
| Text.NatToStringValue | library_of_h/explorer/image_browser.py:170 | reading back the decimal digits of `str(n)` gives `n` |
| Text.StripIdempotent | library_of_h/explorer/image_browser.py:154 | `int()` strips its argument first; stripping a stripped text changes nothing |
| Text.JoinSplit | library_of_h/downloader/base_classes/metadata.py:74-78 | joining the pieces of `split("/")` with `/` gives back the path |
| Text.SplitJoin | library_of_h/downloader/base_classes/metadata.py:74-78 | splitting a `/`-join of slash-free pieces gives back the pieces |
| Text.SplitCount | library_of_h/downloader/base_classes/metadata.py:37-41 | a text splits into one more piece than it has separators |
| Text.IntToStringParses | library_of_h/explorer/image_browser.py:165-171 | `int(str(i)) == i` for every integer, so the page box reads back the page it shows |
| Text.LowerIsLower | library_of_h/downloader/services/hitomi/main.py:56 | `lower()` leaves no upper-case letter and is idempotent |
| Json.Lookup | library_of_h/downloader/services/hitomi/extractor.py:216 | `get` finds a value exactly when some entry has the key, and the value is one of the dictionary's |
| Json.Member | library_of_h/downloader/services/hitomi/extractor.py:251 | `get` on a value that is not a dictionary fails (AttributeError), and a missing key reads as None |
| Json.Update | library_of_h/miscellaneous/classes/nested_dict.py:153 | after `d[key] = value`, `key` reads `value` and every other key reads as before |
| Json.Remove | library_of_h/miscellaneous/classes/nested_dict.py:99 | after `del d[key]`, `key` is missing and every other key reads as before |
| Json.RemoveUpdateFresh | library_of_h/miscellaneous/classes/nested_dict.py:98-102 | adding a fresh key and deleting it restores the dictionary |
| Pathnames.ValidatePathname | library_of_h/miscellaneous/functions.py:57-77 | each invalid character becomes `-`, every other character is kept, and the result has no invalid character |
| Pathnames.ValidatePathnameIdempotent | library_of_h/miscellaneous/functions.py:57-77 | sanitising twice is sanitising once, and a name is left alone exactly when it is already valid |
| Pathnames.SegmentwiseIsWhole | library_of_h/downloader/base_classes/metadata.py:74-79 | sanitising each `/`-segment and re-joining equals sanitising the whole path |
| Pathnames.UnitIndex | library_of_h/miscellaneous/functions.py:50 | the unit index is 0 below 1024 bytes, and otherwise the largest power of 1024 not above the byte count (the last unit for anything larger) |
| Pathnames.ValueAndUnit | library_of_h/miscellaneous/functions.py:50-54 | the unit is one of B … YiB, and the value times that unit's size is the byte count |
| NestedDict.GetFrom | library_of_h/miscellaneous/classes/nested_dict.py:104-116 | a key path reads a value exactly when its walk reaches a value that is not None; a step through a non-dictionary fails |
| NestedDict.Set | library_of_h/miscellaneous/classes/nested_dict.py:133-153 | the empty path accepts only a dictionary; a successful set of a non-None value reads back |
| NestedDict.SetFailsIffBlocked | library_of_h/miscellaneous/classes/nested_dict.py:148-152 | setting raises KeyError exactly when a non-dictionary sits before the last key |
| NestedDict.SetFrame | library_of_h/miscellaneous/classes/nested_dict.py:148-153 | setting one path leaves every path that diverges from it reading as before |
| NestedDict.Delete | library_of_h/miscellaneous/classes/nested_dict.py:87-102 | the empty path clears the dictionary; otherwise the deleted path no longer reads |
| NestedDict.DeleteIn | library_of_h/miscellaneous/classes/nested_dict.py:93-102 | after a delete no dictionary on the path is left empty |
| NestedDict.DeleteMissingUnchanged | library_of_h/miscellaneous/classes/nested_dict.py:93-99 | deleting under a first key that is absent changes nothing |
| NestedDict.Leaves | library_of_h/miscellaneous/classes/nested_dict.py:163-177 | the leaves `nested_update` visits are non-dictionary values at paths below the current chain |
| NestedDict.LeavesDiverge | library_of_h/miscellaneous/classes/nested_dict.py:163-177 | the leaf paths of a dictionary lie on pairwise diverging paths |
| NestedDict.SetAllReadsBack | library_of_h/miscellaneous/classes/nested_dict.py:173-177 | after setting pairwise diverging leaves, every non-None leaf reads back |
| NestedDict.SetAllKeeps | library_of_h/miscellaneous/classes/nested_dict.py:173-177 | leaves that diverge from a path leave what it reads untouched |
| NestedDict.NestedUpdateReadsBack | library_of_h/miscellaneous/classes/nested_dict.py:158-177 | after `nested_update(mapping)` every non-None leaf of the mapping reads back |
| NestedDict.PrefixOfReadable | library_of_h/miscellaneous/classes/nested_dict.py:109-116 | every prefix of a readable path is readable and holds a dictionary |
| NestedDict.ReadableSettable | library_of_h/miscellaneous/classes/nested_dict.py:148-153 | a path that can be read can be written |
| NestedDict.ReplaceAll | library_of_h/miscellaneous/classes/nested_dict.py:198-211 | `nested_replace` never raises: a missing path ends it quietly |
| NestedDict.NestedReplaceNoNewKeys | library_of_h/miscellaneous/classes/nested_dict.py:179-211 | `nested_replace` only replaces keys that exist: a path unreadable before stays unreadable |
| Downloader.NewTimer | library_of_h/custom_widgets/elapsed_timer.py:5-8 | a new timer reads the raw clock |
| Downloader.Start | library_of_h/custom_widgets/elapsed_timer.py:10-12 | after `start` the reading is the time since the start |
| Downloader.Pause | library_of_h/custom_widgets/elapsed_timer.py:14-15 | `pause` records the reading and the reading keeps advancing |
| Downloader.Resume | library_of_h/custom_widgets/elapsed_timer.py:17-18 | after `resume` the reading continues from the recorded pause reading |
| Downloader.PauseResumeSkipsGap | library_of_h/custom_widgets/elapsed_timer.py:14-21 | a pause followed by a resume leaves the time in between out of the reading |
| Downloader.ResumeWithoutPause | library_of_h/custom_widgets/elapsed_timer.py:10-21 | resuming a started timer that was never paused drops its reading to zero |
| Downloader.RangeRoundTrip | library_of_h/downloader/base_classes/service_downloader.py:130-135 | the Range header of a resume asks for exactly the bytes after the local file's size |
| Downloader.FullRangeIsZero | library_of_h/downloader/base_classes/service_downloader.py:250-252 | the header restored after every GET asks for the whole file |
| Downloader.ProgressValue | library_of_h/downloader/base_classes/service_downloader.py:75-76 | the total kept is the larger of the two, and the received count is shifted by the bytes a restart lost |
| Downloader.Progress | library_of_h/downloader/base_classes/service_downloader.py:71-81 | the largest total never shrinks, and the current file's progress cell gets the shifted count |
| Downloader.ResumedProgressCounts | library_of_h/downloader/base_classes/service_downloader.py:71-76 | after a restart from byte `k`, receiving the rest reports the whole size |
| Downloader.BeginDownload | library_of_h/downloader/base_classes/service_downloader.py:166-191 | the file is opened for writing if closed, its status becomes downloading, the total is reset, the timer restarts and a GET is issued |
| Downloader.Continue | library_of_h/downloader/base_classes/service_downloader.py:120-142 | the file is opened for appending if closed and the GET asks for the bytes after its size |
| Downloader.RemoteSize | library_of_h/downloader/base_classes/service_downloader.py:200-214 | the Content-Length's integer value, or -1 when `int()` rejects it |
| Downloader.RecordedSize | library_of_h/downloader/base_classes/service_downloader.py:230-239 | the second, uncaught conversion raises exactly for a header that is neither empty nor an integer, and otherwise agrees with the first |
| Downloader.HeadFinished | library_of_h/downloader/base_classes/service_downloader.py:193-247 | a handled error does nothing; low disk space stops; a header neither empty nor an integer raises before the size cell is set; otherwise the size cell is set and the file is downloaded unless it is already present at the remote size |
| Downloader.UnknownSizeDownloads | library_of_h/downloader/base_classes/service_downloader.py:200-243 | an empty Content-Length never trips the disk guard, is recorded as -1, and the file is downloaded |
| Downloader.MalformedSizeRaises | library_of_h/downloader/base_classes/service_downloader.py:200-239 | a Content-Length neither empty nor an integer passes the guard as -1 and then raises: nothing is recorded and no download starts |
| Downloader.GetFinished | library_of_h/downloader/base_classes/service_downloader.py:249-297 | the Range header is reset; a disconnect zeroes the speed; a size mismatch re-downloads; otherwise the file is marked finished |
| Downloader.FinishedMeansSizeChecked | library_of_h/downloader/base_classes/service_downloader.py:267-297 | a file is finished exactly when its size matches the remote size or that size is unknown |
| Metadata.SplitTitle | library_of_h/downloader/base_classes/metadata.py:37-41 | no `|` gives the two placeholders; one `|` gives the two halves; more than one raises ValueError |
| Metadata.TitleRoundTrip | library_of_h/downloader/base_classes/metadata.py:37-41 | `original|translated` splits back into its two titles |
| Metadata.PostInit | library_of_h/downloader/base_classes/metadata.py:36-46 | a record exists exactly when the title splits and there are an artist and a group; it takes the first of each and counts the pages (Hitomi's anime: one page) |
| Metadata.Location | library_of_h/downloader/base_classes/metadata.py:74-79 | the location keeps the path's slashes where they are and has no other invalid character |
| Metadata.LocationSegments | library_of_h/downloader/base_classes/metadata.py:74-79 | the location's segments are the path's segments, each sanitised |
| Metadata.Insert | library_of_h/downloader/base_classes/metadata.py:119-123 | one row is added at the end with an empty formatted name, and the other rows stay |
| Metadata.InsertAllRows | library_of_h/downloader/base_classes/metadata.py:119-143 | inserting rows one after another lists them in that order after the existing ones |
| Metadata.SetFormatted | library_of_h/downloader/base_classes/metadata.py:125-126 | only the chosen row's formatted name changes |
| Metadata.SetFormattedNames | library_of_h/downloader/base_classes/metadata.py:81-93 | every row gets its own sanitised name and keeps its other columns |
| Metadata.HitomiInsert | library_of_h/downloader/services/hitomi/metadata.py:47-53 | one six-column row is added at the end with an empty formatted name, and the other rows stay |
| StatusTables.Advance | library_of_h/downloader/custom_sub_classes/download_items_model.py:177-180 | `__next__` moves the cursor one row on, or back to -1 once it passes the last row |
| StatusTables.ItemStatusLabel | library_of_h/downloader/custom_sub_classes/download_items_model.py:26-32 | an item status has a label exactly for the codes -3 … 1 |
| StatusTables.AddItem | library_of_h/downloader/custom_sub_classes/download_items_model.py:46-49 | `add_item` appends a Pending row with the name and type, keeps the other rows and the cursor |
| StatusTables.AddItems | library_of_h/downloader/custom_sub_classes/download_items_model.py:41-49 | a table built by adding names holds them in order, every one Pending, with the cursor before the first |
| StatusTables.SetItemData | library_of_h/downloader/custom_sub_classes/download_items_model.py:76-94 | an invalid index returns False; an abort marks the row and every later row Aborted; another status marks the row alone; other columns change nothing |
| StatusTables.AbortFrom | library_of_h/downloader/custom_sub_classes/download_items_model.py:87-89 | the abort cascade sets -2 from the row to the end and keeps the rows before |
| StatusTables.SetItemKeepsLabels | library_of_h/downloader/custom_sub_classes/download_items_model.py:26-32 | writing a status that has a label keeps every row displayable |
| StatusTables.NextItem | library_of_h/downloader/custom_sub_classes/download_items_model.py:159-193 | `__next__` hands out the row after the cursor, or stops and resets the cursor past the end |
| StatusTables.DrainItemsInOrder | library_of_h/downloader/custom_sub_classes/download_items_model.py:159-193 | successive `__next__` calls hand out the remaining rows in order, then stop once |
| StatusTables.FileStatusLabel | library_of_h/downloader/custom_sub_classes/download_files_model.py:35 | a file status has a label exactly for the codes -1 … 1 |
| StatusTables.NewFiles | library_of_h/downloader/custom_sub_classes/download_files_model.py:39-48 | one row per file name, every number -1, cursor before the first row |
| StatusTables.SetFileData | library_of_h/downloader/custom_sub_classes/download_files_model.py:97-119 | an invalid index returns False; otherwise exactly the named column of that row changes, and a progress of -1 copies the row's size |
| StatusTables.NextFile | library_of_h/downloader/custom_sub_classes/download_files_model.py:213-245 | `__next__` hands out the row after the cursor, or stops and resets the cursor past the end |
| StatusTables.DrainFilesInOrder | library_of_h/downloader/custom_sub_classes/download_files_model.py:213-245 | successive `__next__` calls hand out the remaining file rows in order, then stop once |
| Transport.NewManager | library_of_h/downloader/base_classes/network_access_manager.py:18-65 | a new manager assumes timeouts, has no retry armed, no callback, both request clocks started, and the base headers |
| Transport.SetHeader | library_of_h/downloader/base_classes/network_access_manager.py:67-68 | a raw header replaces the one of the same name and leaves the others |
| Transport.HandleError | library_of_h/downloader/base_classes/network_access_manager.py:136-250 | codes 1-4 and 403 arm a retry; 5 after a timeout reports -4, emits `disconnected` and arms a retry; 5 after `abort()` reports 5 and re-arms the timeout flag; any other code is returned as it is |
| Transport.Abort | library_of_h/downloader/base_classes/network_access_manager.py:74-76 | `abort()` clears the timeout flag |
| Transport.AbortedIsNotTimeout | library_of_h/downloader/base_classes/network_access_manager.py:74-76 | after `abort()` the cancellation reports 5 with no retry and restores the flag; without `abort()` it is a timeout |
| Transport.TerminalCodes | library_of_h/downloader/base_classes/network_access_manager.py:153-239 | success, access denied, not found and every unlisted code change nothing and schedule nothing |
| Transport.Request | library_of_h/downloader/base_classes/network_access_manager.py:94-126 | a supplied callback or slot set replaces the stored one; a request within 2000 ms of the last of its verb waits out the rest; otherwise it is issued and restarts that verb's clock |
| Transport.DeferredThenIssued | library_of_h/downloader/base_classes/network_access_manager.py:39-45 | a deferred request waits a positive time, and the wait timer's call is then issued |
| Transport.VerbsIndependent | library_of_h/downloader/base_classes/network_access_manager.py:33-37 | GET and HEAD are spaced independently |
| Transport.RetryFires | library_of_h/downloader/base_classes/network_access_manager.py:89-92 | the probe targets the probe page and disarms the timer, keeping the stored callback, slots, headers and both request clocks |
| Transport.ProbeOutsideSpacing | library_of_h/downloader/base_classes/network_access_manager.py:89-126 | a request after the probe is deferred or issued exactly as it would have been without the probe |
| Transport.RetryFinished | library_of_h/downloader/base_classes/network_access_manager.py:78-87 | the probe's error is classified like any other; success reconnects and calls the stored callback |
| Transport.ReconnectCallsLastCallback | library_of_h/downloader/base_classes/network_access_manager.py:78-98 | the callback of the last request that supplied one is what a reconnect calls |
| Transport.SiteManager | library_of_h/downloader/services/hitomi/network_access_manager.py:17-27 | a site's manager is the base manager with exactly the Accept and Referer headers added and the base headers kept |
| Transport.NewHitomiManager | library_of_h/downloader/services/hitomi/network_access_manager.py:17-27 | the Hitomi manager adds the Accept header and `https://hitomi.la/` as Referer to the base headers |
| Transport.NewNhentaiManager | library_of_h/downloader/services/nhentai/network_access_manager.py:10-21 | the nhentai manager adds the same Accept header and `https://www.nhentai.net` as Referer |
| Transport.HandleGgError | library_of_h/downloader/services/hitomi/network_access_manager.py:35-57 | access denied and not found while fetching an image fetch `gg.js` again and return the code; every other code is handled as usual |
| Transport.GgAgreesElsewhere | library_of_h/downloader/services/hitomi/network_access_manager.py:35-45 | the gg.js handling returns the same code as the base handling, and differs only for 201 and 203 |
| Transport.HitomiRuntimeError | library_of_h/downloader/services/hitomi/downloader.py:37-43 | anime galleries use the base handling, image galleries the gg.js handling |
| Transport.HitomiGeneratorKind | library_of_h/downloader/services/hitomi/downloader.py:45-50 | the file generator asked for is "anime" exactly for anime galleries and "image" otherwise |
| Session.StateCode | library_of_h/downloader/base_classes/service.py:73-91 | the idle, initialising and downloading states carry the codes 0, 1 and 2 |
| Session.StepEntries | library_of_h/downloader/base_classes/service.py:75-87 | initialising is entered only from idle on the download button, downloading only from initialising on the initialised signal; any other signal leaves the state alone |
| Session.OnStop | library_of_h/downloader/base_classes/service.py:500-505 | stopping ends the session exactly from state 2, deinitialises exactly from states 1 and 2, and the machine is back in idle |
| Session.PassThroughFilter | library_of_h/downloader/base_classes/service.py:124-153 | no reason is given exactly when the language, the tags and the type all pass; otherwise the reason names the first check that fails, language before tags before type |
| Session.EmptyFilterPasses | library_of_h/downloader/base_classes/service.py:124-153 | with empty blacklists every gallery passes |
| Session.ItemNames | library_of_h/downloader/services/hitomi/main.py:52-56 | the item text splits at every comma into that many names, each lower-case, stripped and comma-free; nhentai names have no spaces (they become dashes) |
| Session.ExpandKeepsCommas | library_of_h/downloader/services/hitomi/main.py:52-54 | expanding the "f:" and "m:" tag shorthands adds and removes no commas, so the number of items is that of the typed text |
| Session.CleanHitomi | library_of_h/downloader/services/hitomi/main.py:56 | a Hitomi item name is stripped, lower-case and comma-free |
| Session.CleanNhentai | library_of_h/downloader/services/nhentai/main.py:62 | an nhentai item name is stripped, lower-case, and its inner spaces become dashes |
| Session.InitializeSession | library_of_h/downloader/services/hitomi/main.py:105-112 | a new session has zeroed counters, no current item, and one pending row per typed item, in order, with the session's download type |
| Session.InitializedSignal | library_of_h/downloader/services/hitomi/main.py:118 | the Hitomi session announces that it is initialised and the nhentai session does not |
| Session.StartSession | library_of_h/downloader/services/hitomi/main.py:63-118 | a keyword passed on to `get_instance` raises TypeError, a signal name the manager lacks raises AttributeError, and only otherwise is the session built |
| Session.AfterStart | library_of_h/downloader/base_classes/service.py:73-91 | the machine reaches downloading exactly when a Hitomi session is built and announced, and otherwise stays initialising |
| Session.AsWrittenNeverStarts | library_of_h/downloader/services/nhentai/main.py:68-74 | as written Hitomi's start raises TypeError and nhentai's AttributeError, and the machine stays initialising |
| Session.IntendedStarts | library_of_h/downloader/services/hitomi/main.py:63-118 | with no keyword and the declared signal names both services build the session, and only Hitomi's reaches downloading |
| Session.BeginItem | library_of_h/downloader/services/hitomi/main.py:173-199 | a gallery-id item whose text is not an integer becomes invalid; an integer fetches that gallery (Hitomi) or its CDN page (nhentai); other items fetch their listing and are marked downloading; no counter goes down |
| Session.ContinueItems | library_of_h/downloader/base_classes/service.py:190-198 | the next item begins with its own download URL, or, past the last item, the machine stops and the cursor resets |
| Session.SetCurrentItem | library_of_h/downloader/base_classes/service.py:252-256 | only the items table changes, and it changes as `setData` on the cursor row's status would change it |
| Session.EndItem | library_of_h/downloader/base_classes/service.py:240-258 | the completed counter alone rises by one, the current row alone becomes completed, and the next item follows |
| Session.ItemInvalidSlot | library_of_h/downloader/base_classes/service.py:401-418 | the invalid counter alone rises by one, the current row alone becomes invalid, and the next item follows |
| Session.MetadataReady | library_of_h/downloader/base_classes/service.py:458-470 | a gallery the filter rejects adds one to the filtered count and the next gallery follows; one it lets through becomes the current gallery and is looked up in the catalog, with no count changed |
| Session.MetadataReadyWith | library_of_h/downloader/base_classes/service.py:458-470 | the session changes as `MetadataReady` says; the slot raises TypeError exactly when the gallery passes the filter and the lookup's keywords do not bind to `get` |
| Session.AsWrittenLookupRaises | library_of_h/downloader/base_classes/service.py:465-470 | as written every gallery that passes the filter raises at the catalog lookup |
| Session.IntendedLookupIssued | library_of_h/database_manager/main.py:444-452 | with `get`'s own keywords every gallery goes through the slot as `MetadataReady` says |
| Session.LookupFinished | library_of_h/downloader/base_classes/service.py:445-456 | a gallery found in the catalog adds one to the already-downloaded count and is skipped; one not found goes on to its files, with no count changed |
| Session.BeginFiles | library_of_h/downloader/services/hitomi/main.py:219-249 | a gallery's files start from a fresh files table, one pending row per file, with a fresh generator and unchanged counters and items |
| Session.ContinueGalleries | library_of_h/downloader/services/hitomi/main.py:252-261 | the session is unchanged, and the next gallery's metadata is fetched unless the listing is exhausted |
| Session.EndGalleryDownload | library_of_h/downloader/services/hitomi/main.py:264-273 | the downloaded-galleries count rises by one, the gallery is filed in the catalog, then the next gallery follows |
| Session.EachGalleryCountedOnce | library_of_h/downloader/base_classes/service.py:458-470 | a gallery going through the gallery slots adds exactly one to the filtered, already-downloaded and downloaded counts together, and the item and file counts are unchanged |
| Session.GenNext | library_of_h/downloader/services/hitomi/main.py:151-170 | the generator hands out the URL of the file after the cursor and moves the cursor to it, or is exhausted after the last file |
| Session.GenSendTrue | library_of_h/downloader/services/hitomi/main.py:151-170 | after a URL, sending True hands back that same file once; a second send moves on |
| Session.GeneratorInOrder | library_of_h/downloader/services/hitomi/main.py:151-170 | successive calls hand out every remaining file's URL in order, then only exhaustion |
| Session.FreshGeneratorInOrder | library_of_h/downloader/services/hitomi/main.py:219-249 | a fresh generator hands out the URLs of all files of the gallery in order and then is exhausted |
| Session.ResendThenNext | library_of_h/downloader/services/hitomi/main.py:285-287 | after the file is handed back, the following call hands out the URL of the file after it, so the retry skips no file |
| Session.GetFileSlot | library_of_h/downloader/services/hitomi/main.py:276-283 | the downloader's first request is answered with the first file's URL, or the gallery ends when it has no files |
| Session.GgErrorHandled | library_of_h/downloader/services/hitomi/main.py:285-287 | after a first gg.js refresh the current file's URL is rebuilt and downloaded again, with the files table unchanged; after a second one for the same file the generator moves to the next file and the slot raises AttributeError, or StopIteration after the last file |
| Session.EndFile | library_of_h/downloader/base_classes/service.py:215-232 | the downloaded-files count rises by one and the file's recorded size is added to the total; the next file's URL follows, or the gallery ends |
| Session.FileAlreadyExists | library_of_h/downloader/base_classes/service.py:420-443 | the already-downloaded-files count rises by one; the current file alone becomes completed with its progress at its size; the next file follows |
| Session.Cancel | library_of_h/downloader/base_classes/service.py:489-497 | the reply in flight (if any) is aborted, the current and every later item is marked aborted, earlier items keep their status, and the machine stops |
| Session.FilteredGallerySkipped | library_of_h/downloader/base_classes/service.py:458-470 | a filtered gallery is counted and never reaches the catalog lookup or the downloader |
| Extraction.PyInt | library_of_h/downloader/services/hitomi/extractor.py:215-224 | `int()` of a JSON value: an integer is itself, a float is truncated toward zero (the integer of the same sign within one of it), text is accepted exactly when it is an integer literal and otherwise raises, and null, lists and objects are the logged `TypeError` |
| Extraction.PyIntOfText | library_of_h/downloader/services/nhentai/extractor.py:312-321 | the text of a number reads back as that number |
| Extraction.PyIntOfWholeFloat | library_of_h/downloader/services/hitomi/extractor.py:215-224 | a float without a fraction gives the same integer as the integer it equals |
| Extraction.TitlesOf | library_of_h/downloader/base_classes/metadata.py:36-41 | the title test and split for any JSON title: text splits exactly as a text title does (ValueError for two or more `|`); null, a boolean or a number raises TypeError; a list or object raises AttributeError exactly when it holds `|` and otherwise gives the placeholder titles |
| Extraction.PostInitOf | library_of_h/downloader/base_classes/metadata.py:36-46 | a record is built exactly when the title splits and both the artist and group lists are non-empty; the title's exception comes first, then IndexError; the first artist and group and the page count (one for a Hitomi anime) are derived |
| Extraction.PostInitAgrees | library_of_h/downloader/base_classes/metadata.py:36-46 | on text values the JSON-level construction succeeds or fails together with `Metadata.PostInit` and derives the same titles, names and page count |
| Extraction.OrNoValue | library_of_h/downloader/services/nhentai/extractor.py:571-572 | an empty list is shown as the single placeholder "---", any other list as itself |
| Nozomi.DecodeNozomi | library_of_h/downloader/services/hitomi/extractor.py:456-476 | one big-endian signed 32-bit value per four bytes, in order, with a trailing partial group read as a shorter value |
| Nozomi.DecodeEncodeInt32 | library_of_h/downloader/services/hitomi/extractor.py:473-476 | four bytes encoding a 32-bit integer decode back to it |
| Nozomi.EncodeDecodeInt32 | library_of_h/downloader/services/hitomi/extractor.py:473-476 | every four bytes are the encoding of the value they decode to |
| Nozomi.DecodeEncode | library_of_h/downloader/services/hitomi/extractor.py:456-476 | a stored list of 32-bit ids decodes back to that list, and the announced count is its length |
| Nozomi.EncodeDecode | library_of_h/downloader/services/hitomi/extractor.py:456-476 | a whole-value file is exactly the encoding of its decoded ids |
| Nozomi.CountMatchesTotal | library_of_h/downloader/services/hitomi/extractor.py:143-146 | the announced gallery count equals the number of ids decoded exactly when the file's length is a multiple of four, and is one short otherwise |
| Nozomi.FilePath | library_of_h/downloader/services/hitomi/extractor.py:78-79 | a page address without "hitomi.la/" is its own path |
| Nozomi.FilePathAfterMarker | library_of_h/downloader/services/hitomi/extractor.py:78-79 | the path is what follows the last "hitomi.la/" |
| Nozomi.DropListingSuffix | library_of_h/downloader/services/hitomi/extractor.py:80-86 | a path ending in ".html" loses those five characters |
| Nozomi.SplitLast | library_of_h/downloader/services/hitomi/extractor.py:86 | splitting at the last "-" gives back the text around it, with no "-" in the right part |
| Nozomi.NozomiAddress | library_of_h/downloader/services/hitomi/extractor.py:74-130 | the corrected address agrees with the code as written wherever that succeeds, differs only where the code as written raises a TypeError, and fails only with an IndexError |
| Nozomi.IndexListingFails | library_of_h/downloader/services/hitomi/extractor.py:74 | the site's front page makes the code as written raise a TypeError, and the corrected address is the index nozomi |
| Nozomi.WithoutArea | library_of_h/downloader/services/hitomi/extractor.py:74-118 | a tag without "/" makes the code as written raise a TypeError; corrected, it is addressed at the domain's root |
| Nozomi.SiteAreaAgrees | library_of_h/downloader/services/hitomi/checks/fetch_nozomi.js:31-54 | where the site's area split succeeds the port's gives the same area, period and tag |
| Nozomi.SiteNozomi | library_of_h/downloader/services/hitomi/checks/fetch_nozomi.js:1-72 | the site addresses the empty path at the index nozomi on page 1, and a "?page=N" suffix shows page N, which is at least 1 |
| Nozomi.PortFollowsSite | library_of_h/downloader/services/hitomi/checks/fetch_nozomi.js:19-72 | every listing path beyond the front page that the site accepts is addressed the same by the corrected port, and by the port as written when the tag names an area |
| Nozomi.PageRange | library_of_h/downloader/services/hitomi/checks/fetch_nozomi.js:74-75 | a page spans four bytes per id, starting at a multiple of four |
| Nozomi.PagesAreContiguous | library_of_h/downloader/services/hitomi/checks/fetch_nozomi.js:74-75 | consecutive pages share no byte and skip none |
| Nozomi.DecodeSlice | library_of_h/downloader/services/hitomi/checks/fetch_nozomi.js:86-90 | the ids of an aligned byte slice are that slice of the ids |
| Nozomi.PageHoldsItsIds | library_of_h/downloader/services/hitomi/checks/fetch_nozomi.js:74-90 | the bytes of page p decode to the ids listed on that page |
| HitomiExtractor.CategoriesAreAreas | library_of_h/downloader/services/hitomi/constants.py:4-12 | every download type but gallery ids searches a category that is an area followed by "/", and only gallery ids search the empty category |
| HitomiExtractor.SelectionsAsWritten | library_of_h/downloader/services/hitomi/extractor.py:40-46 | the selection exists exactly for a known download type and carries its category |
| HitomiExtractor.OrderIgnored | library_of_h/downloader/services/hitomi/extractor.py:44-46 | as written the order is always empty, whatever the user picks |
| HitomiExtractor.Selections | library_of_h/downloader/services/hitomi/extractor.py:40-46 | corrected, a choice outside Today, Week, Month and Year leaves the order empty |
| HitomiExtractor.ItemUrlShape | library_of_h/downloader/services/hitomi/extractor.py:436-454 | a gallery-id item is passed through with the "gallery" context; a listing item's address starts with the root and category and ends with the item and "-all.html" |
| HitomiExtractor.ItemNozomi | library_of_h/downloader/services/hitomi/extractor.py:436-454 | an item's listing page leads, as written and corrected alike, to the item's nozomi in the category's area |
| HitomiExtractor.IntendedOrderReachesNozomi | library_of_h/downloader/services/hitomi/extractor.py:40-46 | corrected, a popularity period reaches the nozomi under the area's popular listing |
| HitomiExtractor.NextNozomi | library_of_h/downloader/services/hitomi/extractor.py:155-168 | the item finishes, with -1, exactly when there is no nozomi or its ids are used up; otherwise the first id is given and removed |
| HitomiExtractor.WalkGivesIds | library_of_h/downloader/services/hitomi/extractor.py:155-168 | successive calls give the nozomi's ids in order, one per call, then finish the item |
| HitomiExtractor.WalkGivesDecodedIds | library_of_h/downloader/services/hitomi/extractor.py:143-168 | the walk over a nozomi file's bytes gives the decoded ids |
| HitomiExtractor.AlnumTailStart | library_of_h/downloader/services/hitomi/extractor.py:38 | the run found is the longest run of letters and digits ending the name |
| HitomiExtractor.SplitFilename | library_of_h/downloader/services/hitomi/extractor.py:371-380 | a split name is the base, a dot and a non-empty letter-and-digit extension that ends the name |
| HitomiExtractor.FilenameRoundTrip | library_of_h/downloader/services/hitomi/extractor.py:371-380 | a base, a dot and a letter-and-digit extension split back into that base and extension |
| HitomiExtractor.RenderTag | library_of_h/downloader/services/hitomi/extractor.py:325-350 | a tag that is not an object raises; one is logged exactly when it is an object whose sex flag is set but lacks its "tag" key |
| HitomiExtractor.TagSex | library_of_h/downloader/services/hitomi/extractor.py:325-350 | "female" wins over "male", and an unsexed tag keeps its name |
| HitomiExtractor.RenderTags | library_of_h/downloader/services/hitomi/extractor.py:325-350 | rendered tags are the tags rendered one by one, in order |
| HitomiExtractor.RenderTagsFirstFailure | library_of_h/downloader/services/hitomi/extractor.py:325-350 | the tags fail exactly when some tag fails, and then as the first failing tag does |
| HitomiExtractor.Entries | library_of_h/downloader/services/hitomi/extractor.py:250-263 | a list of objects gives each object's inner value in order; any other entry raises |
| HitomiExtractor.ListField | library_of_h/downloader/services/hitomi/extractor.py:250-323 | a missing list key is logged, except the parodies whose missing key raises; a null list is the placeholder "---" |
| HitomiExtractor.TagsField | library_of_h/downloader/services/hitomi/extractor.py:325-350 | a missing tag list is logged and a null one raises |
| HitomiExtractor.GalleryId | library_of_h/downloader/services/hitomi/extractor.py:215-224 | a numeric id is itself, text must be an integer, and a missing or null id is logged |
| HitomiExtractor.Required | library_of_h/downloader/services/hitomi/extractor.py:226-248 | a required field is read exactly when its key is present |
| HitomiExtractor.UploadDate | library_of_h/downloader/services/hitomi/extractor.py:352-367 | an upload date that is not text is logged |
| HitomiExtractor.FileEntry | library_of_h/downloader/services/hitomi/extractor.py:379-387 | a file entry is read exactly when it is an object with its hash, avif and webp keys and a text name, and its name and extension are the name's split |
| HitomiExtractor.FileEntries | library_of_h/downloader/services/hitomi/extractor.py:379-387 | the files are the entries read one by one, in order |
| HitomiExtractor.FilesField | library_of_h/downloader/services/hitomi/extractor.py:368-405 | without a video file name a missing file list is logged; with one, the gallery has exactly one file |
| HitomiExtractor.VideoIsTheFile | library_of_h/downloader/services/hitomi/extractor.py:371-377 | a video gallery's one file is its video, with an empty hash and neither avif nor webp |
| HitomiExtractor.Extract | library_of_h/downloader/services/hitomi/extractor.py:191-434 | a gallery read successfully carries the id, titles, lists, tags, date and files read field by field in the source's order |
| HitomiExtractor.ExtractGallery | library_of_h/downloader/services/hitomi/extractor.py:407-422 | after a successful extraction the gallery is built exactly when its JSON title splits and its artist and group lists are non-empty, otherwise `__post_init__`'s exception escapes; a built gallery has the first artist and group and one page per file, or one page for anime |
| HitomiExtractor.ExtractGalleryRaises | library_of_h/downloader/base_classes/metadata.py:36-46 | an accepted gallery with a null title raises TypeError, with a title holding two `|` ValueError, and with a splitting title and an empty artist or group list IndexError |
| HitomiExtractor.MissingKeysStopDifferently | library_of_h/downloader/services/hitomi/extractor.py:304-323 | a missing parody list escapes as an exception while a missing character list is logged |
| NhentaiExtractor.CategoriesAreSegments | library_of_h/downloader/services/nhentai/constants.py:1-8 | only gallery-id downloads have the empty category, and every category is a lower-case path segment |
| NhentaiExtractor.Order | library_of_h/downloader/services/nhentai/extractor.py:47-56 | Today, Week and All time select a "/popular" listing, the first two with their lower-cased period; any other choice adds nothing |
| NhentaiExtractor.OrderChoicesDistinct | library_of_h/downloader/services/nhentai/constants.py:9 | different order choices list galleries in different orders |
| NhentaiExtractor.Selections | library_of_h/downloader/services/nhentai/extractor.py:47-56 | the selection exists exactly for a known download type and carries its category and the order's segment |
| NhentaiExtractor.FormatPage | library_of_h/downloader/services/nhentai/extractor.py:188-206 | a URL ending in "{}" gets the page number in its place; any other URL is left as it is |
| NhentaiExtractor.ListingPageUrl | library_of_h/downloader/services/nhentai/extractor.py:238-261 | page n of a listing item is requested at the category, the item, the order and "?page=n" |
| NhentaiExtractor.ItemUrlsDistinct | library_of_h/downloader/services/nhentai/extractor.py:238-261 | distinct items of one selection get distinct URLs |
| NhentaiExtractor.GetPage | library_of_h/downloader/services/nhentai/extractor.py:188-197 | an item's walk starts on page 1, with no galleries, and requests page 1 |
| NhentaiExtractor.Receive | library_of_h/downloader/services/nhentai/extractor.py:68-132 | "No results, sorry." finishes the item; a listing replaces the galleries; the page number is unchanged |
| NhentaiExtractor.NextGallery | library_of_h/downloader/services/nhentai/extractor.py:199-215 | the next fetched gallery is handed out and removed; with none left the next page is requested and -1 is returned |
| NhentaiExtractor.BeginOnFirstPage | library_of_h/downloader/services/nhentai/extractor.py:188-197 | after the first answer the walk holds the first page's galleries, or is finished when the listing is empty |
| NhentaiExtractor.IntendedWalksEveryPage | library_of_h/downloader/services/nhentai/extractor.py:199-215 | had the page number advanced, a walk hands out every gallery of every page in order and then finishes |
| NhentaiExtractor.AsWrittenStaysOnFirstPage | library_of_h/downloader/services/nhentai/extractor.py:199-206 | as written the page number stays 1 and a walk of a listed first page never finishes |
| NhentaiExtractor.AsWrittenRepeatsFirstPage | library_of_h/downloader/services/nhentai/extractor.py:199-215 | as written the galleries of the first page are handed out again after they run out |
| NhentaiExtractor.Titles | library_of_h/downloader/services/nhentai/extractor.py:323-343 | a title that is not an object is logged; otherwise the English and Japanese titles are its entries |
| NhentaiExtractor.Names | library_of_h/downloader/services/nhentai/extractor.py:345-366 | the names of the kept tags, in order, at most one per tag; the "translated" marker is skipped when asked; an entry that is not an object, or a kept one without a name, fails |
| NhentaiExtractor.WithEntry | library_of_h/downloader/services/nhentai/extractor.py:345-366 | one entry ahead of the rest fails exactly when it is not an object, or is kept without a name, or the rest fails |
| NhentaiExtractor.NamesConcat | library_of_h/downloader/services/nhentai/extractor.py:345-366 | the names of a list are those of its front followed by those of its back |
| NhentaiExtractor.TagNames | library_of_h/downloader/services/nhentai/extractor.py:345-366 | the names come from the gallery's tag list; a missing list is logged |
| NhentaiExtractor.First | library_of_h/downloader/services/nhentai/extractor.py:391-396 | the first name, or a logged error when there is none |
| NhentaiExtractor.Language | library_of_h/downloader/services/nhentai/extractor.py:416-422 | the language is never the "translated" marker |
| NhentaiExtractor.TranslatedLanguage | library_of_h/downloader/services/nhentai/extractor.py:416-422 | a translated gallery's language is the language tag after the marker |
| NhentaiExtractor.UploadTimestamp | library_of_h/downloader/services/nhentai/extractor.py:510-523 | an integer upload date is itself, a float gives the whole second it falls in, and a missing one is logged |
| NhentaiExtractor.Extension | library_of_h/downloader/services/nhentai/constants.py:10 | "j" is a JPEG and "p" a PNG, and no other type has an extension |
| NhentaiExtractor.PageFiles | library_of_h/downloader/services/nhentai/extractor.py:525-564 | every page's file is read exactly when every page's image type is known |
| NhentaiExtractor.PageFilesRows | library_of_h/downloader/services/nhentai/extractor.py:528-541 | page j becomes file j + 1, with its image URL on the gallery's CDN server and its extension |
| NhentaiExtractor.PageTable | library_of_h/downloader/services/nhentai/extractor.py:525-551 | the file table has one row per page, in page order |
| NhentaiExtractor.TableRows | library_of_h/downloader/services/nhentai/extractor.py:525-551 | the table built from some rows holds them in order |
| NhentaiExtractor.TableOfRows | library_of_h/downloader/services/nhentai/extractor.py:525-551 | the table built from some rows lists exactly them |
| NhentaiExtractor.FilesField | library_of_h/downloader/services/nhentai/extractor.py:525-564 | the files, when read, form an aligned table; failures are logged |
| NhentaiExtractor.FilesArePages | library_of_h/downloader/services/nhentai/extractor.py:525-564 | with a page list, the files are read exactly when every image type is known, and then file i is page i |
| NhentaiExtractor.FilesFromPageList | library_of_h/downloader/services/nhentai/extractor.py:525-564 | with a page list, the files are the table of the page rows |
| NhentaiExtractor.Extract | library_of_h/downloader/services/nhentai/extractor.py:288-590 | a gallery read successfully carries the listing's gallery id, the media id, titles, tag lists, type, language and files read field by field; a gallery without a category or language tag is not read |
| NhentaiExtractor.ExtractGallery | library_of_h/downloader/services/nhentai/extractor.py:566-580 | after a successful extraction the gallery is built exactly when its title splits, otherwise the title's exception escapes; a built gallery has the first artist and group and one page per row of its file table |
| NhentaiExtractor.ExtractGalleryRaises | library_of_h/downloader/base_classes/metadata.py:36-46 | an accepted gallery whose title object lacks "english" raises TypeError, and none raises IndexError, since the lists were filled with "---" |
| NhentaiExtractor.After | library_of_h/downloader/services/nhentai/main.py:144-146 | the rest after a prefix exists exactly when the text starts with it and puts the text back together |
| NhentaiExtractor.SplitDigits | library_of_h/downloader/services/nhentai/main.py:144-146 | a text is cut after its leading digits, and the cut puts it back together |
| NhentaiExtractor.ParseThumbnail | library_of_h/downloader/services/nhentai/main.py:144-146 | only a well-formed thumbnail URL is read, into parts that rebuild it (nhentai's `_get_file_url` is never called: its file URLs come from the extractor's page table, so this is dead code in the source) |
| NhentaiExtractor.ThumbnailRoundTrip | library_of_h/downloader/services/nhentai/main.py:144-146 | every well-formed thumbnail URL is read back into its parts (dead code in the source, as above) |
| NhentaiExtractor.FileUrlFromThumbnail | library_of_h/downloader/services/nhentai/main.py:144-154 | the image URL differs from the thumbnail URL, starts with "https://i" and is one character shorter (dead code in the source: no caller reaches nhentai's `_get_file_url`) |
| NhentaiExtractor.ThumbnailGivesImageUrl | library_of_h/downloader/services/nhentai/main.py:128-154 | rewriting a page's thumbnail would give the image URL the extractor builds for that page; the rewrite is dead code in the source, so this states only that the unused path agrees with the live one |
| CatalogSchema.CategoryOf | library_of_h/database_manager/constants.py:1-32 | a filter key that names a category is that category's key |
| CatalogSchema.CategoriesComplete | library_of_h/database_manager/constants.py:1-32 | every category is listed and has a JOIN fragment |
| CatalogSchema.MappingsShareKeys | library_of_h/database_manager/constants.py:1-32 | the JOIN and WHERE mappings have the same keys, exactly the eight category keys |
| CatalogSchema.KeyRoundTrip | library_of_h/database_manager/constants.py:1-32 | a category's key reads back as that category |
| CatalogSchema.DirectJoinsAreTypeAndSource | library_of_h/database_manager/constants.py:1-32 | "type" and "source" join on a column of the galleries table; the other six go through a junction table |
| CatalogSchema.JoinSqlFree | library_of_h/database_manager/constants.py:1-32 | a JOIN fragment built from names without "?" has no placeholder |
| CatalogSchema.FragmentMapped | library_of_h/database_manager/constants.py:1-32 | each category's fragment is the one the JOIN mapping holds for its key |
| CatalogSchema.JoinHasNoPlaceholder | library_of_h/database_manager/constants.py:1-32 | no JOIN fragment puts a "?" placeholder into the query text |
| CatalogSchema.WhereMapped | library_of_h/database_manager/constants.py:171-183 | each category's WHERE column is the one the WHERE mapping holds for its key |
| CatalogSchema.WhereHasNoPlaceholder | library_of_h/database_manager/constants.py:171-183 | no WHERE column puts a "?" placeholder into the query text |
| CatalogSchema.UniquenessShapes | library_of_h/database_manager/constants.py:34-170 | name tables are unique on the name, the tag table on (name, sex), each junction table on its (entity, gallery) pair, and the galleries table on (source, gallery id) |
| CatalogQuery.MatchAt | library_of_h/database_manager/main.py:55 | a term match ends past its start, within the text |
| CatalogQuery.MatchIsRendered | library_of_h/database_manager/main.py:55 | what the term pattern matches is a term written out in full, key, colon and quoted value |
| CatalogQuery.FindAfterMatch | library_of_h/database_manager/main.py:187-189 | where a term matches, the scan yields it and resumes after it |
| CatalogQuery.FindTermsRoundTrip | library_of_h/database_manager/main.py:187-189 | scanning terms written out with single spaces between them finds exactly those terms, in order |
| CatalogQuery.Unquote | library_of_h/database_manager/main.py:57 | an empty value does not match; spaces only become one space; otherwise leading spaces are dropped and trailing ones kept |
| CatalogQuery.TrimPiece | library_of_h/database_manager/main.py:58 | a piece between commas loses the spaces next to each comma it touched |
| CatalogQuery.SplitValues | library_of_h/database_manager/main.py:58 | a group splits into one value more than it has commas |
| CatalogQuery.SplitValuesTrimmed | library_of_h/database_manager/main.py:58 | each value holds no comma and no space where it met one |
| CatalogQuery.SplitValuesPiece | library_of_h/database_manager/main.py:58 | value i is the i-th comma-separated piece, trimmed |
| CatalogQuery.SplitValuesRoundTrip | library_of_h/database_manager/main.py:58 | values written with ", " between them split back into those values |
| CatalogQuery.BareKey | library_of_h/database_manager/main.py:216-222 | the key a term adds to the JOIN keys is its key without a leading "-" |
| CatalogQuery.TermGroup | library_of_h/database_manager/main.py:201-222 | a ":" in the value makes the unpacking raise ValueError; an empty value is skipped; otherwise the term is an OR-group of at least one value that excludes exactly when its key starts with "-" |
| CatalogQuery.Groups | library_of_h/database_manager/main.py:201-222 | the clause fails exactly when some value holds a ":"; otherwise it yields at most one group per term and the JOIN keys are exactly the bare keys of the terms with a value |
| CatalogQuery.OrQueryPlaceholders | library_of_h/database_manager/main.py:237 | an OR-group holds one placeholder per value |
| CatalogQuery.LogicBinds | library_of_h/database_manager/main.py:224-265 | the bind values of one kind are the values of the groups of that kind whose key has a WHERE column, in term order |
| CatalogQuery.LogicPlaceholders | library_of_h/database_manager/main.py:224-265 | the WHERE text of one kind is empty exactly when it binds nothing, and holds one placeholder per bind value |
| CatalogQuery.ParseFilterClause | library_of_h/database_manager/main.py:156-271 | the clause fails exactly when some term's value holds a ":"; the JOIN keys are exactly the bare keys of the terms with a value |
| CatalogQuery.ClauseBinds | library_of_h/database_manager/main.py:156-271 | the bind values are the include values in term order then the exclude values in term order, with one placeholder for each, and each WHERE text is empty exactly when its kind binds nothing |
| CatalogQuery.JoinsFor | library_of_h/database_manager/main.py:505 | the JOIN text of a key list raises KeyError exactly when some key is not in the JOIN mapping |
| CatalogQuery.AllKeys | library_of_h/database_manager/main.py:501 | every JOIN key exactly once and nothing else, the i-th being the key of the i-th category, the mapping's own order |
| CatalogQuery.KeysAmong | library_of_h/database_manager/main.py:532 | the keys kept are the mapping's keys among those asked for, and every such key is kept |
| CatalogQuery.LimitSql | library_of_h/database_manager/main.py:491-493 | the LIMIT paragraph is present exactly when the limit is not 0 |
| CatalogQuery.AllKeysJoin | library_of_h/database_manager/main.py:501 | joining every key never fails |
| CatalogQuery.SingleJoin | library_of_h/database_manager/main.py:503 | a single JOIN key fails exactly when the mapping lacks it |
| CatalogQuery.UnfilteredJoinFails | library_of_h/database_manager/main.py:497-506 | without a filter the JOIN fails exactly when it names a key the mapping lacks |
| CatalogQuery.GetWithoutFilter | library_of_h/database_manager/main.py:496-511 | without a filter, get queues a statement without bind values and returns True, unless the JOIN names an unknown key |
| CatalogQuery.GetDeclines | library_of_h/database_manager/main.py:513-546 | a filter with no term naming a known column makes get return False and queue nothing; with one it queues a statement |
| CatalogQuery.DeclinedWhenEmpty | library_of_h/database_manager/main.py:545-546 | a filtered get declines exactly when both WHERE texts are empty |
| CatalogQuery.EmptyUnlessRecognised | library_of_h/database_manager/main.py:224-271 | both WHERE texts are empty exactly when no term with a value names one of the eight columns |
| CatalogQuery.SelectionIsRecognition | library_of_h/database_manager/main.py:224-271 | some group is selected exactly when some term with a value names one of the eight columns |
| CatalogQuery.GetAutoUnknownKey | library_of_h/database_manager/main.py:531-532 | with the automatic JOIN, a term whose key the mapping lacks raises KeyError, although it adds nothing to the WHERE text |
| CatalogQuery.GetPlaceholders | library_of_h/database_manager/main.py:486-593 | a statement queued with bind values holds exactly one placeholder per bind value |
| CatalogQuery.PartsPlaceholders | library_of_h/database_manager/main.py:548-593 | only the WHERE texts of a filtered statement hold placeholders |
| CatalogQuery.GetShape | library_of_h/database_manager/main.py:486-593 | a queued statement starts with the SELECT and ends with the LIMIT paragraph; with both WHERE texts the NOT IN subquery repeats the outer JOIN; without an include text it goes straight to the subquery |
| CatalogQuery.FilteredQueued | library_of_h/database_manager/main.py:513-593 | a queued filtered statement is built from its clause and its JOIN |
| CatalogQuery.PartsShape | library_of_h/database_manager/main.py:548-593 | the three filtered shapes: SELECT first, LIMIT last, and the WHERE texts in their places |
| CatalogWrites.WithId | library_of_h/database_manager/main.py:601-611 | a junction's SELECT on the gallery id reaches exactly the galleries with that id, whatever their source |
| CatalogWrites.ApplyProperties | library_of_h/database_manager/main.py:595-760 | each statement only adds rows, keeps the catalog consistent, and applying it again changes nothing |
| CatalogWrites.ApplyAllProperties | library_of_h/database_manager/main.py:341-380 | draining the write queue in order only adds rows and keeps the catalog consistent |
| CatalogWrites.ApplyAllConcat | library_of_h/database_manager/main.py:341-380 | two queues drained one after the other are one queue |
| CatalogWrites.LinkReachesEveryId | library_of_h/database_manager/main.py:601-611 | a junction insert links the entity to every gallery with that id, in every source, and to nothing else |
| CatalogWrites.TagLinkIgnoresSex | library_of_h/database_manager/main.py:743-753 | a tag junction insert matches the tag by name alone, so it links every sex recorded under that name |
| CatalogWrites.Each | library_of_h/downloader/services/hitomi/database_manager.py:34-56 | one name pair of statements per name, in list order |
| CatalogWrites.EachLinks | library_of_h/downloader/services/hitomi/database_manager.py:34-56 | once a gallery with the id exists, each name ends up linked to it |
| CatalogWrites.ClassifyTag | library_of_h/downloader/services/hitomi/database_manager.py:58-65 | a tag with "female:" has sex 0, else one with "male:" has sex 1, else sex -1 and the tag unchanged |
| CatalogWrites.FemaleContainsMale | library_of_h/downloader/services/hitomi/database_manager.py:60-63 | every "female:" tag also contains "male:", so the female test must come first |
| CatalogWrites.HitomiTags | library_of_h/downloader/services/hitomi/database_manager.py:58-68 | each Hitomi tag is filed lower-cased with its classified sex, then linked by name |
| CatalogWrites.PlainTags | library_of_h/downloader/services/nhentai/database_manager.py:77-80 | each nhentai tag is filed lower-cased with sex -1, then linked by name |
| CatalogWrites.GalleryStep | library_of_h/database_manager/main.py:633-672 | after the type, source and gallery statements the gallery's key exists, holding the new row when the key was new |
| CatalogWrites.TagPairsLink | library_of_h/database_manager/main.py:737-754 | tag statements in `insert_into_tags` pairs link every tag row, by its name and sex, to a gallery that exists before them |
| CatalogWrites.EntityWritesLink | library_of_h/downloader/services/hitomi/database_manager.py:34-68 | the entity statements link every artist, character, group, series, the language and every tag row to a gallery that exists before them |
| CatalogWrites.HitomiFilesGallery | library_of_h/downloader/services/hitomi/database_manager.py:15-68 | when its type resolves, a Hitomi gallery exists under "hitomi" afterwards, holding this row if it was new, every entity is linked to it, and every tag is linked under its lower-cased name without the sex prefix and with that prefix's sex |
| CatalogWrites.HitomiUnresolvedType | library_of_h/database_manager/main.py:633-672 | a new gallery whose type name has upper-case letters not yet recorded in that spelling is never filed, because the type table holds only the lower-cased name |
| CatalogWrites.NoGalleryWrites | library_of_h/database_manager/main.py:595-760 | statements other than a gallery row never add a gallery |
| CatalogWrites.HelperNotShared | library_of_h/downloader/services/nhentai/database_manager.py:37-39 | the shared manager has no media-id helper, so looking it up raises AttributeError |
| CatalogWrites.NhentaiRunAsWritten | library_of_h/downloader/services/nhentai/database_manager.py:29-40 | the call raises AttributeError having queued a proper start of the corrected statements, none of them a gallery row |
| CatalogWrites.NhentaiAsWrittenFilesNothing | library_of_h/downloader/services/nhentai/database_manager.py:29-40 | as written an nhentai gallery adds no gallery, junction or media-id row, and what was queued is the start of the corrected sequence |
| CatalogWrites.MediaIdLostInSourceOrder | library_of_h/downloader/services/nhentai/database_manager.py:15-51 | with the media-id statement before the gallery row, a gallery with a new id never gets its media id |
| CatalogWrites.NoMediaIdWrites | library_of_h/database_manager/main.py:595-760 | statements other than a media-id row never add one |
| CatalogWrites.MediaLinkStep | library_of_h/downloader/services/nhentai/database_manager.py:15-27 | once the gallery row exists, the media-id statement links it |
| CatalogWrites.NhentaiFilesGallery | library_of_h/downloader/services/nhentai/database_manager.py:15-80 | with the media-id row after the gallery row, a resolved nhentai gallery is filed with its media id and all its entities, every tag linked under its lower-cased name with sex -1 |
| SharedManager.Undeclared | library_of_h/database_manager/main.py:444-452 | the first keyword no parameter is named after, or none exactly when every keyword names a parameter |
| SharedManager.Unbound | library_of_h/database_manager/main.py:444-452 | the first parameter no keyword binds, or none exactly when every parameter is bound |
| SharedManager.Bind | library_of_h/database_manager/main.py:444-452 | a call by keywords binds exactly when every keyword is a parameter and every parameter without a default is named; otherwise TypeError |
| SharedManager.GetInstance | library_of_h/database_manager/main.py:31-39 | the shared instance is handed out exactly when no keyword is passed; a keyword raises TypeError |
| SharedManager.Construct | library_of_h/database_manager/main.py:41-42 | building the class directly never gives an instance: TypeError with a keyword, RuntimeError without |
| SharedManager.LookupAll | library_of_h/database_manager/main.py:20-86 | names looked up in turn all resolve exactly when each is an attribute of the manager; otherwise AttributeError |
| SharedManager.SignalsPrivate | library_of_h/database_manager/main.py:27-29 | each signal is an attribute under its underscored name, and not under the name without the underscore |
| SharedManager.ConnectedSignals | library_of_h/database_manager/main.py:27-29 | looking up the write-closed and read-finished signals succeeds under their declared names and raises AttributeError under the names without the underscore |
| SharedManager.CallGet | library_of_h/database_manager/main.py:444-452 | a `get` call by keywords binds exactly when it names `callback` and only declared parameters; otherwise TypeError |
| SharedManager.ExplorerGetRaises | library_of_h/explorer/image_browser.py:62-68 | the explorer's calls of `get` raise TypeError whatever else they pass |
| Explorer.LastPage | library_of_h/explorer/image_browser.py:157-159 | no rows means no pages; otherwise the page count is the fewest pages of `limit` rows that hold every row |
| Explorer.Range | library_of_h/explorer/image_browser.py:151-155 | a page's range starts at its first row and ends at its own last row or the catalog's last row, whichever comes first |
| Explorer.PageRange | library_of_h/explorer/image_browser.py:151-163 | every page from 1 to the page count shows a non-empty range: `limit` rows, except the last page, which shows the remaining rows and alone ends at the catalog's last row |
| Explorer.RowPage | library_of_h/explorer/image_browser.py:74-77 | each row of the catalog lies in exactly one page's offset window, and that page is between 1 and the page count |
| Explorer.ClampPage | library_of_h/explorer/image_browser.py:165-169 | with at least one page, the clamped page is within 1 and the page count, and equals the value exactly when the value already is |
| Explorer.ClampNearest | library_of_h/explorer/image_browser.py:165-169 | the clamped page is the page nearest to the value, and clamping twice changes nothing |
| Explorer.SetPage | library_of_h/explorer/image_browser.py:132-143 | "Previous" is disabled exactly on page 1 and "Next" exactly on the labelled last page; the labels and query are kept |
| Explorer.NoResults | library_of_h/explorer/image_browser.py:145-149 | no rows, one page, range [0 - 0], page 1 with both buttons disabled; the page box and query are kept |
| Explorer.ShowPage | library_of_h/explorer/image_browser.py:165-171 | the clamped page becomes current and the page box reads back as that page; the counts and query are kept |
| Explorer.UpdateNumbers | library_of_h/explorer/image_browser.py:151-163 | fails exactly when the page box is not a number; otherwise relabels the total, the page count and the range starting at the box's page, keeping the page and query |
| Explorer.ChangePage | library_of_h/explorer/image_browser.py:74-86 | asks for the current query at the clamped page's offset; once queued the clamped page is shown, otherwise the browser shows no results; the query is kept |
| Explorer.NextThenPrevious | library_of_h/explorer/image_browser.py:195-212 | from a page before the last, Next asks for the following page's rows and Previous returns to the page and asks for its rows again |
| Explorer.ReturnPressed | library_of_h/explorer/image_browser.py:198-203 | an empty box is refilled with the current page and nothing is asked; otherwise fails exactly when the box is not a number, and asks for the clamped typed page |
| Explorer.TypedPage | library_of_h/explorer/image_browser.py:198-203 | typing any page from 1 to the page count and pressing return shows that page and asks for its rows |
| Explorer.FilterTyped | library_of_h/explorer/image_browser.py:205-209 | the filtered text is a prefix of the typed text that is empty or ends with a digit, and only non-digits were removed |
| Explorer.FilterTypedSettles | library_of_h/explorer/image_browser.py:205-209 | filtering twice changes nothing, and a text that is empty or ends in a digit is left alone |
| Explorer.Initialize | library_of_h/explorer/image_browser.py:60-72 | asks for every gallery with all tables joined from offset 0; once queued that is the query and page 1 is shown, otherwise the query is empty and no results are shown |
| Explorer.ApplyFilter | library_of_h/explorer/image_browser.py:173-187 | asks for the filtered galleries with all tables joined from offset 0; once queued that is the query and page 1 is shown, otherwise the old query is kept and no results are shown |
| Explorer.CreateItems | library_of_h/explorer/image_browser.py:121-126 | the worker starts exactly when there are records; with none, the browser shows no results, otherwise it is unchanged |
| Explorer.CountedFirstPage | library_of_h/explorer/image_browser.py:60-72 | a new browser, initialised and counted, shows page 1's range and the page count, with Previous disabled and Next disabled exactly when there is one page |
| Explorer.CountedPage | library_of_h/explorer/image_browser.py:74-86 | after a page change the count callback labels the range of the page that was shown |
| Explorer.NewModel | library_of_h/explorer/custom_sub_classes/browser_items_model.py:21-26 | a new model has `limit` empty slots of each kind and no rows |
| Explorer.RowCount | library_of_h/explorer/custom_sub_classes/browser_items_model.py:67-68 | the row count never exceeds the number of thumbnail slots |
| Explorer.SetData | library_of_h/explorer/custom_sub_classes/browser_items_model.py:48-65 | an invalid index or other role changes nothing and returns False; the display role writes only the description at the row, the decoration role only the thumbnail; a row past the slots raises IndexError |
| Explorer.SetThenData | library_of_h/explorer/custom_sub_classes/browser_items_model.py:28-65 | what setData stores, data reads back with the same role, and every other slot reads as before |
| Explorer.FilledUpdate | library_of_h/explorer/custom_sub_classes/browser_items_model.py:67-68 | changing one slot moves the row count by at most one, in the direction of the change |
| Explorer.AddItem | library_of_h/explorer/image_browser.py:189-193 | setting an item succeeds exactly when its row is within both the thumbnail and the description slots |
| Explorer.AddItemsFill | library_of_h/explorer/image_browser.py:189-193 | filling empty rows from `start` puts each item in its row, leaves earlier rows alone and raises the row count by the number of items |
| Explorer.FreshPage | library_of_h/explorer/custom_sub_classes/browser_items_model.py:21-68 | a page of at most `limit` items in a new model has one row per item, each reading back its thumbnail and description |

## Left out

- Network, disk, SQLite, threads and Qt widgets: replies, file sizes, free space, the clock and the catalog's answers are parameters, and SQL is modelled as the text and bound values it would send.
- The SQLite write thread (`database_manager/main.py:341-380`) is modelled as applying the queued statements in order; its threading and its close signal are left out.
- JSON decoding and HTML parsing: extractors take the decoded JSON object or the parsed listing page.
- Hitomi's gg.js and `common.py` URL signing, and the anime file URL: not part of this model, so file URLs are built from a given URL function.
- The session summary dialog, the elapsed-time text, and the object deletion in `_deinitialize_session`: display and Qt only.
- Download speed, the rounded size shown to the user and `round()` in `get_value_and_unit_from_Bytes`: floating point.
- `explorer/constants.py` is not part of this model, so `BROWSER_IMAGES_LIMIT` is a parameter `limit`.
- The explorer calls `get` with `count`, `count_callback` and `get_callback` keywords that `DatabaseManagerBase.get` (`database_manager/main.py:444-452`) does not declare, so each call raises TypeError (`SharedManager.ExplorerGetRaises`); the explorer takes `get`'s answer (queued or declined) as a parameter, as if the call bound.
- The explorer's construction: `ExplorerDatabaseManager(parent=self)` (`explorer/image_browser.py:33`) calls `DatabaseManagerBase.__init__`, which raises (TypeError for the keyword, RuntimeError otherwise, `SharedManager.Construct`), so the explorer as written never starts; its paging is modelled as if it had a manager.
- Attribute names that `QObject` itself supplies are not part of `SharedManager.Attributes`; none of the names the model looks up is one of them.
- `removeRows`, which `BrowserItemsModel` does not override, is Qt's and is not modelled.
- The explorer's `CreateItemWorker`, which loads thumbnails and builds descriptions: only the model writes it makes are modelled.
- Preferences and filter construction from the settings file: the filter's three sets and the destination formats are parameters.
- `hitomi/constants.py` and `nhentai/constants.py` are transcribed only for the download types, order names and extensions the extractors use.
- Text.Lower: lower-cases ASCII letters only, not the rest of Unicode, because the sites' names and the catalog's keys are ASCII.
- Text.ParseInt: accepts ASCII digits only, while Python's `int()` also accepts other Unicode decimal digits.
- Text.Strip: `strip()` is modelled over Python's whitespace characters, and the contract states the trimmed text's position rather than which characters were removed.
- Explorer.LastPage: `math.ceil(total_rows / BROWSER_IMAGES_LIMIT)` goes through a float; the model uses the integer ceiling, which agrees below 2^53 rows.
- Explorer.CreateItems: the records themselves are not modelled, only their number.
- Pathnames.ValueAndUnit: the value is the exact quotient, without the float rounding.
- Nozomi.DropListingSuffix: the digits of a page number are ASCII digits only, while Python's `\d` on text also matches other Unicode decimal digits.
- Nozomi.FilePath: Python's `.*` does not cross a newline; addresses are taken to be single-line.
- Nozomi.SiteNozomi: `decodeURIComponent` is not modelled; paths are compared undecoded. The JavaScript addresses an empty path at the index nozomi, while the Python port is never given one (its listing URLs always name a category).
- HitomiExtractor.UploadDate: the date text is cut as the source cuts it, but `strptime` and the local-time conversion are left out.
- NhentaiExtractor.UploadTimestamp: the timestamp is kept as whole seconds; `fromtimestamp`'s conversion, its rounding of a float to microseconds (which can carry a value just below a whole second into it), and its OverflowError on huge values are left out.
- Json.Float: a float is an exact real, not a 64-bit double; the rounding of the decimal text, and the `Infinity` and `NaN` that Python's `json` module also accepts (where `int()` raises), are not modelled.
- NhentaiExtractor.FormatPage: models `str.format` only for URLs whose only braces are the trailing `{}`; an item name containing braces is not modelled.
- NhentaiExtractor.ParseThumbnail: reads only URLs that are wholly thumbnail URLs, while the source's regex also rewrites a thumbnail URL inside a longer text and its unescaped dots match any character.
- NhentaiExtractor.Receive: the gallery count a listing page reports is used by the source only for progress display and is dropped; a gallery-id item re-requests its single gallery page the same way, and the corrected walk covers listings only.
- NhentaiExtractor.Run: a walk of the listing is run for a given number of requests (`fuel`), since as written it never ends; the properties about it say how much fuel a full walk needs.
- CatalogQuery.FilteredJoin: `join="auto"` iterates over a set, whose order Python leaves unspecified; the model joins in `JOIN_MAPPING`'s order.
- Session.MetadataReady: models the slot with the catalog lookup bound to `get`'s own keywords; as written the lookup raises TypeError (`Session.AsWrittenLookupRaises`, see Findings). The lookup is not built through `CatalogQuery`; its rows are a parameter of `LookupFinished`.
- Session.InitializeSession: models `_initialize_session` once the catalog manager is obtained; as written neither service gets that far (`Session.AsWrittenNeverStarts`, see Findings).
- Session.InitializedSignal: states which service announces a built session; as written no session is built, so neither announces (`Session.AfterStart`).
- Session.GgErrorHandled: the exception ends the slot; what Qt does with it (printing it and going on with the event loop) is not modelled.
- Session.CountersGrow: the total download size is left out, since it adds a recorded size that may be the unknown size -1.

## Findings

| source | as written | input that shows it | evidently intended | confidence | as-written member | corrected member |
|---|---|---|---|---|---|---|
| library_of_h/downloader/services/nhentai/database_manager.py:29-40 | `insert_into_table` calls `_insert_into_nhentai_media_id` on the shared catalog manager, which does not have it; and the media-id link is queued before the gallery row it selects | any nhentai gallery, e.g. gallery id 1 with media id 2 not yet in the catalog | the helper is the service manager's own, and the media-id link is queued after the gallery row, so the gallery is filed with its media id | not executed | CatalogWrites.NhentaiAsWrittenFilesNothing, CatalogWrites.MediaIdLostInSourceOrder | CatalogWrites.NhentaiFilesGallery |
| library_of_h/downloader/services/hitomi/extractor.py:74-118 | `area` starts as the integer 1 and stays so when the tag has no "/", so `"/".join([DOMAIN, area, …])` raises TypeError | `https://hitomi.la/index-all.html` | a tag without "/" has no area and is addressed at `DOMAIN/tag-language.nozomi`, as `fetch_nozomi.js` does | not executed | Nozomi.IndexListingFails | Nozomi.NozomiAddress |
| library_of_h/downloader/services/hitomi/extractor.py:44-46 | the order is cleared and then the cleared field, not the argument, is tested, so the order is always empty | order "Today" | a popularity period selects the `popular/<period>/` listing | not executed | HitomiExtractor.OrderIgnored | HitomiExtractor.IntendedOrderReachesNozomi |
| library_of_h/downloader/services/nhentai/extractor.py:199-215 | `_get_next_page` requests the current page number, which `get_page` sets to 1 and nothing increments, so a listing hands out its first page forever | any listing item whose first page lists a gallery | the page number goes up by one before each further request, so every page is walked and the "No results" page ends the item | not executed | NhentaiExtractor.AsWrittenRepeatsFirstPage | NhentaiExtractor.IntendedWalksEveryPage |
| library_of_h/downloader/services/hitomi/main.py:63 | Hitomi builds its catalog manager with `parent=self`, which its `__init__` passes on to `get_instance(cls)`, a method taking no keyword, so `_initialize_session` raises TypeError | any Hitomi download, e.g. items "1" of type "Gallery ID(s)" | the manager is obtained without the keyword, the items table is built and the session announced | not executed | Session.AsWrittenNeverStarts | Session.IntendedStarts |
| library_of_h/downloader/services/nhentai/main.py:69-74 | nhentai connects `write_thread_closed_signal` and `read_operation_finished_signal`, but the manager declares them with a leading underscore, so `_initialize_session` raises AttributeError | any nhentai download, e.g. items "1" of type "Gallery ID(s)" | the signals are connected under their declared names and the items table is built | not executed | Session.AsWrittenNeverStarts | Session.IntendedStarts |
| library_of_h/downloader/base_classes/service.py:465-470 | the catalog lookup passes `get_callback` and `filter`, which `get` does not declare, and leaves its `callback` unbound, so the slot raises TypeError for every gallery the filter lets through | a gallery that passes an empty filter | the lookup passes `callback` and `filter_clause`, and its answer decides between skipping and downloading the gallery | not executed | Session.AsWrittenLookupRaises | Session.IntendedLookupIssued |
