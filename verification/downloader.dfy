/** The file downloader (`downloader/base_classes/service_downloader.py`)
    and its elapsed timer (`custom_widgets/elapsed_timer.py`): the HEAD
    probe that decides between skipping, refusing and downloading a file,
    the GET that starts from zero or resumes, the byte count carried across
    reconnects, and the completion check. Replies, the disk and the clock
    are parameters; the reply's classified error code is the value the
    network access manager's `handle_error` returned. */
module Downloader {
  import opened Wrappers
  import opened Text
  import opened StatusTables

  // The elapsed timer.

  /** A `QElapsedTimer` started at `origin` on the raw clock, with the
      last recorded pause reading and the offset taken off every reading. */
  datatype Timer = Timer(origin: int, pauseTime: int, pauseElapsed: int)

  /** The raw reading at time `now`. */
  function Raw(t: Timer, now: int): int { now - t.origin }

  /** `elapsed()`: the raw reading less the offset. */
  function Elapsed(t: Timer, now: int): int { Raw(t, now) - t.pauseElapsed }

  /** The constructor: nothing recorded and no offset. */
  function NewTimer(origin: int): (r: Timer)
    ensures r.pauseTime == 0 && forall now :: Elapsed(r, now) == Raw(r, now)
  {
    Timer(origin, 0, 0)
  }

  /** `start`: the raw clock restarts and the offset is cleared; the
      recorded pause reading is kept. */
  function Start(t: Timer, now: int): (r: Timer)
    ensures forall x :: Elapsed(r, x) == x - now
    ensures r.pauseTime == t.pauseTime
  {
    Timer(now, t.pauseTime, 0)
  }

  /** `pause`: records the current reading; readings keep advancing. */
  function Pause(t: Timer, now: int): (r: Timer)
    ensures r.pauseTime == Elapsed(t, now)
    ensures forall x :: Elapsed(r, x) == Elapsed(t, x)
  {
    t.(pauseTime := Elapsed(t, now))
  }

  /** `resume`: the reading goes back to the recorded pause reading and
      advances from there. */
  function Resume(t: Timer, now: int): (r: Timer)
    ensures Elapsed(r, now) == t.pauseTime
    ensures forall x :: Elapsed(r, x) == t.pauseTime + (x - now)
  {
    t.(pauseElapsed := Raw(t, now) - t.pauseTime)
  }

  /** A pause at `p` and a resume at `q` leave the time in between out of
      every later reading. */
  lemma PauseResumeSkipsGap(t: Timer, p: int, q: int, x: int)
    ensures Elapsed(Resume(Pause(t, p), q), x) == Elapsed(t, x) - (q - p)
  {
  }

  /** Resuming a timer that was never paused drops its reading to zero. */
  lemma ResumeWithoutPause(origin: int, s: int, q: int)
    ensures Elapsed(Resume(Start(NewTimer(origin), s), q), q) == 0
  {
  }

  // The downloader.

  /** The local file: whether it exists, whether it is open, and its size. */
  datatype LocalFile = LocalFile(exists_: bool, isOpen: bool, size: nat)

  /** The downloader's state: the largest total the current file's
      transfer has reported, the remote size (-1 when unknown), the local
      file, the Range header, the session's files table and the timer. */
  datatype Dl = Dl(
    actualTotal: int,
    remoteSize: int,
    file: LocalFile,
    range: string,
    files: FilesTable,
    timer: Timer)

  predicate DlWf(d: Dl) { FilesWf(d.files) }

  /** What a step asks of the rest of the session. */
  datatype Effect =
    | Nothing
    | NotEnoughSpace
    | AlreadyExists
    | IssueGet(url: string)
    | FileFinished
    | Raised

  /** The Range header a resume sends, and the one every finished GET
      restores. */
  function RangeFrom(n: nat): string { "bytes=" + NatToString(n) + "-" }
  const FullRange: string := "bytes=0-"

  /** The offset a Range header asks for. */
  function RangeOffset(h: string): (r: Option<int>)
    ensures r.Some? ==> |h| >= 7
  {
    if |h| >= 7 && h[..6] == "bytes=" && h[|h| - 1] == '-' then ParseInt(h[6..|h| - 1]) else None
  }

  /** A resume asks for exactly the bytes after the local file's size. */
  lemma RangeRoundTrip(n: nat)
    ensures RangeOffset(RangeFrom(n)) == Some(n)
  {
    var body := NatToString(n);
    Framed("bytes=", body, "-");
    assert body == IntToString(n);
    IntToStringParses(n);
  }

  /** The restored header asks for the whole file. */
  lemma FullRangeIsZero()
    ensures RangeOffset(FullRange) == Some(0)
  {
    assert FullRange[6..7] == "0";
    assert "0" == IntToString(0);
    IntToStringParses(0);
  }

  /** The parts of a framed text. */
  lemma Framed(pre: string, body: string, post: string)
    ensures var h := pre + body + post;
      |h| == |pre| + |body| + |post| && h[..|pre|] == pre && h[|pre|..|h| - |post|] == body && h[|h| - |post|..] == post
  {
    var h := pre + body + post;
    assert h[..|pre|] == pre;
    assert h[|pre|..|h| - |post|] == body;
  }

  /** The byte count of `_download_progress_slot`: the largest total seen
      so far, and the received count plus what an earlier transfer of the
      same file already brought. */
  function ProgressValue(actualTotal: int, received: int, total: int): (r: (int, int))
    ensures r.0 >= actualTotal && r.0 >= total && (r.0 == actualTotal || r.0 == total)
    ensures r.1 >= received && r.1 - received == r.0 - total
  {
    var t := if actualTotal >= total then actualTotal else total;
    (t, received + t - total)
  }

  /** `_download_progress_slot`: the largest total is kept and the current
      file's progress becomes the adjusted byte count. */
  function Progress(d: Dl, received: int, total: int): (r: Dl)
    requires DlWf(d)
    ensures DlWf(r) && r.actualTotal == ProgressValue(d.actualTotal, received, total).0
    ensures r.actualTotal >= d.actualTotal
    ensures r.files == SetFileData(d.files, d.files.cursor, ProgressValue(d.actualTotal, received, total).1, "progress").1
  {
    var (t, reported) := ProgressValue(d.actualTotal, received, total);
    d.(actualTotal := t, files := SetFileData(d.files, d.files.cursor, reported, "progress").1)
  }

  /** A transfer that restarted from zero reports the whole size as its
      total; after a resume from `k` bytes the server reports only the
      rest, and the progress shown is the `k` bytes plus those received. */
  lemma ResumedProgressCounts(size: int, k: int, firstReceived: int, received: int)
    requires 0 <= k <= size
    ensures var t1 := ProgressValue(0, firstReceived, size).0;
      t1 == size && ProgressValue(t1, received, size - k) == (size, received + k)
  {
  }

  /** `_begin_download`, for the file at `url`: a closed file is opened
      for writing from empty, the file is marked downloading, the total is
      reset, the timer started, and a GET issued whose reconnect resumes
      the same URL. */
  function BeginDownload(d: Dl, url: string, now: int): (r: (Dl, Effect))
    requires DlWf(d)
    ensures DlWf(r.0) && r.1 == IssueGet(url) && r.0.actualTotal == 0
    ensures r.0.file == (if d.file.isOpen then d.file else LocalFile(true, true, 0))
    ensures r.0.files == SetFileData(d.files, d.files.cursor, FileDownloading, "status").1
    ensures r.0.timer == Start(d.timer, now) && r.0.range == d.range && r.0.remoteSize == d.remoteSize
  {
    var file := if d.file.isOpen then d.file else LocalFile(true, true, 0);
    (d.(file := file, files := SetFileData(d.files, d.files.cursor, FileDownloading, "status").1,
        actualTotal := 0, timer := Start(d.timer, now)), IssueGet(url))
  }

  /** `_continue`, the reconnect callback of a GET: a closed file is
      opened for appending, and the GET asks only for the bytes after the
      local size. */
  function Continue(d: Dl, url: string): (r: (Dl, Effect))
    requires DlWf(d)
    ensures DlWf(r.0) && r.1 == IssueGet(url)
    ensures r.0.file == LocalFile(d.file.exists_ || !d.file.isOpen, true, d.file.size)
    ensures RangeOffset(r.0.range) == Some(d.file.size)
    ensures r.0.files == d.files && r.0.actualTotal == d.actualTotal
  {
    RangeRoundTrip(d.file.size);
    var file := if d.file.isOpen then d.file else LocalFile(true, true, d.file.size);
    (d.(file := file, range := RangeFrom(d.file.size)), IssueGet(url))
  }

  /** The remote size from the Content-Length header: its integer value,
      or -1 when it does not parse. */
  function RemoteSize(contentLength: string): (r: int)
    ensures ParseInt(contentLength).Some? ==> r == ParseInt(contentLength).value
    ensures ParseInt(contentLength).None? ==> r == -1
  {
    match ParseInt(contentLength)
    case Some(n) => n
    case None => -1
  }

  /** The disk guard: too little space when the available bytes plus one
      KiB do not exceed the remote size. */
  predicate LowOnSpace(available: int, remote: int) {
    available + 1024 <= remote
  }

  /** `_check_file_existence`: the file exists with exactly the remote size. */
  predicate AlreadyPresent(f: LocalFile, remote: int) {
    f.exists_ && f.size == remote
  }

  /** The size `setData` records, `int(header or -1)`: an empty header
      is -1, any other is converted again, and one that does not parse
      raises ValueError (`None`), this time outside any handler. */
  function RecordedSize(contentLength: string): (r: Option<int>)
    ensures r.None? <==> contentLength != "" && ParseInt(contentLength).None?
    ensures r.Some? ==> r.value == RemoteSize(contentLength)
  {
    if contentLength == "" then Some(-1) else ParseInt(contentLength)
  }

  /** `_HEAD_finished_slot` with the classified error, the Content-Length
      header and the disk's free bytes: an error stops here; too little
      space stops without a download; a header neither empty nor an
      integer raises when the size is recorded; otherwise the size is
      recorded, and a file already present is reported while any other is
      downloaded. */
  function HeadFinished(d: Dl, handled: int, contentLength: string, available: nat, url: string, now: int): (r: (Dl, Effect))
    requires DlWf(d)
    ensures DlWf(r.0)
    ensures handled != 0 ==> r == (d, Nothing)
    ensures handled == 0 ==> r.0.remoteSize == RemoteSize(contentLength)
    ensures handled == 0 && LowOnSpace(available, RemoteSize(contentLength)) ==> r.1 == NotEnoughSpace
    ensures handled == 0 && !LowOnSpace(available, RemoteSize(contentLength)) ==>
      (r.1 == Raised <==> RecordedSize(contentLength).None?)
    ensures handled == 0 && RecordedSize(contentLength).None? ==> r.0 == d.(remoteSize := -1)
    ensures handled == 0 && !LowOnSpace(available, RemoteSize(contentLength)) && RecordedSize(contentLength).Some? ==>
      (r.1 == AlreadyExists <==> AlreadyPresent(d.file, RemoteSize(contentLength)))
    ensures (handled == 0 && !LowOnSpace(available, RemoteSize(contentLength)) && RecordedSize(contentLength).Some?
             && !AlreadyPresent(d.file, RemoteSize(contentLength))) ==>
      r.1 == IssueGet(url) && r.0.actualTotal == 0
    ensures (handled == 0 && !LowOnSpace(available, RemoteSize(contentLength)) && RecordedSize(contentLength).Some?
             && d.files.cursor >= 0) ==>
      r.0.files.fileSize == d.files.fileSize[d.files.cursor := RemoteSize(contentLength)]
  {
    if handled != 0 then (d, Nothing)
    else
      var remote := RemoteSize(contentLength);
      var d1 := d.(remoteSize := remote);
      if LowOnSpace(available, remote) then (d1, NotEnoughSpace)
      else
        match RecordedSize(contentLength)
        case None => (d1, Raised)
        case Some(size) =>
          var d2 := d1.(files := SetFileData(d.files, d.files.cursor, size, "size").1);
          if AlreadyPresent(d.file, remote) then (d2, AlreadyExists)
          else BeginDownload(d2, url, now)
  }

  /** An empty Content-Length never trips the disk guard and is recorded
      as the unknown size -1, so the file is always downloaded. */
  lemma UnknownSizeDownloads(d: Dl, available: nat, url: string, now: int)
    requires DlWf(d)
    ensures HeadFinished(d, 0, "", available, url, now).1 == IssueGet(url)
    ensures d.files.cursor >= 0 ==>
      HeadFinished(d, 0, "", available, url, now).0.files.fileSize == d.files.fileSize[d.files.cursor := -1]
  {
    assert Strip("") == "";
  }

  /** A Content-Length that is neither empty nor an integer passes the
      caught conversion as -1, then raises at the uncaught one: nothing is
      recorded in the files table and no download starts. */
  lemma MalformedSizeRaises(d: Dl, contentLength: string, available: nat, url: string, now: int)
    requires DlWf(d) && contentLength != "" && ParseInt(contentLength).None?
    ensures HeadFinished(d, 0, contentLength, available, url, now) == (d.(remoteSize := -1), Raised)
  {
  }

  /** `_GET_finished_slot` with the classified error: the Range header is
      restored first; a timeout zeroes the speed and waits for the
      reconnect; another error stops; a file whose known size does not
      match is downloaded again from zero; otherwise (an unknown size is
      accepted) the file is completed. */
  function GetFinished(d: Dl, handled: int, url: string, now: int): (r: (Dl, Effect))
    requires DlWf(d)
    ensures DlWf(r.0)
    ensures handled != 0 ==> r.0.range == FullRange && r.1 == Nothing
    ensures handled == -4 ==> r.0.files == SetFileData(d.files, d.files.cursor, 0, "speed").1
    ensures handled != 0 && handled != -4 ==> r.0 == d.(range := FullRange)
    ensures handled == 0 && d.file.isOpen && d.remoteSize != -1 && d.remoteSize != d.file.size ==>
      r.1 == IssueGet(url) && r.0.file == LocalFile(true, true, 0) && r.0.actualTotal == 0
    ensures handled == 0 && !(d.file.isOpen && d.remoteSize != -1 && d.remoteSize != d.file.size) ==>
      r.1 == FileFinished && !r.0.file.isOpen && r.0.file.size == d.file.size
      && r.0.files == SetFileData(d.files, d.files.cursor, FileCompleted, "status").1
  {
    var d1 := d.(range := FullRange);
    if handled == -4 then (d1.(files := SetFileData(d.files, d.files.cursor, 0, "speed").1), Nothing)
    else if handled != 0 then (d1, Nothing)
    else
      var d2 := d1.(file := d.file.(isOpen := false));
      if d.file.isOpen && d.remoteSize != -1 && d.remoteSize != d.file.size then BeginDownload(d2, url, now)
      else (d2.(files := SetFileData(d.files, d.files.cursor, FileCompleted, "status").1), FileFinished)
  }

  /** A completed file either has the remote size or the remote size was
      unknown (or the file was never opened). */
  lemma FinishedMeansSizeChecked(d: Dl, url: string, now: int)
    requires DlWf(d) && d.file.isOpen
    ensures GetFinished(d, 0, url, now).1 == FileFinished <==> d.remoteSize == -1 || d.remoteSize == d.file.size
  {
  }
}
