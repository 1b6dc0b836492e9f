/** The network access manager (`downloader/base_classes/network_access_manager.py`
    and the Hitomi subclass): how a reply's error code is classified and
    whether a reconnect probe is scheduled, the per-verb request spacing,
    the reconnect probe, and the Hitomi gg.js refresh. Timers become
    explicit times in milliseconds and flags in the manager record. */
module Transport {
  import opened Wrappers

  /** Spacing and timeouts, in milliseconds. */
  const RetryCooldown: int := 3000
  const ReplyTimeout: int := 10000
  const RequestCooldown: int := 2000

  /** The page the reconnect probe asks for. */
  const RetryUrl: string := "https://github.com/london-69/library-of-h"

  /** Qt's code for an aborted reply, and the code reported for an abort
      caused by the transfer timeout. */
  const OperationCanceled: int := 5
  const ReplyTimeoutCode: int := -4

  datatype Verb = Get | Head

  /** The manager's state:
      - `timeout`: an abort of the reply is taken to be the transfer
        timeout unless `abort()` cleared this flag;
      - `retryArmed`: the single-shot reconnect timer has been started;
      - `getStart`, `headStart`: when each verb's spacing clock last
        restarted;
      - `callback`: the stored reconnect callback;
      - `slots`: the stored reply signal-to-slot connections;
      - `url`, `headers`: the shared request. */
  datatype Manager = Manager(
    timeout: bool,
    retryArmed: bool,
    getStart: int,
    headStart: int,
    callback: Option<string>,
    slots: map<string, string>,
    url: string,
    headers: map<string, string>)

  /** The headers every request carries. */
  const UserAgent: string := "Mozilla/5.0 (X11; Linux x86_64) AppleWebKit/537.36 (KHTML, like Gecko) Chrome/100.0.4896.127 Safari/537.36 OPR/86.0.4363.50"
  const BaseHeaders: map<string, string> :=
    map["User-Agent" := UserAgent, "Cache-Control" := "no-cache", "Pragma" := "no-cache"]

  /** The constructor at time `now`: the timeout flag set, no retry armed,
      both spacing clocks started, nothing stored. */
  function NewManager(now: int): (r: Manager)
    ensures r.timeout && !r.retryArmed && r.getStart == now && r.headStart == now
    ensures r.callback == None && r.slots == map[] && r.headers == BaseHeaders
  {
    Manager(true, false, now, now, None, map[], "", BaseHeaders)
  }

  /** `set_request_header`: a raw header replaces one of the same name. */
  function SetHeader(m: Manager, name: string, value: string): (r: Manager)
    ensures name in r.headers && r.headers[name] == value
    ensures forall h :: h in m.headers && h != name ==> h in r.headers && r.headers[h] == m.headers[h]
    ensures r.headers.Keys == m.headers.Keys + {name}
    ensures r == m.(headers := r.headers)
  {
    m.(headers := m.headers[name := value])
  }

  // Error classification.

  /** What `handle_error` reports: the code it returns, whether it started
      the reconnect timer, and whether it emitted `disconnected`. */
  datatype Handled = Handled(code: int, retry: bool, disconnected: bool)

  /** The codes with a reconnect: connection refused, remote host closed,
      host not found, connection timeout, and service unavailable. */
  predicate Transient(code: int) {
    code == 1 || code == 2 || code == 3 || code == 4 || code == 403
  }

  /** `handle_error` dispatching to `_handle_<code>` or `_handle_other`. */
  function HandleError(m: Manager, code: int): (r: (Manager, Handled))
    ensures r.1.retry <==> Transient(code) || (code == OperationCanceled && m.timeout)
    ensures r.1.disconnected <==> code == OperationCanceled && m.timeout
    ensures r.1.code == (if code == OperationCanceled && m.timeout then ReplyTimeoutCode else code)
    ensures r.0.retryArmed == (m.retryArmed || r.1.retry)
    ensures r.0.timeout == (m.timeout || code == OperationCanceled)
    ensures r.0 == m.(retryArmed := r.0.retryArmed, timeout := r.0.timeout)
  {
    if code == 0 then (m, Handled(0, false, false))
    else if Transient(code) then (m.(retryArmed := true), Handled(code, true, false))
    else if code == OperationCanceled then
      if m.timeout then (m.(retryArmed := true), Handled(ReplyTimeoutCode, true, true))
      else (m.(timeout := true), Handled(OperationCanceled, false, false))
    else (m, Handled(code, false, false))
  }

  /** `abort()`: the flag records that the coming cancellation was asked
      for rather than a timeout. */
  function Abort(m: Manager): (r: Manager)
    ensures !r.timeout && r == m.(timeout := false)
  {
    m.(timeout := false)
  }

  /** After `abort()`, the cancellation is reported as code 5 with no
      reconnect, and the flag is set back; a cancellation without
      `abort()` is a timeout: -4, `disconnected` and a reconnect. */
  lemma AbortedIsNotTimeout(m: Manager)
    ensures HandleError(Abort(m), OperationCanceled) == (m.(timeout := true), Handled(OperationCanceled, false, false))
    ensures m.timeout ==>
      HandleError(m, OperationCanceled) == (m.(retryArmed := true), Handled(ReplyTimeoutCode, true, true))
  {
  }

  /** Success schedules nothing; access denied, not found and every code
      without a handler are reported unchanged with no reconnect. */
  lemma TerminalCodes(m: Manager, code: int)
    requires code == 0 || code == 201 || code == 203 || (!Transient(code) && code != OperationCanceled)
    ensures HandleError(m, code) == (m, Handled(code, false, false))
  {
  }

  // Request spacing.

  datatype Issue = Issued | Deferred(waitMs: int)

  /** `get` / `head` at time `now`: a supplied callback or slot set
      replaces the stored one; a request less than the cooldown after the
      last request of the same verb is deferred by the rest of the
      cooldown, any other is issued and restarts that verb's clock. */
  function Request(m: Manager, verb: Verb, now: int, callback: Option<string>, slots: map<string, string>): (r: (Manager, Issue))
    ensures r.0.callback == (if callback.Some? then callback else m.callback)
    ensures r.0.slots == (if slots != map[] then slots else m.slots)
    ensures var start := if verb == Get then m.getStart else m.headStart;
      (now - start < RequestCooldown ==> r.1 == Deferred(RequestCooldown - (now - start)))
      && (now - start >= RequestCooldown ==> r.1 == Issued)
    ensures verb == Get ==>
      (r.0.headStart == m.headStart && r.0.getStart == (if r.1 == Issued then now else m.getStart))
    ensures verb == Head ==>
      (r.0.getStart == m.getStart && r.0.headStart == (if r.1 == Issued then now else m.headStart))
    ensures r.0.timeout == m.timeout && r.0.retryArmed == m.retryArmed && r.0.url == m.url && r.0.headers == m.headers
  {
    var m1 := m.(callback := if callback.Some? then callback else m.callback,
                 slots := if slots != map[] then slots else m.slots);
    var start := if verb == Get then m.getStart else m.headStart;
    if now - start < RequestCooldown then (m1, Deferred(RequestCooldown - (now - start)))
    else if verb == Get then (m1.(getStart := now), Issued)
    else (m1.(headStart := now), Issued)
  }

  /** A deferred request waits exactly until the cooldown has passed, and
      when the wait timer calls it again with nothing new it is issued. */
  lemma DeferredThenIssued(m: Manager, verb: Verb, now: int, callback: Option<string>, slots: map<string, string>)
    requires Request(m, verb, now, callback, slots).1.Deferred?
    ensures var (m1, d) := Request(m, verb, now, callback, slots);
      0 < d.waitMs
      && Request(m1, verb, now + d.waitMs, None, map[]) == (
           if verb == Get then m1.(getStart := now + d.waitMs) else m1.(headStart := now + d.waitMs), Issued)
  {
  }

  /** The two verbs are spaced independently: a request of one verb never
      changes whether the other is deferred. */
  lemma VerbsIndependent(m: Manager, now: int, later: int, callback: Option<string>, slots: map<string, string>)
    ensures Request(Request(m, Get, now, callback, slots).0, Head, later, None, map[]).1
         == Request(m, Head, later, None, map[]).1
    ensures Request(Request(m, Head, now, callback, slots).0, Get, later, None, map[]).1
         == Request(m, Get, later, None, map[]).1
  {
  }

  // The reconnect probe.

  /** The retry timer firing: the request is pointed at the probe page and
      a HEAD is sent at once, outside the spacing. */
  function RetryFires(m: Manager): (r: Manager)
    ensures r.url == RetryUrl && !r.retryArmed
    ensures r.callback == m.callback && r.slots == m.slots && r.headers == m.headers && r.timeout == m.timeout
    ensures r.getStart == m.getStart && r.headStart == m.headStart
  {
    m.(retryArmed := false, url := RetryUrl)
  }

  /** The probe restarts neither verb's clock: a request after it is
      deferred or issued exactly as it would have been without it. */
  lemma ProbeOutsideSpacing(m: Manager, verb: Verb, now: int, callback: Option<string>, slots: map<string, string>)
    ensures Request(RetryFires(m), verb, now, callback, slots).1 == Request(m, verb, now, callback, slots).1
    ensures Request(RetryFires(m), verb, now, callback, slots).0
         == Request(m, verb, now, callback, slots).0.(retryArmed := false, url := RetryUrl)
  {
  }

  /** What the probe's completion does. */
  datatype Probe = StillDown(handled: Handled) | Reconnected(calls: Option<string>)

  /** `_retry_finished_slot`: the probe's error is classified like any
      other (a failure arms the next probe); success emits `reconnected`
      and then calls the stored callback, if any. */
  function RetryFinished(m: Manager, code: int): (r: (Manager, Probe))
    ensures r.0 == HandleError(m, code).0
    ensures r.1.Reconnected? <==> code == 0
    ensures r.1.Reconnected? ==> r.1.calls == m.callback
    ensures r.1.StillDown? ==> r.1.handled == HandleError(m, code).1
  {
    var (m1, h) := HandleError(m, code);
    if h.code != 0 then (m1, StillDown(h)) else (m1, Reconnected(m.callback))
  }

  /** A request that supplies a callback is the one a later reconnect
      calls, until another request supplies a new one. */
  lemma ReconnectCallsLastCallback(m: Manager, verb: Verb, now: int, cb: string, slots: map<string, string>, later: Verb, t: int)
    ensures var m1 := Request(Request(m, verb, now, Some(cb), slots).0, later, t, None, map[]).0;
      RetryFinished(RetryFires(m1), 0).1 == Reconnected(Some(cb))
  {
  }

  // Hitomi.

  const HitomiDomain: string := "ltn.hitomi.la"
  const GgUrl: string := "https://" + HitomiDomain + "/gg.js"
  const HitomiAccept: string := "text/html,application/xhtml+xml,application/xml;q=0.9,image/avif,image/webp,image/apng,*/*;q=0.8,application/signed-exchange;v=b3;q=0.9"
  const HitomiReferer: string := "https://hitomi.la/"
  const NhentaiReferer: string := "https://www.nhentai.net"

  /** The Accept and Referer headers are new to the base headers. */
  lemma SiteHeadersNew()
    ensures "Accept" !in BaseHeaders && "Referer" !in BaseHeaders && "Accept" != "Referer"
  {
    assert BaseHeaders.Keys == {"User-Agent", "Cache-Control", "Pragma"};
  }

  /** A site's manager: the base headers, the Accept header and the site
      as Referer. */
  function SiteManager(now: int, referer: string): (r: Manager)
    ensures r.headers.Keys == BaseHeaders.Keys + {"Accept", "Referer"}
    ensures "Accept" in r.headers && r.headers["Accept"] == HitomiAccept
    ensures "Referer" in r.headers && r.headers["Referer"] == referer
    ensures forall h :: h in BaseHeaders ==> h in r.headers && r.headers[h] == BaseHeaders[h]
    ensures r == NewManager(now).(headers := r.headers)
  {
    SiteHeadersNew();
    AddTwoHeaders(BaseHeaders, "Accept", HitomiAccept, "Referer", referer);
    var m := NewManager(now);
    var m1 := SetHeader(m, "Accept", HitomiAccept);
    SetHeader(m1, "Referer", referer)
  }

  /** Two new headers added to a header map: both are there with their
      values, and the old ones keep theirs. */
  lemma AddTwoHeaders(base: map<string, string>, a: string, va: string, b: string, vb: string)
    requires a !in base && b !in base && a != b
    ensures base[a := va][b := vb].Keys == base.Keys + {a, b}
    ensures base[a := va][b := vb][a] == va && base[a := va][b := vb][b] == vb
    ensures forall h :: h in base ==> base[a := va][b := vb][h] == base[h]
  {
  }

  /** The Hitomi manager adds an Accept header and the site as Referer to
      the base headers. */
  function NewHitomiManager(now: int): (r: Manager)
    ensures r.headers.Keys == BaseHeaders.Keys + {"Accept", "Referer"}
    ensures r.headers["Accept"] == HitomiAccept && r.headers["Referer"] == HitomiReferer
    ensures forall h :: h in BaseHeaders ==> r.headers[h] == BaseHeaders[h]
    ensures r == NewManager(now).(headers := r.headers)
  {
    SiteManager(now, HitomiReferer)
  }

  /** The nhentai manager adds the same Accept header and its own Referer. */
  function NewNhentaiManager(now: int): (r: Manager)
    ensures r.headers.Keys == BaseHeaders.Keys + {"Accept", "Referer"}
    ensures r.headers["Accept"] == HitomiAccept && r.headers["Referer"] == NhentaiReferer
    ensures forall h :: h in BaseHeaders ==> r.headers[h] == BaseHeaders[h]
    ensures r == NewManager(now).(headers := r.headers)
  {
    SiteManager(now, NhentaiReferer)
  }

  /** `handle_gg_error`: access denied or not found while fetching an image
      means gg.js changed, so it is fetched again (a GET of the gg.js URL
      whose data goes to `_check_gg`) and the code is returned; any other
      code is classified by `handle_error`. */
  function HandleGgError(m: Manager, code: int, now: int): (r: (Manager, Handled, Option<Issue>))
    ensures code == 201 || code == 203 ==>
      r.1 == Handled(code, false, false) && r.0.url == GgUrl && r.2.Some?
      && (r.0, r.2.value) == Request(m.(url := GgUrl), Get, now, None, map["readyRead" := "_check_gg"])
    ensures code != 201 && code != 203 ==> (r.0, r.1) == HandleError(m, code) && r.2 == None
  {
    if code == 201 || code == 203 then
      var (m1, issue) := Request(m.(url := GgUrl), Get, now, None, map["readyRead" := "_check_gg"]);
      (m1, Handled(code, false, false), Some(issue))
    else
      var (m1, h) := HandleError(m, code);
      (m1, h, None)
  }

  /** The gg.js refresh and the base classification agree on every code
      but the two that mean gg.js changed. */
  lemma GgAgreesElsewhere(m: Manager, code: int, now: int)
    ensures HandleGgError(m, code, now).1.code == HandleError(m, code).1.code
    ensures code != 201 && code != 203 ==> HandleGgError(m, code, now).1 == HandleError(m, code).1
  {
  }

  /** The Hitomi downloader's classification: video ("anime") galleries
      use the base rules, all others the gg.js rules. */
  function HitomiRuntimeError(typeName: string, m: Manager, code: int, now: int): (r: (Manager, Handled))
    ensures typeName == "anime" ==> r == HandleError(m, code)
    ensures typeName != "anime" ==> r == (HandleGgError(m, code, now).0, HandleGgError(m, code, now).1)
  {
    if typeName == "anime" then HandleError(m, code)
    else
      var (m1, h, _) := HandleGgError(m, code, now);
      (m1, h)
  }

  /** The Hitomi downloader's `download`: which file generator the session
      uses, "anime" for videos and "image" otherwise. */
  function HitomiGeneratorKind(typeName: string): (r: string)
    ensures r == "anime" <==> typeName == "anime"
    ensures r == "anime" || r == "image"
  {
    if typeName == "anime" then "anime" else "image"
  }
}
