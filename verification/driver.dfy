/** `HomeController` of the web front end, reduced to the part that drives the
    media library: the polling tick `UpdateData`, which takes one step of the
    controller's state machine per call, the `BeginEncoding` request that
    arms a batch, and the JSON replies both send back. The shared
    `MediaControllerSvc` is an optional controller (null until a page has
    initialised it); the remote answers a tick may need are one `World`. */
module Driver {
  import opened Wrappers
  import opened Text
  import opened Runtime
  import Remote
  import Records
  import Store
  import Composition
  import opened MediaJob
  import C = Controller
  import ClientProtocol

  /** `WAMSConstants`: poll intervals in milliseconds. */
  const DefaultRefreshInterval := 60000
  const ProgressRefreshInterval := 10000
  const TasksDelay := 100

  /** The localised `Resources` strings the replies use; their text lives in
      the resource file, so only their identity matters here. */
  datatype Notice = SessionExpired | JobSubmitted | AssetUploading | JobStarted | JobInProcess | JobFinished | FailedToEncode

  /** A status message: literal text, or a resource string. */
  datatype Message = Text(text: string) | Localized(notice: Notice)

  /** A JSON reply: a `RefreshDataModel` (poll interval and status message), or
      a bare string. */
  datatype Response = Refresh(interval: int, message: Message) | Plain(message: Message)

  /** What the service and the clock answer during one tick: the clock and
      GUIDs for new records, the ingest sources, the processor catalog, the
      finished jobs' outputs and the elapsed-time text. */
  datatype World = World(
    clock: C.Clock,
    source: C.Sources,
    cat: Composition.Catalog,
    outcome: C.Outcomes,
    elapsed: string)

  // ---------------------------------------------------------------------------
  // Replies
  // ---------------------------------------------------------------------------

  /** The fallback message for `n` records still in progress, e.g.
      "There are 3 encoding jobs still in progress...". */
  function InProgressSummary(n: nat): string {
    var plural := n > 1;
    "There" + [' '] + ((if plural then "are" else "is") + [' '] +
      (NatToString(n) + [' '] + ("encoding " + (if plural then "jobs" else "job") + " still in progress...")))
  }

  /** The summary's third word is the count, and the verb agrees with it. */
  lemma SummaryStatesCount(n: nat)
    ensures var words := Split(InProgressSummary(n), ' ');
      |words| >= 3 && ParseNat(words[2]) == Some(n) && (words[1] == "are" <==> n > 1)
  {
    var verb := if n > 1 then "are" else "is";
    var tail := "encoding " + (if n > 1 then "jobs" else "job") + " still in progress...";
    var digits := NatToString(n);
    assert forall i :: 0 <= i < |digits| ==> digits[i] != ' ' by {
      forall i | 0 <= i < |digits| ensures digits[i] != ' ' { assert IsDigit(digits[i]); }
    }
    SplitAtFirst(digits, tail, ' ');
    SplitAtFirst(verb, digits + [' '] + tail, ' ');
    SplitAtFirst("There", verb + [' '] + (digits + [' '] + tail), ' ');
    ParseNatToString(n);
  }

  /** `ConstructJsonResult(message, interval, refreshData)`, where `inProgress`
      is the number of records `GetAssetsInProgress` returns and `None` is a
      null message. A refreshing reply picks its interval from the records in
      progress and ignores the one passed in. */
  function ConstructJsonResult(inProgress: nat, message: Option<Message>, interval: int, refresh: bool): (r: Response)
    ensures r.Refresh?
    ensures message.Some? ==> r.message == message.value
    ensures refresh && inProgress == 0 ==> r.interval == DefaultRefreshInterval
    ensures refresh && inProgress > 0 ==> r.interval == ProgressRefreshInterval
    ensures !refresh ==> r.interval == interval
    ensures message.None? ==> (r.message == Text("") <==> !refresh || inProgress == 0)
  {
    if refresh then
      if inProgress == 0 then Refresh(DefaultRefreshInterval, message.GetOr(Text("")))
      else Refresh(ProgressRefreshInterval, message.GetOr(Text(InProgressSummary(inProgress))))
    else Refresh(interval, message.GetOr(Text("")))
  }

  /** The reply built from the controller's own store. */
  function Reply(c: C.Controller, m: Message, interval: int, refresh: bool): Response {
    ConstructJsonResult(Store.InProgressCount(c.store), Some(m), interval, refresh)
  }

  // ---------------------------------------------------------------------------
  // Session
  // ---------------------------------------------------------------------------

  /** `Initialize`: a new controller replaces the shared one. Its database
      connection string is unset, so it reads and writes the Azure table
      until a page sets the string again; `LastMessage` is static and
      survives. */
  function Initialize(store: Store.Store, lastMessage: string): (c: C.Controller)
    ensures c.state == Initialized && c.jobs == [] && c.collection == [] && c.files == [] && c.tempContainers == []
    ensures !c.store.useSql && c.store.table == store.table && c.store.rows == store.rows
    ensures c.lastMessage == lastMessage && !c.dirty
  {
    C.NewController(store.(useSql := false), lastMessage)
  }

  // ---------------------------------------------------------------------------
  // The polling tick
  // ---------------------------------------------------------------------------

  /** `UpdateData`: one step of the controller chosen by its state. */
  function UpdateData(svc: Option<C.Controller>, w: World): (r: (Option<C.Controller>, Response))
    ensures r.1.Refresh?
    ensures r.1.interval == DefaultRefreshInterval || r.1.interval == ProgressRefreshInterval
    ensures r.0.None? <==> svc.None?
  {
    if svc.None? then (None, ConstructJsonResult(0, Some(Localized(SessionExpired)), DefaultRefreshInterval, false))
    else
      var c := svc.value;
      match c.state
      case Ready =>
        var made := C.CreateMediaEntries(C.CreateMediaJobs(c), w.clock);
        (Some(made.0), Reply(made.0, Text(made.1), TasksDelay, true))
      case Created =>
        var p := C.ProcessMedia(c, w.source);
        if !p.1 then (Some(p.0), Reply(p.0, Text(p.0.lastMessage), DefaultRefreshInterval, true))
        else (Some(p.0), Reply(p.0, Text(""), ProgressRefreshInterval, true))
      case Ingesting =>
        (svc, Reply(c, Localized(AssetUploading), ProgressRefreshInterval, false))
      case Ingested =>
        var b := C.BeginEncoding(c, w.cat, w.elapsed);
        if !b.1 then (Some(b.0), Reply(b.0, Text(b.0.lastMessage), DefaultRefreshInterval, true))
        else (Some(b.0), Reply(b.0, Text(""), ProgressRefreshInterval, true))
      case Started =>
        (Some(c.(dirty := false)), Reply(c, Localized(JobStarted), ProgressRefreshInterval, c.dirty))
      case Queued =>
        (Some(c.(dirty := false)), Reply(c, Localized(JobInProcess), ProgressRefreshInterval, c.dirty))
      case Processed =>
        var g := C.GetJobResults(c, w.outcome, w.clock, w.elapsed);
        (Some(g.0), Reply(g.0, if g.1 then Localized(JobFinished) else Text(g.0.lastMessage), DefaultRefreshInterval, true))
      case Canceled =>
        var renewed := Initialize(c.store, c.lastMessage);
        (Some(renewed), Reply(renewed, Localized(FailedToEncode), DefaultRefreshInterval, true))
      case Initialized =>
        (svc, Reply(c, Text(""), DefaultRefreshInterval, false))
      case InProcess =>
        (svc, Reply(c, Text(""), DefaultRefreshInterval, false))
  }

  /** Without a controller every tick reports an expired session and does
      nothing else. */
  lemma TickWithoutSession(w: World)
    ensures UpdateData(None, w) == (None, Refresh(DefaultRefreshInterval, Localized(SessionExpired)))
  {
  }

  /** In Ready a tick creates the jobs and the entries and reports what
      creating the entries returned, refreshing the client's table. */
  lemma TickInReady(c: C.Controller, w: World)
    requires c.state == Ready
    ensures var r := UpdateData(Some(c), w);
      var made := C.CreateMediaEntries(C.CreateMediaJobs(c), w.clock);
      r.0 == Some(made.0) && r.1.message == Text(made.1) &&
      r.1.interval == (if Store.InProgressCount(made.0.store) == 0 then DefaultRefreshInterval else ProgressRefreshInterval)
  {
  }

  /** While the files are being ingested a tick touches nothing and asks to
      be polled again at the progress rate. */
  lemma TickWhileIngesting(c: C.Controller, w: World)
    requires c.state == Ingesting
    ensures UpdateData(Some(c), w) == (Some(c), Refresh(ProgressRefreshInterval, Localized(AssetUploading)))
  {
  }

  /** A failed ingest or submission is reported with the library's last
      message, and leaves the controller Canceled. */
  lemma TickFailureCancels(c: C.Controller, w: World)
    requires c.state == Created || c.state == Ingested
    ensures var r := UpdateData(Some(c), w);
      var failed := if c.state == Created then !C.ProcessMedia(c, w.source).1 else !C.BeginEncoding(c, w.cat, w.elapsed).1;
      failed ==> r.0.value.state == Canceled && r.1.message == Text(r.0.value.lastMessage)
    ensures var r := UpdateData(Some(c), w);
      var ok := if c.state == Created then C.ProcessMedia(c, w.source).1 else C.BeginEncoding(c, w.cat, w.elapsed).1;
      ok ==> r.0.value.state == (if c.state == Created then (if |c.jobs| > 0 then Ingesting else Created) else Started) &&
             r.1.message == Text("")
  {
  }

  /** The dirty-flag handshake: while jobs run, a tick reports the flag as the
      reply's refresh request and clears it, so a second tick with no job
      event in between asks for no refresh and changes nothing more. */
  lemma DirtyHandshake(c: C.Controller, w: World, w': World)
    requires c.state == Started || c.state == Queued
    ensures var r := UpdateData(Some(c), w);
      r.0 == Some(c.(dirty := false)) &&
      (!c.dirty ==> r.1.interval == ProgressRefreshInterval) &&
      r.1.message == Localized(if c.state == Started then JobStarted else JobInProcess)
    ensures var r := UpdateData(Some(c), w);
      var r' := UpdateData(r.0, w');
      r'.0 == r.0 && r'.1 == Refresh(ProgressRefreshInterval, r.1.message)
  {
  }

  /** Harvesting the results always leaves the controller Initialized, and the
      reply says the jobs finished exactly when a result was recorded. */
  lemma TickHarvests(c: C.Controller, w: World)
    requires c.state == Processed
    ensures var r := UpdateData(Some(c), w);
      var g := C.GetJobResults(c, w.outcome, w.clock, w.elapsed);
      r.0 == Some(g.0) && r.0.value.state == Initialized && !r.0.value.dirty &&
      (r.1.message == Localized(JobFinished) <==> g.1)
  {
  }

  /** After a cancellation the next tick starts over with a fresh controller,
      on the table store, reporting the failure. */
  lemma TickAfterCancel(c: C.Controller, w: World)
    requires c.state == Canceled
    ensures var r := UpdateData(Some(c), w);
      r.0 == Some(Initialize(c.store, c.lastMessage)) && r.1.message == Localized(FailedToEncode)
    ensures var r := UpdateData(Some(c), w);
      r.0.value.state == Initialized && r.0.value.jobs == [] && r.0.value.collection == []
  {
  }

  /** A failed ingest is followed, one tick later, by a fresh controller and
      the failure notice: no failure leaves the session stuck. */
  lemma FailedIngestRecovers(c: C.Controller, w: World, w': World)
    requires c.state == Created && !C.ProcessMedia(c, w.source).1
    ensures var r := UpdateData(Some(c), w);
      var r' := UpdateData(r.0, w');
      r'.0.value.state == Initialized && r'.0.value.jobs == [] &&
      r'.1.message == Localized(FailedToEncode)
  {
    TickFailureCancels(c, w);
    TickAfterCancel(UpdateData(Some(c), w).0.value, w');
  }

  /** Initialized and InProcess are idle: a tick changes nothing and asks for
      no refresh. */
  lemma TickWhenIdle(c: C.Controller, w: World)
    requires c.state == Initialized || c.state == InProcess
    ensures UpdateData(Some(c), w) == (Some(c), Refresh(DefaultRefreshInterval, Text("")))
  {
  }

  /** The `TasksDelay` interval passed in Ready never reaches the client: a
      refreshing reply always picks its interval from the records in
      progress. */
  lemma TasksDelayNeverSent(svc: Option<C.Controller>, w: World)
    ensures UpdateData(svc, w).1.interval != TasksDelay
  {
  }

  // ---------------------------------------------------------------------------
  // Arming a batch
  // ---------------------------------------------------------------------------

  /** `SetProtectionLevel`: without a controller it answers the expired-session
      notice; otherwise it stores the protection the code selects and
      answers "". */
  function SetProtectionLevel(svc: Option<C.Controller>, code: string): (r: (Option<C.Controller>, Message))
    ensures svc.None? ==> r == (None, Localized(SessionExpired))
    ensures svc.Some? ==> r.1 == Text("") && r.0.Some? && r.0 == Some(svc.value.(encryption := r.0.value.encryption))
    ensures svc.Some? ==> (r.0.value.encryption == Remote.Unencrypted <==> code !in {"1", "2", "3"})
  {
    if svc.None? then (None, Localized(SessionExpired))
    else (Some(svc.value.(encryption := ClientProtocol.ProtectionLevel(code))), Text(""))
  }

  /** The form fields `BeginEncoding` reads. `expiry` is the posted date as
      ticks when it is present and parses. */
  datatype Params = Params(presets: string, delimiter: string, processor: string, protection: string, expiry: Option<int>)

  /** `BeginEncoding` (the request): the presets split on the delimiter's
      first character become the encoders, the processor and protection are
      stored, the expiry is the posted date minus `now` or one day, and the
      controller is Ready. The binder turns empty fields into null; the split
      runs before the missing controller is dereferenced, and whichever throws
      first, the exception's message is the reply and nothing is stored. */
  function BeginEncoding(svc: Option<C.Controller>, p: Params, now: int): (r: (Option<C.Controller>, Response))
    ensures svc.None? || p.presets == "" || p.delimiter == "" ==> r == (svc, Plain(Text(NullReference)))
    ensures svc.Some? && p.presets != "" && p.delimiter != "" ==>
      r.1 == Refresh(ProgressRefreshInterval, Localized(JobSubmitted)) &&
      r.0.Some? && r.0.value.state == Ready &&
      r.0.value.encoders == Split(p.presets, p.delimiter[0]) &&
      r.0.value.mediaProcessor == p.processor &&
      r.0.value.encryption == ClientProtocol.ProtectionLevel(p.protection) &&
      r.0.value.expireOn == (if p.expiry.Some? then p.expiry.value - now else Records.TicksPerDay)
    ensures r.0.Some? ==> r.0.value == svc.value.(state := r.0.value.state, encoders := r.0.value.encoders,
      mediaProcessor := r.0.value.mediaProcessor, encryption := r.0.value.encryption, expireOn := r.0.value.expireOn)
  {
    match ClientProtocol.GetEncodingPresets(ClientProtocol.Bound(p.presets), ClientProtocol.Bound(p.delimiter))
    case Err(e) => (svc, Plain(Text(e)))
    case Ok(encoders) =>
      if svc.None? then (None, Plain(Text(NullReference)))
      else
        var c := svc.value.(encoders := encoders, mediaProcessor := p.processor);
        var prot := SetProtectionLevel(Some(c), p.protection);
        if prot.1 != Text("") then (prot.0, Plain(prot.1))
        else
          var span := if p.expiry.Some? then p.expiry.value - now else Records.TicksPerDay;
          var armed := C.SetReady(prot.0.value.(expireOn := span));
          (Some(armed), ConstructJsonResult(0, Some(Localized(JobSubmitted)), ProgressRefreshInterval, false))
  }

  /** The browser's request for a non-empty selection of ';'-free preset ids
      (other than the single empty id) arms the controller with exactly those
      ids as its encoders, and the next tick turns them into records; an empty
      selection is answered with a null reference and arms nothing. */
  lemma BrowserSelectionArmsEncoders(c: C.Controller, ids: seq<string>, processor: string, protection: string, now: int)
    requires |ids| >= 1 && NoneContain(ids, ';') && ids != [""]
    ensures var form := ClientProtocol.GetServerData(processor, ids, protection, "");
      var r := BeginEncoding(Some(c), Params(form.presets, form.presetDelimiter, processor, protection, None), now);
      r.0.value.encoders == ids && r.0.value.state == Ready && r.0.value.expireOn == Records.TicksPerDay
  {
    ClientProtocol.PresetsRoundTrip(processor, ids, protection, "");
  }

  /** An empty selection is answered with the null reference of the split and
      leaves the session as it was. */
  lemma EmptySelectionArmsNothing(svc: Option<C.Controller>, processor: string, protection: string, now: int)
    ensures var form := ClientProtocol.GetServerData(processor, [], protection, "");
      BeginEncoding(svc, Params(form.presets, form.presetDelimiter, processor, protection, None), now) == (svc, Plain(Text(NullReference)))
  {
    ClientProtocol.EmptySelectionIsNull(processor, protection, "");
  }
}
