/** `Media`, the orchestrator of the older web role: the same batch of
    uploads, records and encoding jobs as the media library's controller,
    but with its own state enum, a table-only record store, a shared upload
    throttle, and a background work item that encodes and harvests in one
    go. SDK callbacks are explicit event operations, remote answers are
    inputs. */
module Legacy {
  import opened Wrappers
  import opened Text
  import opened Runtime
  import Remote
  import opened Records
  import TableStore
  import Store
  import opened Uploads
  import Composition
  import Publication
  import MediaJob
  import C = Controller

  /** The older `MediaStates`. */
  datatype MediaState = Ready | Created | Started | Ingested | Queued | Processed | Canceled

  /** The orchestrator's fields. `collection` is `CurrentAssetCollection` in
      insertion order; `ingestAssets` holds the names of the assets the
      publish event delivered; `policyDuration` is the access policy's
      duration in ticks (null until a policy is set); `jobs` is the private
      job collection; `table` the records. */
  datatype Media = Media(
    state: MediaState,
    files: seq<FileUploadModel>,
    encryption: Remote.Protection,
    mediaProcessor: string,
    encoders: seq<string>,
    assetLocators: seq<string>,
    sasUrls: seq<string>,
    collection: seq<Composition.Entry>,
    ingestAssets: seq<string>,
    tempContainers: seq<string>,
    policyDuration: Option<int>,
    jobs: seq<Composition.JobSpec>,
    table: TableStore.Table)

  // ---------------------------------------------------------------------------
  // Life cycle
  // ---------------------------------------------------------------------------

  /** `Init`: the file and encoder lists are emptied and the state is Ready. */
  function Init(m: Media): (r: Media)
    ensures r.state == Ready && r.files == [] && r.encoders == []
    ensures r.collection == m.collection && r.jobs == m.jobs && r.table == m.table
    ensures r.tempContainers == m.tempContainers && r.ingestAssets == m.ingestAssets
  {
    m.(files := [], encoders := [], state := Ready)
  }

  /** The constructor over a record table. */
  function NewMedia(table: TableStore.Table): (m: Media)
    ensures m.state == Ready && m.files == [] && m.collection == [] && m.jobs == [] && m.ingestAssets == []
    ensures m.policyDuration.None? && m.table == table
  {
    Init(Media(Ready, [], Remote.Unencrypted, "", [], [], [], [], [], [], None, [], table))
  }

  /** `CreateMediaChannel`: the published-asset list starts empty and the
      state is Ready. */
  function CreateMediaChannel(m: Media): (r: Media)
    ensures r.state == Ready && r.ingestAssets == []
    ensures r.(state := m.state, ingestAssets := m.ingestAssets) == m
  {
    m.(ingestAssets := [], state := Ready)
  }

  /** `SetAccessPolicy()`: the default read policy lasts one day. */
  function SetAccessPolicy(m: Media): (r: Media)
    ensures r.policyDuration == Some(TicksPerDay)
    ensures r.(policyDuration := m.policyDuration) == m
  {
    m.(policyDuration := Some(TicksPerDay))
  }

  /** `Reset`: only in Ready or Canceled are the encoders, locators, SAS URLs,
      files and the collection dropped. */
  function Reset(m: Media): (r: Media)
    ensures r.state == m.state && r.jobs == m.jobs && r.table == m.table && r.ingestAssets == m.ingestAssets
    ensures m.state == Ready || m.state == Canceled ==>
      r.encoders == [] && r.assetLocators == [] && r.sasUrls == [] && r.files == [] && r.collection == []
    ensures m.state != Ready && m.state != Canceled ==> r == m
  {
    if m.state == Ready || m.state == Canceled then
      m.(encoders := [], assetLocators := [], sasUrls := [], files := [], collection := [])
    else m
  }

  /** The library state of the same name. */
  function ToLibrary(s: MediaState): (r: MediaJob.MediaState) {
    match s
    case Ready => MediaJob.Ready
    case Created => MediaJob.Created
    case Started => MediaJob.Started
    case Ingested => MediaJob.Ingested
    case Queued => MediaJob.Queued
    case Processed => MediaJob.Processed
    case Canceled => MediaJob.Canceled
  }

  /** The fields both orchestrators keep alike. */
  predicate Corresponds(m: Media, c: C.Controller) {
    ToLibrary(m.state) == c.state && m.files == c.files && m.encoders == c.encoders && m.collection == c.collection
  }

  /** Both variants reset the same lists in the same states. */
  lemma ResetsAgree(m: Media, c: C.Controller)
    requires Corresponds(m, c)
    ensures Corresponds(Reset(m), C.Reset(c))
  {
  }

  // ---------------------------------------------------------------------------
  // State mapping
  // ---------------------------------------------------------------------------

  /** `UpdateMediaState`: the orchestrator state a remote job state leads to. */
  function UpdateMediaState(current: MediaState, js: Remote.JobState): (r: MediaState)
    ensures js == Remote.Canceled || js == Remote.Canceling || js == Remote.Error ==> r == Canceled
    ensures js == Remote.Finished ==> r == Ready
    ensures js == Remote.Processing ==> r == Processed
    ensures js == Remote.Queued || js == Remote.Scheduled ==> r == Queued
  {
    match js
    case Canceled => Canceled
    case Canceling => Canceled
    case Error => Canceled
    case Finished => Ready
    case Processing => Processed
    case Queued => Queued
    case Scheduled => Queued
  }

  /** The two variants' mappings agree on failures and on queueing; they part
      on the two states that mean progress: a finished job makes the older
      orchestrator Ready and the library's job Processed, and a processing
      job makes the older one Processed while the library's job stays put. */
  lemma MappingsCompared(s: MediaState, js: Remote.JobState)
    ensures js != Remote.Finished && js != Remote.Processing ==>
      ToLibrary(UpdateMediaState(s, js)) == MediaJob.UpdateMediaState(ToLibrary(s), js)
    ensures js == Remote.Finished ==>
      UpdateMediaState(s, js) == Ready && MediaJob.UpdateMediaState(ToLibrary(s), js) == MediaJob.Processed
    ensures js == Remote.Processing ==>
      UpdateMediaState(s, js) == Processed && MediaJob.UpdateMediaState(ToLibrary(s), js) == ToLibrary(s)
  {
  }

  // ---------------------------------------------------------------------------
  // Upload progress
  // ---------------------------------------------------------------------------

  /** The upload throttle of the older `MediaServicesAPI`: an event is
      forwarded when it is past 4% and more than 5 points above the last
      forwarded one, which it then replaces. */
  function Throttle(previous: int, progress: int): (r: (bool, int))
    ensures r.0 ==> r.1 == progress && progress > 4 && progress > previous + 5
    ensures !r.0 ==> r.1 == previous && (progress <= 4 || progress <= previous + 5)
  {
    if progress > 4 && progress - previous > 5 then (true, progress) else (false, previous)
  }

  /** The progress values forwarded from a run of events. */
  function Forwarded(previous: int, events: seq<int>): (r: seq<int>)
    ensures forall i :: 0 <= i < |r| ==> r[i] > previous + 5 && r[i] > 4 && r[i] in events
    ensures forall i, j :: 0 <= i < j < |r| ==> r[j] > r[i] + 5
    decreases |events|
  {
    if |events| == 0 then []
    else
      var t := Throttle(previous, events[0]);
      var rest := Forwarded(t.1, events[1..]);
      assert forall i :: 0 <= i < |rest| ==> rest[i] in events by {
        forall i | 0 <= i < |rest| ensures rest[i] in events {
          var j :| 0 <= j < |events[1..]| && events[1..][j] == rest[i];
          assert events[j + 1] == rest[i];
        }
      }
      if t.0 then [events[0]] + rest else rest
  }

  /** The throttle is one counter for all files of an ingest: once a file has
      been forwarded at `p`, no event of a later file at `p + 5` or below is
      ever forwarded, so that file's records never show its progress. */
  lemma {:induction false} SharedThrottleSilencesLaterFiles(p: int, events: seq<int>)
    requires forall i :: 0 <= i < |events| ==> events[i] <= p + 5
    ensures Forwarded(p, events) == []
    decreases |events|
  {
    if |events| > 0 {
      SharedThrottleSilencesLaterFiles(p, events[1..]);
    }
  }

  /** The status a forwarded event writes: `"{0:0}% Uploaded"`. */
  function UploadedStatus(progress: nat): string {
    NatToString(progress) + "% Uploaded"
  }

  /** `IsProgressMatch`: a status without '%' always matches; otherwise the
      number before the first '%' must parse and be below the new progress. */
  function IsProgressMatch(status: string, progress: nat): (r: bool)
    ensures '%' !in status ==> r
    ensures r && '%' in status ==> ParseNat(Before(status, '%')).Some? && ParseNat(Before(status, '%')).value < progress
  {
    if '%' !in status then true
    else match ParseNat(Before(status, '%'))
      case None => false
      case Some(v) => v < progress
  }

  /** The number in front of "% Uploaded" is the progress written. */
  lemma UploadedPrefix(p: nat)
    ensures '%' in UploadedStatus(p)
    ensures Before(UploadedStatus(p), '%') == NatToString(p)
  {
    var s := UploadedStatus(p);
    var d := NatToString(p);
    assert s[|d|] == '%';
    var r := Before(s, '%');
    assert forall i :: 0 <= i < |d| ==> s[i] == d[i] && IsDigit(d[i]);
    assert r == s[..|r|] && d == s[..|d|];
  }

  /** An upload status never moves backwards: once a record says `p`%, a
      later event matches it exactly when its progress is above `p`. */
  lemma ProgressNeverMovesBackwards(p: nat, q: nat)
    ensures IsProgressMatch(UploadedStatus(p), q) <==> p < q
  {
    UploadedPrefix(p);
    ParseNatToString(p);
  }

  /** Whether the upload handler updates the record of `key` for a file
      titled `name` at `progress`. */
  predicate Hit(t: TableStore.Table, key: string, name: string, progress: nat) {
    Before(key, ';') == name && SplitKey(key).Ok? && SplitKey(key).value in t &&
    IsProgressMatch(t[SplitKey(key).value].status, progress)
  }

  /** The first collection key, from `i` on, whose record the handler
      updates: keys of other titles are skipped, a key of this title without
      ';' throws, a missing or already-further record is passed over. */
  function UploadTarget(t: TableStore.Table, keys: seq<string>, name: string, progress: nat, i: nat): (r: Result<Option<nat>>)
    requires i <= |keys|
    ensures r.Ok? && r.value.Some? ==> i <= r.value.value < |keys| && Hit(t, keys[r.value.value], name, progress)
    ensures r.Ok? && r.value.Some? ==> forall j :: i <= j < r.value.value ==> !Hit(t, keys[j], name, progress)
    ensures r.Ok? && r.value.None? ==> forall j :: i <= j < |keys| ==> !Hit(t, keys[j], name, progress)
    ensures (forall j :: i <= j < |keys| && Before(keys[j], ';') == name ==> ';' in keys[j]) ==> r.Ok?
    ensures r.Err? ==> r.msg == IndexOutOfRange
    decreases |keys| - i
  {
    if i == |keys| then Ok(None)
    else if Before(keys[i], ';') != name then UploadTarget(t, keys, name, progress, i + 1)
    else match SplitKey(keys[i])
      case Err(e) => Err(e)
      case Ok(k) =>
        if k in t && IsProgressMatch(t[k].status, progress) then Ok(Some(i))
        else UploadTarget(t, keys, name, progress, i + 1)
  }

  /** The `UploadStatusChanged` handler: the title of the file in progress
      is taken (a character refused in a path throws), the first hit record
      takes the status `"{p}% Uploaded"`, and then Media's own
      `UploadStatusChanged` is raised without a null check. Nothing
      subscribes to it, so a call that gets that far always ends in a null
      dereference, after the record is written. The result is the media after
      the handler and the message of the exception that ends it. */
  function OnUploadStatus(m: Media, currentFile: string, progress: nat): (r: (Media, string))
    ensures r.0 == m.(table := r.0.table) && r.0.table.Keys == m.table.Keys
    ensures forall k :: k in m.table && r.0.table[k] != m.table[k] ==>
      r.0.table[k] == m.table[k].(status := UploadedStatus(progress)) || !TableStore.WellKeyed(m.table)
    ensures r.1 != NullReference ==> r.0 == m
    ensures HasInvalidPathChars(currentFile) ==> r == (m, IllegalPathChars)
    ensures var target := UploadTarget(m.table, C.CollectionKeys(m.collection), FileNameWithoutExtension(currentFile), progress, 0);
      !HasInvalidPathChars(currentFile) && target.Err? ==> r == (m, IndexOutOfRange)
    ensures var target := UploadTarget(m.table, C.CollectionKeys(m.collection), FileNameWithoutExtension(currentFile), progress, 0);
      !HasInvalidPathChars(currentFile) && TableStore.WellKeyed(m.table) && target.Ok? ==> r.1 == NullReference
  {
    var keys := C.CollectionKeys(m.collection);
    match GetFileNameWithoutExtension(currentFile)
    case Err(e) => (m, e)
    case Ok(title) =>
      match UploadTarget(m.table, keys, title, progress, 0)
      case Err(e) => (m, e)
      case Ok(None) => (m, NullReference)
      case Ok(Some(i)) =>
        var a := m.table[SplitKey(keys[i]).value];
        match TableStore.Merge(m.table, a.(status := UploadedStatus(progress)))
        case Err(e) => (m, Store.WriteFailure(e))
        case Ok(t) => (m.(table := t), NullReference)
  }

  /** The handler updates at most one record. */
  lemma UploadChangesAtMostOneRecord(m: Media, currentFile: string, progress: nat, k: (string, string), k': (string, string))
    requires k in m.table && k' in m.table
    requires OnUploadStatus(m, currentFile, progress).0.table[k] != m.table[k]
    requires OnUploadStatus(m, currentFile, progress).0.table[k'] != m.table[k']
    ensures k == k'
  {
  }

  // ---------------------------------------------------------------------------
  // Status stamps
  // ---------------------------------------------------------------------------

  /** `UpdateStatus(recordId, status)`: the record named by `"{pk};{rk}"`, if
      any, takes the status; nothing else about it changes. */
  function Stamp(t: TableStore.Table, recordId: string, status: string): (r: Result<TableStore.Table>)
    ensures ';' !in recordId ==> r == Err(IndexOutOfRange)
    ensures r.Ok? ==> r.value.Keys == t.Keys
    ensures TableStore.WellKeyed(t) && ';' in recordId ==> r.Ok? && TableStore.WellKeyed(r.value)
    ensures TableStore.WellKeyed(t) && r.Ok? ==>
      forall k :: k in t ==> r.value[k] == t[k] || r.value[k] == t[k].(status := status)
    ensures TableStore.WellKeyed(t) && r.Ok? && SplitKey(recordId).value in t ==>
      r.value[SplitKey(recordId).value].status == status
    ensures TableStore.WellKeyed(t) && r.Ok? ==>
      forall k :: k in t && k != SplitKey(recordId).value ==> r.value[k] == t[k]
  {
    var keys :- SplitKey(recordId);
    if keys !in t then Ok(t)
    else match TableStore.Merge(t, t[keys].(status := status))
      case Err(e) => Err(Store.WriteFailure(e))
      case Ok(t') => Ok(t')
  }

  /** The record of `key` exists only with the given status. */
  predicate StampedOrAbsent(t: TableStore.Table, key: string, status: string) {
    SplitKey(key).Ok? && (SplitKey(key).value in t ==> t[SplitKey(key).value].status == status)
  }

  /** Whether one of `keys` names the record under `k`. */
  predicate NamedBy(keys: seq<string>, k: TableStore.Key) {
    exists j :: 0 <= j < |keys| && SplitKey(keys[j]) == Ok(k)
  }

  /** `u` differs from `t` at most in the status of some records, which read
      `status`. */
  predicate StatusOnly(t: TableStore.Table, u: TableStore.Table, status: string) {
    u.Keys == t.Keys && forall k :: k in t ==> u[k] == t[k] || u[k] == t[k].(status := status)
  }

  /** Two rounds of stamping the same status are one such round. */
  lemma StatusOnlyChain(t: TableStore.Table, t': TableStore.Table, u: TableStore.Table, status: string)
    ensures StatusOnly(t, t', status) && StatusOnly(t', u, status) ==> StatusOnly(t, u, status)
  {
  }

  /** Stamping the same status again keeps a record stamped. */
  lemma StatusOnlyKeepsStamped(t: TableStore.Table, u: TableStore.Table, key: string, status: string)
    ensures StatusOnly(t, u, status) && StampedOrAbsent(t, key, status) ==> StampedOrAbsent(u, key, status)
  {
  }

  /** `UpdateStatus` over several keys, stopping at the first exception. */
  function StampAll(t: TableStore.Table, keys: seq<string>, status: string): (r: (TableStore.Table, Option<string>))
    ensures r.0.Keys == t.Keys
    ensures TableStore.WellKeyed(t) ==> TableStore.WellKeyed(r.0)
    ensures TableStore.WellKeyed(t) ==> forall k :: k in t ==> r.0[k] == t[k] || r.0[k] == t[k].(status := status)
    ensures TableStore.WellKeyed(t) ==> (r.1.None? <==> forall j :: 0 <= j < |keys| ==> ';' in keys[j])
    ensures TableStore.WellKeyed(t) && r.1.None? ==> forall j :: 0 <= j < |keys| ==> StampedOrAbsent(r.0, keys[j], status)
    ensures TableStore.WellKeyed(t) && r.1.Some? ==> r.1.value == IndexOutOfRange
    ensures TableStore.WellKeyed(t) ==> forall k :: k in t && !NamedBy(keys, k) ==> r.0[k] == t[k]
    decreases |keys|
  {
    if |keys| == 0 then (t, None)
    else match Stamp(t, keys[0], status)
      case Err(e) => (t, Some(e))
      case Ok(t') =>
        var r := StampAll(t', keys[1..], status);
        assert forall j :: 1 <= j < |keys| ==> keys[j] == keys[1..][j - 1];
        NamedByCons(keys);
        StatusOnlyChain(t, t', r.0, status);
        StatusOnlyKeepsStamped(t', r.0, keys[0], status);
        r
  }

  /** A record the first key or a later one names is named by the keys. */
  lemma NamedByCons(keys: seq<string>)
    requires |keys| > 0
    ensures forall k :: NamedBy(keys[1..], k) ==> NamedBy(keys, k)
    ensures forall k :: SplitKey(keys[0]) == Ok(k) ==> NamedBy(keys, k)
  {
    forall k | NamedBy(keys[1..], k) ensures NamedBy(keys, k) {
      var j :| 0 <= j < |keys[1..]| && SplitKey(keys[1..][j]) == Ok(k);
      assert SplitKey(keys[j + 1]) == Ok(k);
    }
  }

  /** The `JobState` the status event's arguments carry. Their constructor
      switches on the job's state only to set the status text and never
      assigns `JobState`, so it keeps the enumeration's default, Queued,
      whatever state the job is in. */
  const ReportedJobState := Remote.Queued

  /** The handler `Init` attaches to the API's `MediaProcessStatusChanged`:
      the state is updated from the arguments' `JobState` (always Queued),
      then every collection key that names a task of the job takes the job's
      status text. Afterwards the media raises its own
      `MediaProcessStatusChanged`, which nothing subscribes to, so a handler
      that gets that far ends in a null dereference; an exception from a
      stamp ends it earlier. The result is the media and the message of the
      exception that ends the handler. Only the API's `CheckJobProgress`
      raises the event, and nothing calls it, so this is the handler as a
      call; job events reach the media through `StateChanged` instead. */
  function OnMediaProcessStatus(m: Media, js: Remote.JobState, tasks: seq<Composition.TaskSpec>): (r: (Media, string))
    ensures r.0 == m.(state := r.0.state, table := r.0.table)
    ensures r.0.state == UpdateMediaState(m.state, Remote.Queued)
    ensures r.0.table.Keys == m.table.Keys
    ensures var keys := C.TaskKeys(C.CollectionKeys(m.collection), tasks);
      TableStore.WellKeyed(m.table) ==> (r.1 == NullReference <==> forall j :: 0 <= j < |keys| ==> ';' in keys[j])
    ensures TableStore.WellKeyed(m.table) && r.1 == NullReference ==>
      forall k :: k in C.TaskKeys(C.CollectionKeys(m.collection), tasks) ==> StampedOrAbsent(r.0.table, k, Remote.JobStatus(js))
    ensures TableStore.WellKeyed(m.table) ==>
      forall k :: k in m.table && !NamedBy(C.TaskKeys(C.CollectionKeys(m.collection), tasks), k) ==> r.0.table[k] == m.table[k]
  {
    var keys := C.TaskKeys(C.CollectionKeys(m.collection), tasks);
    var s := StampAll(m.table, keys, Remote.JobStatus(js));
    var m' := m.(state := UpdateMediaState(m.state, ReportedJobState), table := s.0);
    match s.1
    case Some(e) => (m', e)
    case None => (m', NullReference)
  }

  /** The job's state never reaches the media: whatever state the job
      reports, the handler leaves the media in the same state. */
  lemma ProcessStatusIgnoresJobState(m: Media, js: Remote.JobState, js': Remote.JobState, tasks: seq<Composition.TaskSpec>)
    ensures OnMediaProcessStatus(m, js, tasks).0.state == OnMediaProcessStatus(m, js', tasks).0.state
    ensures OnMediaProcessStatus(m, js, tasks).0.state == Queued
  {
  }

  /** What the media's own `MediaProcessStatusChanged` event carries: the job
      and the state it reported. */
  datatype StatusNotice = StatusNotice(job: Composition.JobSpec, state: Remote.JobState)

  /** Whether a job state is one the job's `StateChanged` handler passes on
      rather than only logging. */
  predicate RaisesNotice(js: Remote.JobState) {
    js == Remote.Canceling || js == Remote.Queued || js == Remote.Scheduled || js == Remote.Processing
  }

  /** `StateChanged` of a submitted job: the canceling, queued, scheduled and
      processing states are passed on as a notice on the media's own event;
      finished, canceled and error are only logged. Neither the state nor the
      records change. */
  function StateChanged(m: Media, job: Composition.JobSpec, js: Remote.JobState): (r: (Media, Option<StatusNotice>))
    ensures r.0 == m
    ensures r.1.Some? <==> js !in {Remote.Finished, Remote.Canceled, Remote.Error}
    ensures r.1.Some? ==> r.1.value == StatusNotice(job, js)
  {
    if RaisesNotice(js) then (m, Some(StatusNotice(job, js))) else (m, None)
  }

  /** A run of job events, handled one after another: the media after them
      and the notices they raised, in order. */
  function StateChanges(m: Media, job: Composition.JobSpec, events: seq<Remote.JobState>): (r: (Media, seq<StatusNotice>))
    decreases |events|
  {
    if |events| == 0 then (m, [])
    else
      var first := StateChanged(m, job, events[0]);
      var rest := StateChanges(first.0, job, events[1..]);
      (rest.0, (if first.1.Some? then [first.1.value] else []) + rest.1)
  }

  /** The job states among `events` that raise a notice, in order. */
  function NoticeStates(events: seq<Remote.JobState>): seq<Remote.JobState>
    decreases |events|
  {
    if |events| == 0 then []
    else (if RaisesNotice(events[0]) then [events[0]] else []) + NoticeStates(events[1..])
  }

  /** However many job events arrive, the media is left as it was: no job
      event moves the orchestrator to Ready or Canceled or stamps a record.
      The notices are those of the non-terminal states, in order, each
      naming the job. */
  lemma {:induction false} JobEventsLeaveMediaUnchanged(m: Media, job: Composition.JobSpec, events: seq<Remote.JobState>)
    ensures StateChanges(m, job, events).0 == m
    ensures |StateChanges(m, job, events).1| == |NoticeStates(events)|
    ensures forall i :: 0 <= i < |StateChanges(m, job, events).1| ==>
      StateChanges(m, job, events).1[i] == StatusNotice(job, NoticeStates(events)[i])
    decreases |events|
  {
    if |events| > 0 {
      JobEventsLeaveMediaUnchanged(m, job, events[1..]);
      var head := if RaisesNotice(events[0]) then [StatusNotice(job, events[0])] else [];
      var hs := if RaisesNotice(events[0]) then [events[0]] else [];
      var rest := StateChanges(m, job, events[1..]).1;
      assert StateChanges(m, job, events).1 == head + rest;
      assert NoticeStates(events) == hs + NoticeStates(events[1..]);
      forall i | 0 <= i < |head + rest| ensures (head + rest)[i] == StatusNotice(job, (hs + NoticeStates(events[1..]))[i]) {
        if i >= |head| {
          assert (head + rest)[i] == rest[i - |head|];
          assert (hs + NoticeStates(events[1..]))[i] == NoticeStates(events[1..])[i - |hs|];
        }
      }
    }
  }

  // ---------------------------------------------------------------------------
  // Records of a batch
  // ---------------------------------------------------------------------------

  /** What every record of a batch shares. */
  datatype Batch = Batch(encryption: Remote.Protection, mediaProcessor: string, duration: Option<int>)

  /** The record the older `CreateMediaEntries` writes: no size, an empty
      processing time, the older protection description. */
  function EntryRecord(b: Batch, nm: C.Naming, encoder: string, now: Ticks, guid: string, expiry: Ticks): (a: MediaAsset)
    ensures a.partitionKey == nm.title && a.rowKey == RowKey(now, guid) && a.size.None?
    ensures a.protection == Remote.LegacyAssetCreationDescription(b.encryption)
  {
    NewAsset(nm.title, now, guid).(
      originalFile := nm.fileName, encoding := encoder,
      protection := Remote.LegacyAssetCreationDescription(b.encryption), renderer := b.mediaProcessor,
      created := now, url := "", processingTime := "", expireOn := expiry, status := C.CreatedStatus)
  }

  datatype Entering = Entering(table: TableStore.Table, collection: seq<Composition.Entry>, created: bool)

  /** The table key of a record: the file's title and the clock's row key. */
  function SlotKey(s: C.Slot, clock: C.Clock): TableStore.Key {
    (s.nm.title, RowKey(clock.now(s.n), clock.guid(s.n)))
  }

  /** The record of `s`, as the batch writes it. */
  function SlotRecord(b: Batch, s: C.Slot, clock: C.Clock): MediaAsset
    requires b.duration.Some? && C.ExpiryInRange(b.duration.value, s.n, clock)
  {
    EntryRecord(b, s.nm, s.encoder, clock.now(s.n), clock.guid(s.n), clock.now(s.n) + b.duration.value)
  }

  /** The table holds the record of `s` under its key. */
  predicate EntryStored(t: TableStore.Table, b: Batch, s: C.Slot, clock: C.Clock) {
    b.duration.Some? && C.ExpiryInRange(b.duration.value, s.n, clock) &&
    SlotKey(s, clock) in t && t[SlotKey(s, clock)] == SlotRecord(b, s, clock)
  }

  /** The exceptions one record can raise. */
  predicate EntryError(msg: string) {
    msg == NullReference || msg == ArgumentOutOfRange || msg == DuplicateKey || msg == Store.KeyRefused
  }

  /** Storing a computed record and collecting its key: a key the table
      refuses throws, with the storage prefix; a key already collected throws
      after the write. */
  function EnterRecord(e: Entering, a: MediaAsset, encoder: string, last: bool): (r: (Entering, Option<string>))
    ensures r.1.None? <==> TableStore.ValidKeys(a) && CompositeKey(a.partitionKey, a.rowKey) !in C.CollectionKeys(e.collection)
    ensures !TableStore.ValidKeys(a) ==> r == (e, Some(Store.KeyRefused))
    ensures TableStore.ValidKeys(a) ==> r.0.table == TableStore.InsertOrReplace(e.table, a).value
    ensures r.1.None? ==> r.0.collection == e.collection + [(CompositeKey(a.partitionKey, a.rowKey), encoder)]
    ensures r.1.None? ==> r.0.created == (e.created || last)
    ensures r.1.Some? ==> r.0.collection == e.collection && r.0.created == e.created
    ensures r.1.Some? ==> r.1.value == DuplicateKey || r.1.value == Store.KeyRefused
    ensures e.table.Keys <= r.0.table.Keys
    ensures forall k :: k in e.table && k != TableStore.KeyOf(a) ==> r.0.table[k] == e.table[k]
  {
    match TableStore.InsertOrReplace(e.table, a)
    case Err(msg) => (e, Some(Store.WriteFailure(msg)))
    case Ok(t) =>
      var key := CompositeKey(a.partitionKey, a.rowKey);
      if key in C.CollectionKeys(e.collection) then (e.(table := t), Some(DuplicateKey))
      else (Entering(t, e.collection + [(key, encoder)], e.created || last), None)
  }

  /** One record: without an access policy the expiry dereferences null; an
      expiry past the calendar throws; then the record is stored (a key the
      table refuses throws, with the storage prefix) and its key added to the
      collection (a repeated key throws). */
  function AddEntry(b: Batch, e: Entering, s: C.Slot, clock: C.Clock): (r: (Entering, Option<string>))
    ensures b.duration.None? ==> r == (e, Some(NullReference))
    ensures r.1.None? <==> b.duration.Some? && C.ExpiryInRange(b.duration.value, s.n, clock) &&
                           C.SlotStorable(false, s, clock) &&
                           C.EntryKey(s.nm, s.n, clock) !in C.CollectionKeys(e.collection)
    ensures b.duration.Some? && C.ExpiryInRange(b.duration.value, s.n, clock) && !C.SlotStorable(false, s, clock) ==>
      r == (e, Some(Store.KeyRefused))
    ensures r.1.None? ==> r.0.collection == e.collection + [C.SlotEntry(s, clock)] && r.0.created == (e.created || s.last)
    ensures r.1.Some? ==> r.0.collection == e.collection && r.0.created == e.created
    ensures r.1.Some? ==> EntryError(r.1.value)
    ensures b.duration.Some? && !C.ExpiryInRange(b.duration.value, s.n, clock) ==> r == (e, Some(ArgumentOutOfRange))
    ensures b.duration.Some? && C.ExpiryInRange(b.duration.value, s.n, clock) && C.SlotStorable(false, s, clock) ==>
      r.0.table == TableStore.InsertOrReplace(e.table, SlotRecord(b, s, clock)).value
    ensures r.1.None? ==> EntryStored(r.0.table, b, s, clock)
    ensures e.table.Keys <= r.0.table.Keys
    ensures forall k :: k in e.table && k != SlotKey(s, clock) ==> r.0.table[k] == e.table[k]
  {
    if b.duration.None? then (e, Some(NullReference))
    else if !C.ExpiryInRange(b.duration.value, s.n, clock) then (e, Some(ArgumentOutOfRange))
    else
      var a := SlotRecord(b, s, clock);
      assert TableStore.KeyOf(a) == SlotKey(s, clock);
      assert TableStore.ValidKeys(a) == C.SlotStorable(false, s, clock);
      EnterRecord(e, a, s.encoder, s.last)
  }

  /** The records in order, stopping at the first exception. */
  function EnterSlots(b: Batch, e: Entering, slots: seq<C.Slot>, clock: C.Clock): (r: (Entering, Option<string>))
    ensures r.1.None? ==> r.0.collection == e.collection + C.SlotEntries(slots, clock)
    ensures r.1.None? ==> r.0.created == (e.created || C.EndsAFile(slots))
    ensures b.duration.None? && |slots| > 0 ==> r == (e, Some(NullReference))
    ensures r.1.Some? ==> EntryError(r.1.value)
    decreases |slots|
  {
    if |slots| == 0 then (e, None)
    else
      var s := AddEntry(b, e, slots[0], clock);
      if s.1.Some? then s
      else
        var r := EnterSlots(b, s.0, slots[1..], clock);
        C.AppendAssoc(e.collection, [C.SlotEntry(slots[0], clock)], C.SlotEntries(slots[1..], clock));
        r
  }

  /** The older `CreateMediaEntries`: like the library's, the collection is
      cleared and every file gets one record per encoder (or per media
      processor), the state becoming Created after each file; the exception's
      message is returned instead of the client message. */
  function CreateMediaEntries(m: Media, clock: C.Clock): (r: (Media, string))
    ensures r.0 == m.(table := r.0.table, collection := r.0.collection, state := r.0.state)
    ensures r.1 == C.ClientMessage ==>
      r.0.collection == C.SlotEntries(C.PlanSlots(C.Namings(m.files), C.RecordEncoders(m.encoders, m.mediaProcessor), 0), clock)
    ensures r.0.state == m.state || r.0.state == Created
  {
    var b := Batch(m.encryption, m.mediaProcessor, m.policyDuration);
    var s := EnterSlots(b, Entering(m.table, [], false), C.PlanSlots(C.Namings(m.files), C.RecordEncoders(m.encoders, m.mediaProcessor), 0), clock);
    var m' := m.(table := s.0.table, collection := s.0.collection, state := if s.0.created then Created else m.state);
    assert [] + C.SlotEntries(C.PlanSlots(C.Namings(m.files), C.RecordEncoders(m.encoders, m.mediaProcessor), 0), clock)
      == C.SlotEntries(C.PlanSlots(C.Namings(m.files), C.RecordEncoders(m.encoders, m.mediaProcessor), 0), clock);
    assert !EntryError(C.ClientMessage);
    if s.1.None? then (m', C.ClientMessage) else (m', s.1.value)
  }

  /** On success every file has its records and the state is Created, unless
      there were no files at all. */
  lemma CreateMediaEntriesMarksCreated(m: Media, clock: C.Clock)
    requires CreateMediaEntries(m, clock).1 == C.ClientMessage
    ensures CreateMediaEntries(m, clock).0.state == if |m.files| == 0 then m.state else Created
  {
    CreateMediaEntriesEnters(m, clock);
    C.PlanEndsAFile(C.Namings(m.files), C.RecordEncoders(m.encoders, m.mediaProcessor), 0);
  }

  /** Without an access policy the first record already fails: nothing is
      stored, the collection stays empty and the null dereference's message
      is returned. */
  lemma EntriesNeedAPolicy(m: Media, clock: C.Clock)
    requires m.policyDuration.None? && |m.files| > 0
    ensures var r := CreateMediaEntries(m, clock);
      r.1 == NullReference && r.0.collection == [] && r.0.table == m.table && r.0.state == m.state
  {
    C.PlanEndsAFile(C.Namings(m.files), C.RecordEncoders(m.encoders, m.mediaProcessor), 0);
  }

  /** A run of records that succeeds leaves every one of them stored, and
      leaves alone the records whose keys were already collected. */
  lemma {:induction false} EnterSlotsStores(b: Batch, e: Entering, slots: seq<C.Slot>, clock: C.Clock)
    requires EnterSlots(b, e, slots, clock).1.None?
    ensures e.table.Keys <= EnterSlots(b, e, slots, clock).0.table.Keys
    ensures forall k :: k in e.table && CompositeKey(k.0, k.1) in C.CollectionKeys(e.collection) ==>
      EnterSlots(b, e, slots, clock).0.table[k] == e.table[k]
    ensures forall j :: 0 <= j < |slots| ==> EntryStored(EnterSlots(b, e, slots, clock).0.table, b, slots[j], clock)
    decreases |slots|
  {
    if |slots| > 0 {
      var s := AddEntry(b, e, slots[0], clock);
      assert s.1.None?;
      assert EnterSlots(b, e, slots, clock) == EnterSlots(b, s.0, slots[1..], clock);
      EnterSlotsStores(b, s.0, slots[1..], clock);
      C.KeysAppend(e.collection, [C.SlotEntry(slots[0], clock)]);
      var k := SlotKey(slots[0], clock);
      assert C.CollectionKeys(s.0.collection)[|e.collection|] == CompositeKey(k.0, k.1);
      forall j | 0 <= j < |slots| ensures EntryStored(EnterSlots(b, e, slots, clock).0.table, b, slots[j], clock) {
        if j == 0 {
          assert k in s.0.table && CompositeKey(k.0, k.1) in C.CollectionKeys(s.0.collection);
        } else {
          assert slots[j] == slots[1..][j - 1];
        }
      }
    }
  }

  /** Entering records succeeds exactly when there are none, or there is an
      access policy, the keys stay unique, every expiry date is
      representable and the table accepts every key. */
  lemma {:induction false} EnterSlotsSucceeds(b: Batch, e: Entering, slots: seq<C.Slot>, clock: C.Clock)
    requires C.UniqueKeys(e.collection)
    ensures EnterSlots(b, e, slots, clock).1.None? <==>
      |slots| == 0 ||
      (b.duration.Some? && C.UniqueKeys(e.collection + C.SlotEntries(slots, clock)) &&
       C.SlotsInRange(b.duration.value, slots, clock) && C.SlotsStorable(false, slots, clock))
    decreases |slots|
  {
    if |slots| > 0 && b.duration.Some? {
      var span := b.duration.value;
      var es := C.SlotEntries(slots, clock);
      var x := C.SlotEntry(slots[0], clock);
      var rest := C.SlotEntries(slots[1..], clock);
      assert es == [x] + rest;
      C.AppendAssoc(e.collection, [x], rest);
      assert C.SlotsInRange(span, slots, clock) <==>
        C.ExpiryInRange(span, slots[0].n, clock) && C.SlotsInRange(span, slots[1..], clock) by {
        if C.SlotsInRange(span, slots[1..], clock) {
          forall i | 1 <= i < |slots| ensures C.ExpiryInRange(span, slots[i].n, clock) {
            assert slots[i] == slots[1..][i - 1];
          }
        }
      }
      assert C.SlotsStorable(false, slots, clock) <==>
        C.SlotStorable(false, slots[0], clock) && C.SlotsStorable(false, slots[1..], clock) by {
        if C.SlotsStorable(false, slots[1..], clock) {
          forall i | 1 <= i < |slots| ensures C.SlotStorable(false, slots[i], clock) {
            assert slots[i] == slots[1..][i - 1];
          }
        }
      }
      C.UniqueAppend(e.collection, x);
      var s := AddEntry(b, e, slots[0], clock);
      if s.1.None? {
        EnterSlotsSucceeds(b, s.0, slots[1..], clock);
        assert EnterSlots(b, e, slots, clock) == EnterSlots(b, s.0, slots[1..], clock);
        if |slots[1..]| == 0 {
          assert C.SlotsInRange(span, slots[1..], clock) && C.SlotsStorable(false, slots[1..], clock);
          assert e.collection + [x] + rest == e.collection + [x];
        }
      } else {
        assert EnterSlots(b, e, slots, clock) == s;
        if C.UniqueKeys(e.collection + es) {
          C.UniquePrefix(e.collection + [x], rest);
        }
      }
    }
  }

  /** `CreateMediaEntries` answers with the client message exactly when
      entering the planned records into an empty collection succeeds, and
      keeps that run's table and collection. */
  lemma CreateMediaEntriesEnters(m: Media, clock: C.Clock)
    ensures var run := EnterSlots(Batch(m.encryption, m.mediaProcessor, m.policyDuration), Entering(m.table, [], false),
                                  C.PlanSlots(C.Namings(m.files), C.RecordEncoders(m.encoders, m.mediaProcessor), 0), clock);
      (CreateMediaEntries(m, clock).1 == C.ClientMessage <==> run.1.None?) &&
      CreateMediaEntries(m, clock).0.table == run.0.table && CreateMediaEntries(m, clock).0.collection == run.0.collection &&
      CreateMediaEntries(m, clock).0.state == if run.0.created then Created else m.state
  {
    assert !EntryError(C.ClientMessage);
  }

  /** Entering records into an empty collection succeeds exactly when there
      are none, or there is an access policy, the keys are unique, every
      expiry date is representable and the table accepts every key. */
  lemma EnterFreshSucceeds(b: Batch, t: TableStore.Table, slots: seq<C.Slot>, clock: C.Clock)
    ensures EnterSlots(b, Entering(t, [], false), slots, clock).1.None? <==>
      |slots| == 0 ||
      (b.duration.Some? && C.UniqueKeys(C.SlotEntries(slots, clock)) &&
       C.SlotsInRange(b.duration.value, slots, clock) && C.SlotsStorable(false, slots, clock))
  {
    EnterSlotsSucceeds(b, Entering(t, [], false), slots, clock);
    assert [] + C.SlotEntries(slots, clock) == C.SlotEntries(slots, clock);
  }

  /** On the client message every planned record is stored under the key
      the collection holds for it, in plan order. */
  lemma CreateMediaEntriesStores(m: Media, clock: C.Clock)
    requires CreateMediaEntries(m, clock).1 == C.ClientMessage
    ensures var plan := C.PlanSlots(C.Namings(m.files), C.RecordEncoders(m.encoders, m.mediaProcessor), 0);
      var r := CreateMediaEntries(m, clock);
      |r.0.collection| == |plan| &&
      forall i :: 0 <= i < |plan| ==>
        r.0.collection[i].0 == CompositeKey(SlotKey(plan[i], clock).0, SlotKey(plan[i], clock).1) &&
        EntryStored(r.0.table, Batch(m.encryption, m.mediaProcessor, m.policyDuration), plan[i], clock)
  {
    var plan := C.PlanSlots(C.Namings(m.files), C.RecordEncoders(m.encoders, m.mediaProcessor), 0);
    CreateMediaEntriesEnters(m, clock);
    EnterSlotsStores(Batch(m.encryption, m.mediaProcessor, m.policyDuration), Entering(m.table, [], false), plan, clock);
    forall i | 0 <= i < |plan|
      ensures CreateMediaEntries(m, clock).0.collection[i].0 == CompositeKey(SlotKey(plan[i], clock).0, SlotKey(plan[i], clock).1)
    {
      C.SlotEntriesAt(plan, clock, i);
    }
  }

  /** The older `CreateMediaEntries` returns the client message exactly when
      nothing is planned, or there is an access policy, all the planned
      record keys differ, all their expiry dates are representable and the
      table accepts every planned key. */
  lemma CreateMediaEntriesSucceeds(m: Media, clock: C.Clock)
    ensures var plan := C.PlanSlots(C.Namings(m.files), C.RecordEncoders(m.encoders, m.mediaProcessor), 0);
      CreateMediaEntries(m, clock).1 == C.ClientMessage <==>
      |plan| == 0 ||
      (m.policyDuration.Some? && C.UniqueKeys(C.SlotEntries(plan, clock)) &&
       C.ExpiriesInRange(m.policyDuration.value, 0, |plan|, clock) && C.SlotsStorable(false, plan, clock))
  {
    CreateMediaEntriesEnters(m, clock);
    EnterFreshSucceeds(Batch(m.encryption, m.mediaProcessor, m.policyDuration), m.table,
      C.PlanSlots(C.Namings(m.files), C.RecordEncoders(m.encoders, m.mediaProcessor), 0), clock);
    if m.policyDuration.Some? {
      C.PlanInRange(m.policyDuration.value, C.Namings(m.files), C.RecordEncoders(m.encoders, m.mediaProcessor), clock);
    }
  }

  // ---------------------------------------------------------------------------
  // Ingest and encoding
  // ---------------------------------------------------------------------------

  /** `ProcessMedia`: each file is ingested synchronously and its temporary
      container (the locator path before '?') recorded; then the state is
      Started. `paths(k)` is the write locator's path of file `k`. */
  function ProcessMedia(m: Media, paths: nat -> string): (r: (Media, bool))
    ensures r.1 && r.0.state == Started
    ensures |r.0.tempContainers| == |m.files|
    ensures forall k :: 0 <= k < |m.files| ==> r.0.tempContainers[k] == Before(paths(k), '?')
    ensures r.0 == m.(state := r.0.state, tempContainers := r.0.tempContainers)
  {
    var containers := seq(|m.files|, k requires 0 <= k < |m.files| => Publication.TempContainer(paths(k)));
    (m.(tempContainers := containers, state := Started), true)
  }

  /** The `AssetStatusChanged` handler: the published asset joins the list. */
  function OnAssetPublished(m: Media, assetName: string): (r: Media)
    ensures r.ingestAssets == m.ingestAssets + [assetName]
    ensures r.(ingestAssets := m.ingestAssets) == m
  {
    m.(ingestAssets := m.ingestAssets + [assetName])
  }

  /** `WaitMediaDataAsync`: whether the encoding work item is queued (a
      Started orchestrator with published assets) and whether the caller
      must keep waiting (the state is Created). */
  function WaitMediaDataAsync(m: Media): (r: (bool, bool))
    ensures r.0 <==> m.state == Started && |m.ingestAssets| > 0
    ensures r.1 <==> m.state == Created
  {
    (m.state == Started && |m.ingestAssets| > 0, m.state == Created)
  }

  /** Right after `ProcessMedia` the caller is never told to wait, and the
      work item is queued exactly when some asset has been published. */
  lemma ProcessedBatchNeverWaits(m: Media, paths: nat -> string)
    ensures var w := WaitMediaDataAsync(ProcessMedia(m, paths).0);
      !w.1 && (w.0 <==> |m.ingestAssets| > 0)
  {
  }

  const FailurePrefix := "Failed to process media. Exception: "

  /** The older composer for each published asset, in order, stopping at the
      first exception. */
  function ComposeAll(assets: seq<string>, entries: seq<Composition.Entry>, processor: string, p: Remote.Protection, cat: Composition.Catalog): (r: (seq<Composition.JobSpec>, Option<string>))
    ensures r.1.None? ==> |r.0| == |assets|
    ensures r.1.None? ==> forall k :: 0 <= k < |assets| ==>
      Composition.LegacyCreateEncodingJob(assets[k], entries, processor, p, cat) == Ok(r.0[k])
    ensures r.1.Some? ==> exists k :: 0 <= k < |assets| && Composition.LegacyCreateEncodingJob(assets[k], entries, processor, p, cat).Err?
    decreases |assets|
  {
    if |assets| == 0 then ([], None)
    else match Composition.LegacyCreateEncodingJob(assets[0], entries, processor, p, cat)
      case Err(e) => ([], Some(e))
      case Ok(job) =>
        var rest := ComposeAll(assets[1..], entries, processor, p, cat);
        assert forall k :: 1 <= k < |assets| ==> assets[k] == assets[1..][k - 1];
        FailingAssetCons(assets, entries, processor, p, cat);
        ([job] + rest.0, rest.1)
  }

  /** An asset after the first whose job cannot be composed is one of the
      assets whose job cannot be composed. */
  lemma FailingAssetCons(assets: seq<string>, entries: seq<Composition.Entry>, processor: string, p: Remote.Protection, cat: Composition.Catalog)
    requires |assets| > 0
    ensures (exists k :: 0 <= k < |assets[1..]| && Composition.LegacyCreateEncodingJob(assets[1..][k], entries, processor, p, cat).Err?) ==>
      exists k :: 0 <= k < |assets| && Composition.LegacyCreateEncodingJob(assets[k], entries, processor, p, cat).Err?
  {
    if exists k :: 0 <= k < |assets[1..]| && Composition.LegacyCreateEncodingJob(assets[1..][k], entries, processor, p, cat).Err? {
      var k :| 0 <= k < |assets[1..]| && Composition.LegacyCreateEncodingJob(assets[1..][k], entries, processor, p, cat).Err?;
      assert assets[k + 1] == assets[1..][k];
    }
  }

  /** Whether the first task of one of `jobs` names the record under `k`. */
  predicate NamesFirstTask(jobs: seq<Composition.JobSpec>, k: TableStore.Key) {
    exists j :: 0 <= j < |jobs| && |jobs[j].tasks| > 0 && SplitKey(jobs[j].tasks[0].name) == Ok(k)
  }

  /** A record the first job or a later one names is named by the jobs, and
      a later job without tasks is a job without tasks. */
  lemma NamesFirstTaskCons(jobs: seq<Composition.JobSpec>)
    requires |jobs| > 0 && |jobs[0].tasks| > 0
    ensures forall k :: NamesFirstTask(jobs[1..], k) ==> NamesFirstTask(jobs, k)
    ensures forall k :: SplitKey(jobs[0].tasks[0].name) == Ok(k) ==> NamesFirstTask(jobs, k)
    ensures (exists j :: 0 <= j < |jobs[1..]| && |jobs[1..][j].tasks| == 0) ==> exists j :: 0 <= j < |jobs| && |jobs[j].tasks| == 0
  {
    if exists j :: 0 <= j < |jobs[1..]| && |jobs[1..][j].tasks| == 0 {
      var j :| 0 <= j < |jobs[1..]| && |jobs[1..][j].tasks| == 0;
      assert jobs[j + 1] == jobs[1..][j];
    }
    forall k | NamesFirstTask(jobs[1..], k) ensures NamesFirstTask(jobs, k) {
      var j :| 0 <= j < |jobs[1..]| && |jobs[1..][j].tasks| > 0 && SplitKey(jobs[1..][j].tasks[0].name) == Ok(k);
      assert jobs[j + 1] == jobs[1..][j];
    }
  }

  /** Every job's first task record takes the status of a new job (Queued);
      a job without tasks fails on `Tasks[0]`. */
  function StampFirstTasks(t: TableStore.Table, jobs: seq<Composition.JobSpec>): (r: (TableStore.Table, Option<string>))
    ensures r.0.Keys == t.Keys
    ensures TableStore.WellKeyed(t) ==> TableStore.WellKeyed(r.0)
    ensures TableStore.WellKeyed(t) ==>
      forall k :: k in t ==> r.0[k] == t[k] || r.0[k] == t[k].(status := Remote.JobStatus(Remote.Queued))
    ensures (exists k :: 0 <= k < |jobs| && |jobs[k].tasks| == 0) ==> r.1.Some?
    ensures TableStore.WellKeyed(t) ==> forall k :: k in t && !NamesFirstTask(jobs, k) ==> r.0[k] == t[k]
    decreases |jobs|
  {
    if |jobs| == 0 then (t, None)
    else if |jobs[0].tasks| == 0 then (t, Some(ArgumentOutOfRange))
    else match Stamp(t, jobs[0].tasks[0].name, Remote.JobStatus(Remote.Queued))
      case Err(e) => (t, Some(e))
      case Ok(t') =>
        var r := StampFirstTasks(t', jobs[1..]);
        NamesFirstTaskCons(jobs);
        StatusOnlyChain(t, t', r.0, Remote.JobStatus(Remote.Queued));
        r
  }

  /** The record of `key` exists only with one of the given statuses. */
  predicate StatusAmong(t: TableStore.Table, key: string, s1: string, s2: string) {
    SplitKey(key).Ok? && (SplitKey(key).value in t ==> t[SplitKey(key).value].status in {s1, s2})
  }

  /** The older `BeginEncoding`: the job collection is cleared, the state is
      Ingested, every collection key is stamped "100% Uploaded", a job is
      composed per published asset, and each job's first task record is
      stamped with the new job's status before it is submitted. Any
      exception leaves the orchestrator Canceled and is rethrown wrapped.
      When composing a job fails the model leaves the job collection empty,
      where the source keeps the jobs composed before the failure; nothing
      reads that collection once the orchestrator is Canceled. */
  function BeginEncoding(m: Media, assets: seq<string>, cat: Composition.Catalog): (r: (Media, Option<string>))
    ensures r.0 == m.(state := r.0.state, jobs := r.0.jobs, table := r.0.table)
    ensures r.0.table.Keys == m.table.Keys
    ensures r.1.None? ==> r.0.state == Ingested && |r.0.jobs| == |assets|
    ensures r.1.None? ==> forall k :: 0 <= k < |assets| ==> r.0.jobs[k].name == assets[k]
    ensures r.1.Some? ==> r.0.state == Canceled && StartsWith(r.1.value, FailurePrefix)
    ensures TableStore.WellKeyed(m.table) ==>
      forall k :: (k in m.table && !NamedBy(C.CollectionKeys(m.collection), k) && !NamesFirstTask(r.0.jobs, k)) ==>
        r.0.table[k] == m.table[k]
  {
    var keys := C.CollectionKeys(m.collection);
    var started := m.(jobs := [], state := Ingested);
    var s := StampAll(m.table, keys, C.UploadedStatus);
    if s.1.Some? then (started.(table := s.0, state := Canceled), Some(FailurePrefix + s.1.value))
    else
      var composed := ComposeAll(assets, m.collection, m.mediaProcessor, m.encryption, cat);
      if composed.1.Some? then (started.(table := s.0, state := Canceled), Some(FailurePrefix + composed.1.value))
      else
        var q := StampFirstTasks(s.0, composed.0);
        var m' := started.(table := q.0, jobs := composed.0);
        if q.1.Some? then (m'.(state := Canceled), Some(FailurePrefix + q.1.value))
        else
          assert forall k :: 0 <= k < |assets| ==> composed.0[k].name == assets[k] by {
            forall k | 0 <= k < |assets| ensures composed.0[k].name == assets[k] {
              assert Composition.LegacyCreateEncodingJob(assets[k], m.collection, m.mediaProcessor, m.encryption, cat) == Ok(composed.0[k]);
            }
          }
          (m', None)
  }

  /** After a successful `BeginEncoding` every record of the batch says it is
      uploaded, or, for a record that names a job's first task, queued. */
  lemma EncodingStampsEveryRecord(m: Media, assets: seq<string>, cat: Composition.Catalog)
    requires TableStore.WellKeyed(m.table)
    requires BeginEncoding(m, assets, cat).1.None?
    ensures forall j :: 0 <= j < |m.collection| ==>
      StatusAmong(BeginEncoding(m, assets, cat).0.table, m.collection[j].0, C.UploadedStatus, Remote.JobStatus(Remote.Queued))
  {
    var keys := C.CollectionKeys(m.collection);
    var s := StampAll(m.table, keys, C.UploadedStatus);
    var composed := ComposeAll(assets, m.collection, m.mediaProcessor, m.encryption, cat);
    var q := StampFirstTasks(s.0, composed.0);
    assert BeginEncoding(m, assets, cat).0.table == q.0;
    forall j | 0 <= j < |m.collection|
      ensures StatusAmong(q.0, m.collection[j].0, C.UploadedStatus, Remote.JobStatus(Remote.Queued))
    {
      assert keys[j] == m.collection[j].0;
      StampedThenRestamped(s.0, q.0, keys[j], C.UploadedStatus, Remote.JobStatus(Remote.Queued));
    }
  }

  /** A record stamped with one status, then possibly with a second, holds
      one of the two. */
  lemma StampedThenRestamped(t: TableStore.Table, t': TableStore.Table, key: string, s1: string, s2: string)
    requires StampedOrAbsent(t, key, s1)
    requires t'.Keys == t.Keys
    requires forall k :: k in t ==> t'[k] == t[k] || t'[k] == t[k].(status := s2)
    ensures StatusAmong(t', key, s1, s2)
  {
    var k := SplitKey(key).value;
    if k in t' {
      assert t'[k] == t[k] || t'[k] == t[k].(status := s2);
    }
  }

  // ---------------------------------------------------------------------------
  // Results
  // ---------------------------------------------------------------------------

  /** What the service reports about a finished job: its output assets, the
      task that produced each output (by asset id), and the job's state. */
  datatype Outcome = Outcome(outputs: seq<Publication.OutputAsset>, producer: map<string, nat>, remote: Remote.JobState)

  type Outcomes = nat -> Outcome

  /** The record keys of a published asset: the producing task's name split on
      ';'. A missing task is a null dereference. */
  function ProducerKey(job: Composition.JobSpec, o: Outcome, assetId: string): (r: Result<(string, string)>)
    ensures r.Ok? ==> assetId in o.producer && o.producer[assetId] < |job.tasks| &&
                      SplitKey(job.tasks[o.producer[assetId]].name) == r
  {
    if assetId !in o.producer || o.producer[assetId] >= |job.tasks| then Err(NullReference)
    else SplitKey(job.tasks[o.producer[assetId]].name)
  }

  /** Whether publishing asset `assetId` updates one of the records `keys`. */
  predicate Updates(keys: set<(string, string)>, job: Composition.JobSpec, o: Outcome, assetId: string) {
    ProducerKey(job, o, assetId).Ok? && ProducerKey(job, o, assetId).value in keys
  }

  /** The published record: URL, processing time and the job's status. */
  function Published(a: MediaAsset, url: string, o: Outcome, elapsed: string): MediaAsset {
    a.(url := url, processingTime := elapsed, status := Remote.JobStatus(o.remote))
  }

  /** The records of one job's published assets, in order; `found` says
      whether any record has been updated. */
  function HarvestUrls(t: TableStore.Table, job: Composition.JobSpec, o: Outcome, urls: seq<(string, string)>, elapsed: string, found: bool): (r: (TableStore.Table, bool, Option<string>))
    ensures r.0.Keys == t.Keys
    ensures found ==> r.1
    ensures r.2.None? ==> (r.1 <==> found || exists i :: 0 <= i < |urls| && Updates(t.Keys, job, o, urls[i].0))
    decreases |urls|
  {
    if |urls| == 0 then (t, found, None)
    else match ProducerKey(job, o, urls[0].0)
      case Err(e) => (t, found, Some(e))
      case Ok(k) =>
        if k !in t then
          var r := HarvestUrls(t, job, o, urls[1..], elapsed, found);
          assert forall i :: 1 <= i < |urls| ==> urls[i] == urls[1..][i - 1];
          r
        else match TableStore.Merge(t, Published(t[k], urls[0].1, o, elapsed))
          case Err(e) => (t, found, Some(Store.WriteFailure(e)))
          case Ok(t') =>
            var r := HarvestUrls(t', job, o, urls[1..], elapsed, true);
            assert Updates(t.Keys, job, o, urls[0].0);
            r
  }

  /** Whether some published asset of the job updates one of the records `keys`. */
  predicate JobUpdates(keys: set<(string, string)>, job: Composition.JobSpec, o: Outcome) {
    var urls := Publication.LegacyGetUrls(job.name, o.outputs);
    urls.Ok? && exists i :: 0 <= i < |urls.value| && Updates(keys, job, o, urls.value[i].0)
  }

  /** Whether some job from `k` on updates one of the records `keys`. */
  predicate SomeJobUpdates(keys: set<(string, string)>, jobs: seq<Composition.JobSpec>, outcome: Outcomes, k: nat)
    requires k <= |jobs|
    decreases |jobs| - k
  {
    k < |jobs| && (JobUpdates(keys, jobs[k], outcome(k)) || SomeJobUpdates(keys, jobs, outcome, k + 1))
  }

  /** Every job from `k` on, in order; the first exception stops the pass. */
  function HarvestJobs(t: TableStore.Table, jobs: seq<Composition.JobSpec>, outcome: Outcomes, k: nat, elapsed: string, found: bool): (r: (TableStore.Table, bool, Option<string>))
    requires k <= |jobs|
    ensures r.0.Keys == t.Keys
    ensures r.2.None? ==> (r.1 <==> found || SomeJobUpdates(t.Keys, jobs, outcome, k))
    decreases |jobs| - k
  {
    if k == |jobs| then (t, found, None)
    else match Publication.LegacyGetUrls(jobs[k].name, outcome(k).outputs)
      case Err(e) => (t, found, Some(e))
      case Ok(urls) =>
        var h := HarvestUrls(t, jobs[k], outcome(k), urls, elapsed, found);
        if h.2.Some? then h
        else
          var r := HarvestJobs(h.0, jobs, outcome, k + 1, elapsed, h.1);
          r
  }

  /** The older `GetJobResults`: the SAS list is renewed, every job's
      published assets update their records; true when at least one record
      was updated. An exception makes the orchestrator Canceled and the
      result false; the records updated before it stay updated. */
  function GetJobResults(m: Media, outcome: Outcomes, elapsed: string): (r: (Media, bool))
    ensures r.0 == m.(sasUrls := [], table := r.0.table, state := r.0.state)
    ensures r.0.table.Keys == m.table.Keys
    ensures r.0.state == m.state || r.0.state == Canceled
    ensures r.1 ==> SomeJobUpdates(m.table.Keys, m.jobs, outcome, 0)
    ensures r.0.state != Canceled ==> (r.1 <==> SomeJobUpdates(m.table.Keys, m.jobs, outcome, 0))
    ensures m.state != Canceled && r.0.state == Canceled ==> !r.1
  {
    var h := HarvestJobs(m.table, m.jobs, outcome, 0, elapsed, false);
    var m' := m.(sasUrls := [], table := h.0);
    if h.2.Some? then (m'.(state := Canceled), false) else (m', h.1)
  }

  /** The work item `WaitMediaDataAsync` queues: encode the published assets,
      then harvest; Ready when a record was updated, Canceled otherwise (a
      failed submission escapes the work item after setting Canceled). */
  function EncodingWorkItem(m: Media, cat: Composition.Catalog, outcome: Outcomes, elapsed: string): (r: Media)
    ensures r.state == Ready || r.state == Canceled
    ensures r.state == Ready <==>
      BeginEncoding(m, m.ingestAssets, cat).1.None? && GetJobResults(BeginEncoding(m, m.ingestAssets, cat).0, outcome, elapsed).1
  {
    var b := BeginEncoding(m, m.ingestAssets, cat);
    if b.1.Some? then b.0
    else
      var g := GetJobResults(b.0, outcome, elapsed);
      g.0.(state := if g.1 then Ready else Canceled)
  }
}
