/** `MediaController` of the media library: the state machine that turns a
    batch of uploaded files into stored records, ingested assets, encoding
    jobs and published URLs. Remote answers (ingest sources, job outputs,
    the clock and GUIDs) are inputs; the SDK's callbacks are separate
    operations that a host applies when the service reports them. */
module Controller {
  import opened Wrappers
  import opened Text
  import opened Runtime
  import Remote
  import opened Records
  import Store
  import SqlStore
  import TableStore
  import opened Uploads
  import Composition
  import Publication
  import opened MediaJob

  /** The controller's properties. `collection` is `CurrentAssetCollection`
      in insertion order (composite record key, encoder); `expireOn` is the
      `ExpireOn` span in ticks; `lastMessage` is the library's static
      `LastMessage`, written by every logged failure. */
  datatype Controller = Controller(
    state: MediaState,
    files: seq<FileUploadModel>,
    encryption: Remote.Protection,
    mediaProcessor: string,
    encoders: seq<string>,
    expireOn: int,
    collection: seq<Composition.Entry>,
    jobs: seq<Job>,
    tempContainers: seq<string>,
    dirty: bool,
    store: Store.Store,
    lastMessage: string)

  /** The record keys of the collection, in insertion order. */
  function CollectionKeys(collection: seq<Composition.Entry>): (r: seq<string>)
    ensures |r| == |collection|
    ensures forall k :: 0 <= k < |r| ==> r[k] == collection[k].0
  {
    if |collection| == 0 then [] else [collection[0].0] + CollectionKeys(collection[1..])
  }

  // ---------------------------------------------------------------------------
  // Life cycle
  // ---------------------------------------------------------------------------

  /** `Init`: the per-batch lists are emptied and the state is Initialized.
      The jobs, the asset collection and the temporary containers of the
      previous batch are kept. */
  function Init(c: Controller): (r: Controller)
    ensures r.state == Initialized && r.files == [] && r.encoders == [] && !r.dirty
    ensures r.jobs == c.jobs && r.collection == c.collection && r.tempContainers == c.tempContainers
    ensures r.store == c.store && r.lastMessage == c.lastMessage && r.encryption == c.encryption
    ensures r.mediaProcessor == c.mediaProcessor && r.expireOn == c.expireOn
  {
    c.(files := [], encoders := [], dirty := false, state := Initialized)
  }

  /** The constructor: a controller with no jobs and no collection, in
      Initialized, over the given store. */
  function NewController(store: Store.Store, lastMessage: string): (c: Controller)
    ensures c.state == Initialized && c.jobs == [] && c.collection == [] && c.files == []
    ensures c.store == store && !c.dirty
  {
    Init(Controller(Initialized, [], Remote.Unencrypted, "", [], 0, [], [], [], false, store, lastMessage))
  }

  function SetReady(c: Controller): (r: Controller)
    ensures r.state == Ready && r.(state := c.state) == c
  {
    c.(state := Ready)
  }

  function SetInProcess(c: Controller): (r: Controller)
    ensures r.state == InProcess && r.(state := c.state) == c
  {
    c.(state := InProcess)
  }

  /** `Reset`: only a Ready or Canceled controller drops its encoders, files
      and collection; the state itself is never changed. */
  function Reset(c: Controller): (r: Controller)
    ensures r.state == c.state && r.jobs == c.jobs && r.store == c.store
    ensures c.state == Ready || c.state == Canceled ==> r.encoders == [] && r.files == [] && r.collection == []
    ensures c.state != Ready && c.state != Canceled ==> r == c
  {
    if c.state == Ready || c.state == Canceled then c.(encoders := [], files := [], collection := [])
    else c
  }

  /** One new job per uploaded file, in file order. */
  function NewJobs(files: seq<FileUploadModel>): (r: seq<Job>)
    ensures |r| == |files|
    ensures forall k :: 0 <= k < |files| ==> r[k] == NewJob(files[k])
  {
    if |files| == 0 then [] else [NewJob(files[0])] + NewJobs(files[1..])
  }

  /** `CreateMediaJobs`: a job per file is appended to `MediaJobs`, which is
      never cleared, so the jobs of earlier batches stay in front. */
  function CreateMediaJobs(c: Controller): (r: Controller)
    ensures |r.jobs| == |c.jobs| + |c.files| && r.jobs[..|c.jobs|] == c.jobs
    ensures forall k :: 0 <= k < |c.files| ==> r.jobs[|c.jobs| + k].file == c.files[k] && r.jobs[|c.jobs| + k].state == Initialized
    ensures r.(jobs := c.jobs) == c
  {
    c.(jobs := c.jobs + NewJobs(c.files))
  }

  // ---------------------------------------------------------------------------
  // Callbacks
  // ---------------------------------------------------------------------------

  /** `MediaJobs.Count(m => m.State == s)`. */
  function CountIn(jobs: seq<Job>, s: MediaState): (n: nat)
    ensures n <= |jobs|
    ensures n == |jobs| <==> forall k :: 0 <= k < |jobs| ==> jobs[k].state == s
  {
    if |jobs| == 0 then 0
    else
      var rest := CountIn(jobs[1..], s);
      assert (forall k :: 0 <= k < |jobs| ==> jobs[k].state == s) <==>
             jobs[0].state == s && forall k :: 0 <= k < |jobs| - 1 ==> jobs[1..][k].state == s by {
        if forall k :: 0 <= k < |jobs| - 1 ==> jobs[1..][k].state == s {
          forall k | 1 <= k < |jobs| ensures jobs[k].state == s { assert jobs[k] == jobs[1..][k - 1]; }
        }
      }
      (if jobs[0].state == s then 1 else 0) + rest
  }

  /** The `AssetChanged` handler after job `i` has been ingested: the
      controller becomes Ingested once as many jobs are Ingested as there
      are files in the batch. */
  function OnAssetIngested(c: Controller, i: nat, assetName: string): (r: Controller)
    requires i < |c.jobs|
    ensures |r.jobs| == |c.jobs| && r.jobs[i].state == Ingested && r.jobs[i].assetName == Some(assetName)
    ensures forall k :: 0 <= k < |c.jobs| && k != i ==> r.jobs[k] == c.jobs[k]
    ensures r.state == Ingested || r.state == c.state
    ensures r.(jobs := c.jobs, state := c.state) == c
  {
    var jobs := c.jobs[i := AssetIngested(c.jobs[i], assetName).0];
    c.(jobs := jobs, state := if CountIn(jobs, Ingested) == |c.files| then Ingested else c.state)
  }

  /** With a single batch of jobs (one per file), the controller reports
      Ingested exactly when every job has been ingested (or it already did). */
  lemma IngestedWhenAllIngested(c: Controller, i: nat, assetName: string)
    requires i < |c.jobs| && |c.jobs| == |c.files|
    ensures var r := OnAssetIngested(c, i, assetName);
      r.state == Ingested <==> c.state == Ingested || forall k :: 0 <= k < |r.jobs| ==> r.jobs[k].state == Ingested
  {
  }

  /** Jobs of an earlier batch are counted too: with one stale Ingested job
      and a batch of two files, the first ingest of the new batch already
      makes the controller Ingested while the second file is not. */
  lemma StaleJobsCount(stale: Job, a: Job, b: Job, c: Controller, assetName: string)
    requires stale.state == Ingested && a.state == Initialized && b.state == Initialized
    requires c.jobs == [stale, a, b] && |c.files| == 2 && c.state == Ingesting
    ensures OnAssetIngested(c, 1, assetName).state == Ingested
    ensures OnAssetIngested(c, 1, assetName).jobs[2].state != Ingested
  {
    var r := OnAssetIngested(c, 1, assetName);
    assert r.jobs == [stale, r.jobs[1], b];
    assert CountIn(r.jobs, Ingested) == 2 by {
      assert r.jobs[1].state == Ingested;
      assert r.jobs[1..] == [r.jobs[1], b];
      assert r.jobs[1..][1..] == [b];
      assert [b][1..] == [];
      assert CountIn([b], Ingested) == 0;
      assert CountIn([r.jobs[1], b], Ingested) == 1;
    }
  }

  /** The status text a job reports once its remote state is `js`. */
  function StatusOf(js: Remote.JobState): string {
    Remote.JobStatus(js)
  }

  /** The `JobChanged` handler's first half: the job takes its new state and
      the controller adopts that state only when every job has it. */
  function Adopt(c: Controller, i: nat, js: Remote.JobState): (r: Controller)
    requires i < |c.jobs|
    ensures |r.jobs| == |c.jobs| && r.jobs[i] == JobStateChanged(c.jobs[i], js).0
    ensures forall k :: 0 <= k < |c.jobs| && k != i ==> r.jobs[k] == c.jobs[k]
    ensures r.(jobs := c.jobs, state := c.state) == c
  {
    var p := JobStateChanged(c.jobs[i], js);
    var jobs := c.jobs[i := p.0];
    c.(jobs := jobs, state := if CountIn(jobs, p.1) == |jobs| then p.1 else c.state)
  }

  /** The controller's state after a job event is the event's state exactly
      when all jobs share it, and otherwise the state it had. */
  lemma AdoptAggregates(c: Controller, i: nat, js: Remote.JobState)
    requires i < |c.jobs|
    ensures var r := Adopt(c, i, js);
      var s := r.jobs[i].state;
      ((forall k :: 0 <= k < |r.jobs| ==> r.jobs[k].state == s) ==> r.state == s) &&
      (!(forall k :: 0 <= k < |r.jobs| ==> r.jobs[k].state == s) ==> r.state == c.state)
  {
  }

  /** The keys of the collection that name a task of the job, in collection
      order: the records whose status the job event updates. */
  function TaskKeys(keys: seq<string>, tasks: seq<Composition.TaskSpec>): (r: seq<string>)
    ensures forall k :: k in r <==> k in keys && exists t :: t in tasks && t.name == k
  {
    if |keys| == 0 then []
    else
      var rest := TaskKeys(keys[1..], tasks);
      assert forall k :: k in keys <==> k == keys[0] || k in keys[1..];
      if exists t :: t in tasks && t.name == keys[0] then [keys[0]] + rest else rest
  }

  // ---------------------------------------------------------------------------
  // Record status
  // ---------------------------------------------------------------------------

  /** The record a composite key names, when the key splits and the store
      answers with a record. */
  predicate Finds(st: Store.Store, recordId: string) {
    var keys := SplitKey(recordId);
    keys.Ok? && Store.GetAsset(st, keys.value.0, keys.value.1).Ok? && Store.GetAsset(st, keys.value.0, keys.value.1).value.Some?
  }

  /** The record found for `recordId` with the new status and processing time. */
  function Restamped(st: Store.Store, recordId: string, status: string, elapsed: string): MediaAsset
    requires Finds(st, recordId)
  {
    var keys := SplitKey(recordId).value;
    Store.GetAsset(st, keys.0, keys.1).value.value.(status := status, processingTime := elapsed)
  }

  /** `UpdateStatus`: the record named by `"{pk};{rk}"` takes the status and
      the time since the batch started; a missing record is skipped. A key
      without ';' fails on `keys[1]`; store failures propagate. */
  function UpdateStatus(c: Controller, recordId: string, status: string, elapsed: string): (r: Result<Controller>)
    ensures ';' !in recordId ==> r == Err(IndexOutOfRange)
    ensures r.Ok? ==> r.value == c.(store := r.value.store, dirty := r.value.dirty)
    ensures r.Ok? ==> (r.value.dirty <==> c.dirty || Finds(c.store, recordId))
    ensures r.Ok? && !Finds(c.store, recordId) ==> r.value == c
    ensures r.Ok? && Finds(c.store, recordId) ==>
      Store.UpdateMediaAsset(c.store, Restamped(c.store, recordId, status, elapsed)) == Ok(r.value.store)
  {
    var u :- Restamp(c.store, recordId, status, elapsed);
    if u.None? then Ok(c) else Ok(c.(store := u.value, dirty := true))
  }

  /** `UpdateStatus` on the store alone: the updated store, or nothing when
      the record is missing. */
  function Restamp(st: Store.Store, recordId: string, status: string, elapsed: string): (r: Result<Option<Store.Store>>)
    ensures ';' !in recordId ==> r == Err(IndexOutOfRange)
    ensures r.Ok? ==> (r.value.Some? <==> Finds(st, recordId))
    ensures r.Ok? && r.value.Some? ==> Store.UpdateMediaAsset(st, Restamped(st, recordId, status, elapsed)) == Ok(r.value.value)
  {
    var keys :- SplitKey(recordId);
    var found :- Store.GetAsset(st, keys.0, keys.1);
    if found.None? then Ok(None)
    else
      var st' :- Store.UpdateMediaAsset(st, found.value.(status := status, processingTime := elapsed));
      Ok(Some(st'))
  }

  /** A status update that succeeds on an existing record is visible to the
      next read of that record. */
  lemma UpdateStatusVisible(c: Controller, recordId: string, status: string, elapsed: string)
    requires UpdateStatus(c, recordId, status, elapsed).Ok? && Finds(c.store, recordId)
    requires c.store.useSql || TableStore.WellKeyed(c.store.table)
    ensures var keys := SplitKey(recordId).value;
      var got := Store.GetAsset(UpdateStatus(c, recordId, status, elapsed).value.store, keys.0, keys.1);
      got.Ok? && got.value.Some? && got.value.value.status == status
  {
    var a := Restamped(c.store, recordId, status, elapsed);
    var keys := SplitKey(recordId).value;
    var found := Store.GetAsset(c.store, keys.0, keys.1).value.value;
    assert a.partitionKey == found.partitionKey && a.rowKey == found.rowKey;
    Store.GetAfterUpdate(c.store, a);
  }

  /** `UpdateStatus` over a list of keys, stopping at the first failure; the
      controller reached so far is kept. */
  function UpdateEach(c: Controller, keys: seq<string>, status: string, elapsed: string): (r: (Controller, Option<string>))
    ensures r.0 == c.(store := r.0.store, dirty := r.0.dirty)
    ensures c.dirty ==> r.0.dirty
    decreases |keys|
  {
    if |keys| == 0 then (c, None)
    else match UpdateStatus(c, keys[0], status, elapsed)
      case Err(e) => (c, Some(e))
      case Ok(c') => UpdateEach(c', keys[1..], status, elapsed)
  }

  /** The `JobChanged` handler (`StateChanged`) for job `i`, whose encoding
      job exists: the state is adopted as `Adopt` says, then every record of
      the collection that names a task of the job takes the job's status.
      A failing update escapes the handler. */
  function OnJobStateChanged(c: Controller, i: nat, js: Remote.JobState, elapsed: string): (r: (Controller, Option<string>))
    requires i < |c.jobs| && c.jobs[i].job.Some?
    ensures var a := Adopt(c, i, js);
      r.0 == a.(store := r.0.store, dirty := r.0.dirty)
    ensures r.1.None? ==> forall k :: k in TaskKeys(CollectionKeys(c.collection), c.jobs[i].job.value.tasks) ==> ';' in k
  {
    var a := Adopt(c, i, js);
    var keys := TaskKeys(CollectionKeys(c.collection), c.jobs[i].job.value.tasks);
    UpdateEachSplits(a, keys, StatusOf(js), elapsed);
    UpdateEach(a, keys, StatusOf(js), elapsed)
  }

  /** A run of updates without failure met only keys with ';'. */
  lemma {:induction false} UpdateEachSplits(c: Controller, keys: seq<string>, status: string, elapsed: string)
    ensures UpdateEach(c, keys, status, elapsed).1.None? ==> forall k :: k in keys ==> ';' in k
    decreases |keys|
  {
    if |keys| > 0 {
      match UpdateStatus(c, keys[0], status, elapsed)
      case Err(_) =>
      case Ok(c') =>
        UpdateEachSplits(c', keys[1..], status, elapsed);
        assert forall k :: k in keys ==> k == keys[0] || k in keys[1..];
    }
  }

  /** The continuation of job `i`'s progress task. */
  function OnJobTaskDone(c: Controller, i: nat): (r: Controller)
    requires i < |c.jobs|
    ensures |r.jobs| == |c.jobs| && r.jobs[i].isCompleted
    ensures forall k :: 0 <= k < |c.jobs| && k != i ==> r.jobs[k] == c.jobs[k]
    ensures r.(jobs := c.jobs) == c
  {
    c.(jobs := c.jobs[i := JobTaskDone(c.jobs[i])])
  }

  /** The status of the record a composite key names, when it is found. */
  function StatusAt(st: Store.Store, recordId: string): (r: Option<string>)
    ensures r.Some? <==> Finds(st, recordId)
  {
    if Finds(st, recordId) then
      var keys := SplitKey(recordId).value;
      Some(Store.GetAsset(st, keys.0, keys.1).value.value.status)
    else None
  }

  /** In the table store, one status update keeps the set of stored keys,
      stamps the record it names and leaves every other record's status. */
  lemma UpdateStatusInTable(c: Controller, recordId: string, status: string, elapsed: string)
    requires !c.store.useSql && TableStore.WellKeyed(c.store.table)
    requires UpdateStatus(c, recordId, status, elapsed).Ok?
    ensures var st := UpdateStatus(c, recordId, status, elapsed).value.store;
      !st.useSql && TableStore.WellKeyed(st.table) && st.table.Keys == c.store.table.Keys
    ensures var st := UpdateStatus(c, recordId, status, elapsed).value.store;
      Finds(c.store, recordId) ==> StatusAt(st, recordId) == Some(status)
    ensures var st := UpdateStatus(c, recordId, status, elapsed).value.store;
      forall k :: (Finds(st, k) <==> Finds(c.store, k)) && (StatusAt(c.store, k) == Some(status) ==> StatusAt(st, k) == Some(status))
  {
    var st := UpdateStatus(c, recordId, status, elapsed).value.store;
    if Finds(c.store, recordId) {
      var a := Restamped(c.store, recordId, status, elapsed);
      var keys := SplitKey(recordId).value;
      assert TableStore.KeyOf(a) == (keys.0, keys.1);
      assert st.table == c.store.table[(keys.0, keys.1) := a];
      forall k ensures (Finds(st, k) <==> Finds(c.store, k)) && (StatusAt(c.store, k) == Some(status) ==> StatusAt(st, k) == Some(status)) {
        if SplitKey(k).Ok? {
          var kk := SplitKey(k).value;
          if kk == keys {
            assert Finds(st, k);
          }
        }
      }
    } else {
      assert st == c.store;
    }
  }

  /** In the table store, a run of status updates that ends without failure
      leaves every record it found with the new status, and a record that
      already had that status keeps it. */
  lemma {:induction false} UpdateEachStamps(c: Controller, keys: seq<string>, status: string, elapsed: string)
    requires !c.store.useSql && TableStore.WellKeyed(c.store.table)
    requires UpdateEach(c, keys, status, elapsed).1.None?
    ensures var st := UpdateEach(c, keys, status, elapsed).0.store;
      !st.useSql && TableStore.WellKeyed(st.table) && st.table.Keys == c.store.table.Keys
    ensures var st := UpdateEach(c, keys, status, elapsed).0.store;
      forall k :: (k in keys && Finds(c.store, k)) || StatusAt(c.store, k) == Some(status) ==> StatusAt(st, k) == Some(status)
    decreases |keys|
  {
    if |keys| > 0 {
      var c' := UpdateStatus(c, keys[0], status, elapsed).value;
      UpdateStatusInTable(c, keys[0], status, elapsed);
      UpdateEachStamps(c', keys[1..], status, elapsed);
      assert forall k :: k in keys ==> k == keys[0] || k in keys[1..];
    }
  }

  // ---------------------------------------------------------------------------
  // CreateMediaEntries
  // ---------------------------------------------------------------------------

  /** The clock and the GUID source, indexed by the number of the record
      being made (`DateTime.UtcNow`, `Guid.NewGuid()`). */
  datatype Clock = Clock(now: nat -> Ticks, guid: nat -> string)

  const ClientMessage := "Encoding of media assets has started successfully..."

  /** `new DateTime(0).ToString("HH:mm:ss")`. */
  const ZeroTime := "00:00:00"

  const CreatedStatus := "Created"

  /** What every record of a batch shares: the protection, the renderer and
      the expiry span in ticks. */
  datatype Batch = Batch(encryption: Remote.Protection, mediaProcessor: string, expireOn: int)

  /** The encoders a file gets a record for: the chosen presets, or the media
      processor alone when none was chosen. */
  function RecordEncoders(encoders: seq<string>, mediaProcessor: string): (r: seq<string>)
    ensures |r| > 0
    ensures |encoders| > 0 ==> r == encoders
  {
    if |encoders| > 0 then encoders else [mediaProcessor]
  }

  /** The names a file's records carry: the title (the file name without
      directory and extension) and the original file name. */
  datatype Naming = Naming(title: string, fileName: string)

  function Namings(files: seq<FileUploadModel>): (r: seq<Naming>)
    ensures |r| == |files|
  {
    if |files| == 0 then []
    else [Naming(FileNameWithoutExtension(files[0].fileName), FileName(files[0].fileName))] + Namings(files[1..])
  }

  lemma {:induction false} NamingsAt(files: seq<FileUploadModel>, k: nat)
    requires k < |files|
    ensures Namings(files)[k] == Naming(FileNameWithoutExtension(files[k].fileName), FileName(files[k].fileName))
    decreases k
  {
    if k > 0 {
      NamingsAt(files[1..], k - 1);
    }
  }

  /** The record `CreateMediaEntries` writes for one file and encoder. */
  function EntryRecord(b: Batch, nm: Naming, encoder: string, now: Ticks, guid: string, expiry: Ticks): (a: MediaAsset)
    ensures a.partitionKey == nm.title && a.rowKey == RowKey(now, guid)
  {
    NewAsset(nm.title, now, guid).(
      originalFile := nm.fileName, encoding := encoder,
      protection := Remote.AssetCreationDescription(b.encryption), renderer := b.mediaProcessor,
      created := now, size := Some(0), url := "", processingTime := ZeroTime,
      expireOn := expiry, status := CreatedStatus)
  }

  /** The collection key of record number `n`. */
  function EntryKey(nm: Naming, n: nat, clock: Clock): string {
    CompositeKey(nm.title, RowKey(clock.now(n), clock.guid(n)))
  }

  /** Whether the store accepts the keys of a record: SQL takes any key, the
      table refuses a forbidden character in the title or the row key. */
  predicate SlotStorable(useSql: bool, s: Slot, clock: Clock) {
    useSql || (TableStore.ValidKey(s.nm.title) && TableStore.ValidKey(RowKey(clock.now(s.n), clock.guid(s.n))))
  }

  /** With a GUID from the clock the row key is always acceptable, so the
      table refuses a record exactly when its title holds a forbidden
      character. */
  lemma StorableIffTitleValid(useSql: bool, s: Slot, clock: Clock)
    requires IsGuidText(clock.guid(s.n))
    ensures SlotStorable(useSql, s, clock) <==> useSql || TableStore.ValidKey(s.nm.title)
  {
    TableStore.GuidRowKeyValid(clock.now(s.n), clock.guid(s.n));
  }

  /** Whether record number `n` has a representable expiry date. */
  predicate ExpiryInRange(span: int, n: nat, clock: Clock) {
    0 <= clock.now(n) + span <= MaxTicks
  }

  /** One record to write: the file's names, the encoder, the record's
      number in the batch (which fixes its clock reading and GUID), and
      whether it is the last record of its file. */
  datatype Slot = Slot(nm: Naming, encoder: string, n: nat, last: bool)

  /** The records of one file, numbered from `n`: one per encoder, in
      encoder order. */
  function FileSlots(nm: Naming, encs: seq<string>, n: nat): (r: seq<Slot>)
    ensures |r| == |encs|
    decreases |encs|
  {
    if |encs| == 0 then [] else [Slot(nm, encs[0], n, |encs| == 1)] + FileSlots(nm, encs[1..], n + 1)
  }

  /** Record `j` of a file is its `j`-th encoder, numbered `n + j`; only the
      one for the last encoder ends the file. */
  lemma {:induction false} FileSlotsAt(nm: Naming, encs: seq<string>, n: nat, j: nat)
    requires j < |encs|
    ensures FileSlots(nm, encs, n)[j] == Slot(nm, encs[j], n + j, j == |encs| - 1)
    decreases j
  {
    if j > 0 {
      FileSlotsAt(nm, encs[1..], n + 1, j - 1);
    }
  }

  /** The records of a list of files, numbered from `n`: the files in order,
      each with all its encoders. */
  function PlanSlots(nms: seq<Naming>, encs: seq<string>, n: nat): (r: seq<Slot>)
    decreases |nms|
  {
    if |nms| == 0 then [] else FileSlots(nms[0], encs, n) + PlanSlots(nms[1..], encs, n + |encs|)
  }

  lemma MulStep(a: nat, b: nat)
    requires a > 0
    ensures a * b == b + (a - 1) * b
  {
  }

  lemma {:induction false} MulBound(k: nat, m: nat, e: nat, j: nat)
    requires k < m && j < e
    ensures k * e + j < m * e
    decreases m - k
  {
    MulStep(k + 1, e);
    if k + 1 < m {
      MulBound(k + 1, m, e, j);
    }
  }

  /** Every file gets one record per encoder. */
  lemma {:induction false} PlanLength(nms: seq<Naming>, encs: seq<string>, n: nat)
    ensures |PlanSlots(nms, encs, n)| == |nms| * |encs|
    decreases |nms|
  {
    if |nms| > 0 {
      PlanLength(nms[1..], encs, n + |encs|);
      MulStep(|nms|, |encs|);
    }
  }

  lemma AppendIndex<T>(a: seq<T>, b: seq<T>, i: nat, i': nat)
    requires i == |a| + i' && i' < |b|
    ensures i < |a + b| && (a + b)[i] == b[i']
  {
  }

  /** Record `k * |encs| + j` of the batch is file `k` with encoder `j`. */
  lemma PlanAt(nms: seq<Naming>, encs: seq<string>, n: nat, k: nat, j: nat)
    requires k < |nms| && j < |encs|
    ensures k * |encs| + j < |PlanSlots(nms, encs, n)|
    ensures PlanSlots(nms, encs, n)[k * |encs| + j] ==
      Slot(nms[k], encs[j], n + k * |encs| + j, j == |encs| - 1)
  {
    OffsetIsProduct(k, |encs|);
    PlanAtOffset(nms, encs, n, k, j);
  }

  /** `k * e`, counted up one file at a time. */
  function Offset(k: nat, e: nat): nat {
    if k == 0 then 0 else e + Offset(k - 1, e)
  }

  lemma {:induction false} OffsetIsProduct(k: nat, e: nat)
    ensures Offset(k, e) == k * e
  {
    if k > 0 {
      OffsetIsProduct(k - 1, e);
      MulStep(k, e);
    }
  }

  lemma {:induction false} PlanAtOffset(nms: seq<Naming>, encs: seq<string>, n: nat, k: nat, j: nat)
    requires k < |nms| && j < |encs|
    ensures Offset(k, |encs|) + j < |PlanSlots(nms, encs, n)|
    ensures PlanSlots(nms, encs, n)[Offset(k, |encs|) + j] ==
      Slot(nms[k], encs[j], n + Offset(k, |encs|) + j, j == |encs| - 1)
    decreases k, 1
  {
    if k == 0 {
      PlanAtHead(nms, encs, n, j);
    } else {
      PlanAtStep(nms, encs, n, k, j);
    }
  }

  lemma PlanAtHead(nms: seq<Naming>, encs: seq<string>, n: nat, j: nat)
    requires 0 < |nms| && j < |encs|
    ensures Offset(0, |encs|) + j < |PlanSlots(nms, encs, n)|
    ensures PlanSlots(nms, encs, n)[Offset(0, |encs|) + j] == Slot(nms[0], encs[j], n + Offset(0, |encs|) + j, j == |encs| - 1)
  {
    var file := FileSlots(nms[0], encs, n);
    var rest := PlanSlots(nms[1..], encs, n + |encs|);
    assert PlanSlots(nms, encs, n) == file + rest;
    FileSlotsAt(nms[0], encs, n, j);
  }

  /** One file further into the batch is `|encs|` records further on. */
  lemma {:induction false} PlanAtStep(nms: seq<Naming>, encs: seq<string>, n: nat, k: nat, j: nat)
    requires 0 < k < |nms| && j < |encs|
    ensures Offset(k, |encs|) + j < |PlanSlots(nms, encs, n)|
    ensures PlanSlots(nms, encs, n)[Offset(k, |encs|) + j] ==
      Slot(nms[k], encs[j], n + Offset(k, |encs|) + j, j == |encs| - 1)
    decreases k, 0
  {
    PlanAtOffset(nms[1..], encs, n + |encs|, k - 1, j);
    var file := FileSlots(nms[0], encs, n);
    var rest := PlanSlots(nms[1..], encs, n + |encs|);
    var i' := Offset(k - 1, |encs|) + j;
    assert PlanSlots(nms, encs, n) == file + rest;
    assert nms[1..][k - 1] == nms[k];
    assert Offset(k, |encs|) + j == |encs| + i';
    AppendIndex(file, rest, |encs| + i', i');
  }

  /** The records of a batch are numbered consecutively from `n`. */
  lemma {:induction false} PlanNumbers(nms: seq<Naming>, encs: seq<string>, n: nat)
    ensures forall i :: 0 <= i < |PlanSlots(nms, encs, n)| ==> PlanSlots(nms, encs, n)[i].n == n + i
    decreases |nms|
  {
    if |nms| > 0 {
      var file := FileSlots(nms[0], encs, n);
      var rest := PlanSlots(nms[1..], encs, n + |encs|);
      var all: seq<Slot> := file + rest;
      PlanNumbers(nms[1..], encs, n + |encs|);
      forall i | 0 <= i < |all| ensures all[i].n == n + i {
        if i < |file| {
          FileSlotsAt(nms[0], encs, n, i);
        } else {
          assert all[i] == rest[i - |encs|];
        }
      }
      assert PlanSlots(nms, encs, n) == all;
    }
  }

  /** Whether some record ends a file. */
  predicate EndsAFile(slots: seq<Slot>)
    decreases |slots|
  {
    |slots| > 0 && (slots[0].last || EndsAFile(slots[1..]))
  }

  lemma {:induction false} EndsAFileAppend(a: seq<Slot>, b: seq<Slot>)
    ensures EndsAFile(a + b) <==> EndsAFile(a) || EndsAFile(b)
    decreases |a|
  {
    if |a| > 0 {
      assert (a + b)[1..] == a[1..] + b;
      EndsAFileAppend(a[1..], b);
    } else {
      assert a + b == b;
    }
  }

  /** A batch ends a file exactly when it has a file, as long as there is an
      encoder. */
  lemma {:induction false} PlanEndsAFile(nms: seq<Naming>, encs: seq<string>, n: nat)
    requires |encs| > 0
    ensures EndsAFile(PlanSlots(nms, encs, n)) <==> |nms| > 0
    decreases |nms|
  {
    if |nms| > 0 {
      var file := FileSlots(nms[0], encs, n);
      EndsAFileAppend(file, PlanSlots(nms[1..], encs, n + |encs|));
      FileSlotsAt(nms[0], encs, n, |encs| - 1);
      assert file == file[..|encs| - 1] + [file[|encs| - 1]];
      EndsAFileAppend(file[..|encs| - 1], [file[|encs| - 1]]);
      assert EndsAFile([file[|encs| - 1]]);
    }
  }

  /** The collection entry of a record: its key and its encoder. */
  function SlotEntry(s: Slot, clock: Clock): Composition.Entry {
    (EntryKey(s.nm, s.n, clock), s.encoder)
  }

  function SlotEntries(slots: seq<Slot>, clock: Clock): (r: seq<Composition.Entry>)
    ensures |r| == |slots|
    decreases |slots|
  {
    if |slots| == 0 then [] else [SlotEntry(slots[0], clock)] + SlotEntries(slots[1..], clock)
  }

  lemma {:induction false} SlotEntriesAt(slots: seq<Slot>, clock: Clock, i: nat)
    requires i < |slots|
    ensures SlotEntries(slots, clock)[i] == SlotEntry(slots[i], clock)
    decreases i
  {
    if i > 0 {
      SlotEntriesAt(slots[1..], clock, i - 1);
    }
  }

  /** The part of the controller `CreateMediaEntries` changes; `created`
      records that some file has had all its records made. */
  datatype Entering = Entering(store: Store.Store, collection: seq<Composition.Entry>, created: bool)

  /** The exceptions one record can raise. */
  predicate EntryError(msg: string) {
    msg == DuplicateKey || msg == ArgumentOutOfRange || msg == Store.KeyRefused
  }

  /** One record: the expiry date is computed (a date past the calendar
      throws), the record is stored (a key the table refuses throws), and its
      key is added to the collection (a key already there throws; the record
      stays stored). The state becomes Created once a file's last record is
      in. */
  function AddEntry(b: Batch, e: Entering, s: Slot, clock: Clock): (r: (Entering, Option<string>))
    ensures r.1.None? <==>
      ExpiryInRange(b.expireOn, s.n, clock) && SlotStorable(e.store.useSql, s, clock) &&
      EntryKey(s.nm, s.n, clock) !in CollectionKeys(e.collection)
    ensures r.1.None? ==> r.0.collection == e.collection + [SlotEntry(s, clock)]
    ensures r.1.None? ==> r.0.created == (e.created || s.last)
    ensures r.1.Some? ==> r.0.collection == e.collection && r.0.created == e.created
    ensures r.1.Some? ==> EntryError(r.1.value)
    ensures ExpiryInRange(b.expireOn, s.n, clock) && !SlotStorable(e.store.useSql, s, clock) ==>
      r == (e, Some(Store.KeyRefused))
    ensures ExpiryInRange(b.expireOn, s.n, clock) && SlotStorable(e.store.useSql, s, clock) ==>
      r.0.store == Store.AddMediaAsset(e.store, EntryRecord(b, s.nm, s.encoder, clock.now(s.n), clock.guid(s.n), clock.now(s.n) + b.expireOn)).value
    ensures !ExpiryInRange(b.expireOn, s.n, clock) ==> r == (e, Some(ArgumentOutOfRange))
    ensures r.0.store.useSql == e.store.useSql
  {
    var expiry := clock.now(s.n) + b.expireOn;
    if expiry < 0 || expiry > MaxTicks then (e, Some(ArgumentOutOfRange))
    else
      var a := EntryRecord(b, s.nm, s.encoder, clock.now(s.n), clock.guid(s.n), expiry);
      match Store.AddMediaAsset(e.store, a)
      case Err(msg) => (e, Some(msg))
      case Ok(st) =>
        var key := CompositeKey(a.partitionKey, a.rowKey);
        if key in CollectionKeys(e.collection) then (e.(store := st), Some(DuplicateKey))
        else (e.(store := st, collection := e.collection + [(key, s.encoder)], created := e.created || s.last), None)
  }

  /** The records in order, stopping at the first that throws. */
  function EnterSlots(b: Batch, e: Entering, slots: seq<Slot>, clock: Clock): (r: (Entering, Option<string>))
    ensures r.1.None? ==> r.0.collection == e.collection + SlotEntries(slots, clock)
    ensures r.1.None? ==> r.0.created == (e.created || EndsAFile(slots))
    ensures r.1.Some? ==> EntryError(r.1.value)
    ensures e.created ==> r.0.created
    ensures r.0.store.useSql == e.store.useSql
    decreases |slots|
  {
    if |slots| == 0 then (e, None)
    else
      var s := AddEntry(b, e, slots[0], clock);
      if s.1.Some? then s else EnterSlots(b, s.0, slots[1..], clock)
  }

  /** `CreateMediaEntries`: the collection is cleared, then every file gets a
      record per encoder and the state becomes Created after each file. The
      client message on success; on failure the exception's message, which
      is also logged. */
  function CreateMediaEntries(c: Controller, clock: Clock): (r: (Controller, string))
    ensures r.0 == c.(store := r.0.store, collection := r.0.collection, state := r.0.state, lastMessage := r.0.lastMessage)
    ensures r.1 == ClientMessage ==>
      r.0.collection == SlotEntries(PlanSlots(Namings(c.files), RecordEncoders(c.encoders, c.mediaProcessor), 0), clock) && r.0.lastMessage == c.lastMessage
    ensures r.1 != ClientMessage ==> r.0.lastMessage == r.1 && EntryError(r.1)
    ensures r.0.state == c.state || r.0.state == Created
  {
    var b := Batch(c.encryption, c.mediaProcessor, c.expireOn);
    var s := EnterSlots(b, Entering(c.store, [], false), PlanSlots(Namings(c.files), RecordEncoders(c.encoders, c.mediaProcessor), 0), clock);
    var c' := c.(store := s.0.store, collection := s.0.collection, state := if s.0.created then Created else c.state);
    if s.1.None? then (c', ClientMessage) else (c'.(lastMessage := s.1.value), s.1.value)
  }

  /** On success every file has its records and the state is Created, unless
      there were no files at all. */
  lemma CreateMediaEntriesMarksCreated(c: Controller, clock: Clock)
    requires CreateMediaEntries(c, clock).1 == ClientMessage
    ensures CreateMediaEntries(c, clock).0.state == if |c.files| == 0 then c.state else Created
  {
    PlanEndsAFile(Namings(c.files), RecordEncoders(c.encoders, c.mediaProcessor), 0);
  }

  lemma AppendAssoc<T>(a: seq<T>, b: seq<T>, c: seq<T>)
    ensures a + (b + c) == (a + b) + c
  {
  }

  /** No two entries share a record key. */
  predicate UniqueKeys(es: seq<Composition.Entry>)
    decreases |es|
  {
    |es| == 0 || (es[0].0 !in CollectionKeys(es[1..]) && UniqueKeys(es[1..]))
  }

  lemma {:induction false} KeysAppend(a: seq<Composition.Entry>, b: seq<Composition.Entry>)
    ensures CollectionKeys(a + b) == CollectionKeys(a) + CollectionKeys(b)
  {
    var l := CollectionKeys(a + b);
    var r := CollectionKeys(a) + CollectionKeys(b);
    assert |l| == |r|;
    forall i | 0 <= i < |l| ensures l[i] == r[i] {
      if i < |a| { assert (a + b)[i] == a[i]; } else { assert (a + b)[i] == b[i - |a|]; }
    }
  }

  /** Appending one entry keeps the keys unique exactly when its key is new. */
  lemma {:induction false} UniqueAppend(a: seq<Composition.Entry>, x: Composition.Entry)
    ensures UniqueKeys(a + [x]) <==> UniqueKeys(a) && x.0 !in CollectionKeys(a)
    decreases |a|
  {
    if |a| > 0 {
      assert (a + [x])[1..] == a[1..] + [x];
      UniqueAppend(a[1..], x);
      KeysAppend(a[1..], [x]);
      assert CollectionKeys([x]) == [x.0];
      assert CollectionKeys(a) == [a[0].0] + CollectionKeys(a[1..]);
    }
  }

  /** A prefix of entries with unique keys has unique keys. */
  lemma {:induction false} UniquePrefix(a: seq<Composition.Entry>, b: seq<Composition.Entry>)
    requires UniqueKeys(a + b)
    ensures UniqueKeys(a)
    decreases |a|
  {
    if |a| > 0 {
      assert (a + b)[1..] == a[1..] + b;
      KeysAppend(a[1..], b);
      UniquePrefix(a[1..], b);
    }
  }

  /** Every record has a representable expiry date. */
  predicate SlotsInRange(span: int, slots: seq<Slot>, clock: Clock) {
    forall i :: 0 <= i < |slots| ==> ExpiryInRange(span, slots[i].n, clock)
  }

  /** The store accepts the keys of every record. */
  predicate SlotsStorable(useSql: bool, slots: seq<Slot>, clock: Clock) {
    forall i :: 0 <= i < |slots| ==> SlotStorable(useSql, slots[i], clock)
  }

  /** Entering records succeeds exactly when the keys stay unique, every
      expiry date is representable, and the store accepts every key. */
  lemma {:induction false} EnterSlotsSucceeds(b: Batch, e: Entering, slots: seq<Slot>, clock: Clock)
    requires UniqueKeys(e.collection)
    ensures EnterSlots(b, e, slots, clock).1.None? <==>
      UniqueKeys(e.collection + SlotEntries(slots, clock)) && SlotsInRange(b.expireOn, slots, clock) &&
      SlotsStorable(e.store.useSql, slots, clock)
    decreases |slots|
  {
    var es := SlotEntries(slots, clock);
    if |slots| == 0 {
      assert e.collection + es == e.collection;
    } else {
      var x := SlotEntry(slots[0], clock);
      var rest := SlotEntries(slots[1..], clock);
      assert es == [x] + rest;
      AppendAssoc(e.collection, [x], rest);
      assert SlotsInRange(b.expireOn, slots, clock) <==>
        ExpiryInRange(b.expireOn, slots[0].n, clock) && SlotsInRange(b.expireOn, slots[1..], clock) by {
        if SlotsInRange(b.expireOn, slots[1..], clock) {
          forall i | 1 <= i < |slots| ensures ExpiryInRange(b.expireOn, slots[i].n, clock) {
            assert slots[i] == slots[1..][i - 1];
          }
        }
      }
      assert SlotsStorable(e.store.useSql, slots, clock) <==>
        SlotStorable(e.store.useSql, slots[0], clock) && SlotsStorable(e.store.useSql, slots[1..], clock) by {
        if SlotsStorable(e.store.useSql, slots[1..], clock) {
          forall i | 1 <= i < |slots| ensures SlotStorable(e.store.useSql, slots[i], clock) {
            assert slots[i] == slots[1..][i - 1];
          }
        }
      }
      UniqueAppend(e.collection, x);
      var s := AddEntry(b, e, slots[0], clock);
      if s.1.None? {
        EnterSlotsSucceeds(b, s.0, slots[1..], clock);
        assert EnterSlots(b, e, slots, clock) == EnterSlots(b, s.0, slots[1..], clock);
      } else {
        assert EnterSlots(b, e, slots, clock) == s;
        if UniqueKeys(e.collection + es) {
          UniquePrefix(e.collection + [x], rest);
        }
      }
    }
  }

  /** Records `n` to `n + count - 1` all have representable expiry dates. */
  predicate ExpiriesInRange(span: int, n: nat, count: nat, clock: Clock) {
    forall m :: n <= m < n + count ==> ExpiryInRange(span, m, clock)
  }

  /** A batch's expiry dates are representable exactly when those of its
      first `|plan|` records are. */
  lemma PlanInRange(span: int, nms: seq<Naming>, encs: seq<string>, clock: Clock)
    ensures var plan := PlanSlots(nms, encs, 0);
      SlotsInRange(span, plan, clock) <==> ExpiriesInRange(span, 0, |plan|, clock)
  {
    var plan := PlanSlots(nms, encs, 0);
    PlanNumbers(nms, encs, 0);
    if SlotsInRange(span, plan, clock) {
      forall m | 0 <= m < |plan| ensures ExpiryInRange(span, m, clock) {
        assert plan[m].n == m;
      }
    }
    if ExpiriesInRange(span, 0, |plan|, clock) {
      forall i | 0 <= i < |plan| ensures ExpiryInRange(span, plan[i].n, clock) {
        assert plan[i].n == i;
      }
    }
  }

  /** `CreateMediaEntries` returns the client message exactly when all the
      planned record keys differ, the clock readings of all the planned
      records give representable expiry dates, and the store accepts every
      planned key. */
  lemma CreateMediaEntriesSucceeds(c: Controller, clock: Clock)
    ensures var plan := PlanSlots(Namings(c.files), RecordEncoders(c.encoders, c.mediaProcessor), 0);
      CreateMediaEntries(c, clock).1 == ClientMessage <==>
      UniqueKeys(SlotEntries(plan, clock)) && ExpiriesInRange(c.expireOn, 0, |plan|, clock) &&
      SlotsStorable(c.store.useSql, plan, clock)
  {
    var b := Batch(c.encryption, c.mediaProcessor, c.expireOn);
    var plan := PlanSlots(Namings(c.files), RecordEncoders(c.encoders, c.mediaProcessor), 0);
    EnterSlotsSucceeds(b, Entering(c.store, [], false), plan, clock);
    PlanInRange(c.expireOn, Namings(c.files), RecordEncoders(c.encoders, c.mediaProcessor), clock);
    assert [] + SlotEntries(plan, clock) == SlotEntries(plan, clock);
    assert ClientMessage != DuplicateKey && ClientMessage != ArgumentOutOfRange && ClientMessage != Store.KeyRefused;
  }

  // ---------------------------------------------------------------------------
  // ProcessMedia
  // ---------------------------------------------------------------------------

  /** What the service answers when job `k` ingests its file: the locator
      path of the upload container and the length of the uploaded blob. */
  type Sources = nat -> (string, nat)

  /** The temporary containers of jobs `k` to `n - 1`, in job order: the
      reference for what a complete ingest records. */
  function Containers(source: Sources, k: nat, n: nat): (r: seq<string>)
    requires k <= n
    ensures |r| == n - k
    decreases n - k
  {
    if k == n then [] else [Before(source(k).0, '?')] + Containers(source, k + 1, n)
  }

  /** The container recorded for job `m` is its upload path without the query. */
  lemma {:induction false} ContainersAt(source: Sources, k: nat, n: nat, m: nat)
    requires k <= m < n
    ensures Containers(source, k, n)[m - k] == Before(source(m).0, '?')
    decreases m - k
  {
    if m > k {
      ContainersAt(source, k + 1, n, m);
    }
  }

  /** Ingests jobs `k` onwards, in job order: each ingest records its
      temporary container and moves the controller to Ingesting; the first
      empty source stops the run. */
  function IngestFrom(c: Controller, source: Sources, k: nat): (r: (Controller, Option<string>))
    requires k <= |c.jobs|
    ensures r.0 == c.(state := r.0.state, tempContainers := r.0.tempContainers)
    ensures r.1.None? <==> forall m :: k <= m < |c.jobs| ==> source(m).1 > 0
    ensures r.1.Some? ==> r.1.value == Publication.EmptySource
    ensures r.1.None? ==> r.0.tempContainers == c.tempContainers + Containers(source, k, |c.jobs|)
    ensures r.1.None? ==> r.0.state == if k < |c.jobs| then Ingesting else c.state
    decreases |c.jobs| - k
  {
    if k == |c.jobs| then (c, None)
    else match Publication.IngestAsset(source(k).0, source(k).1)
      case Err(msg) => (c, Some(msg))
      case Ok(container) =>
        var r := IngestFrom(c.(state := Ingesting, tempContainers := c.tempContainers + [container]), source, k + 1);
        AppendAssoc(c.tempContainers, [container], Containers(source, k + 1, |c.jobs|));
        r
  }

  /** `ProcessMedia`: the temporary container list starts empty and every job
      (of this batch and of earlier ones) ingests its file. An empty source
      cancels the controller; its message is logged. */
  function ProcessMedia(c: Controller, source: Sources): (r: (Controller, bool))
    ensures r.0 == c.(state := r.0.state, tempContainers := r.0.tempContainers, lastMessage := r.0.lastMessage)
    ensures r.1 <==> forall m :: 0 <= m < |c.jobs| ==> source(m).1 > 0
    ensures !r.1 ==> r.0.state == Canceled && r.0.lastMessage == Publication.EmptySource
    ensures r.1 ==> r.0.lastMessage == c.lastMessage && r.0.state == if |c.jobs| > 0 then Ingesting else c.state
    ensures r.1 ==> r.0.tempContainers == Containers(source, 0, |c.jobs|)
  {
    var s := IngestFrom(c.(tempContainers := []), source, 0);
    assert [] + Containers(source, 0, |c.jobs|) == Containers(source, 0, |c.jobs|);
    if s.1.None? then (s.0, true) else (s.0.(state := Canceled, lastMessage := s.1.value), false)
  }

  // ---------------------------------------------------------------------------
  // BeginEncoding
  // ---------------------------------------------------------------------------

  const UploadedStatus := "100% Uploaded"

  /** What job submission reads from the controller. */
  datatype Submission = Submission(processor: string, collection: seq<Composition.Entry>, encryption: Remote.Protection)

  /** What job submission changes. */
  datatype Submitting = Submitting(jobs: seq<Job>, store: Store.Store, dirty: bool)

  /** Submits job `k`: the encoding job is composed and stored in the job,
      and the record its first task names takes the status of a new job. A
      job without an ingested asset, a failed composition or a failed update
      stops the run. */
  function SubmitJob(env: Submission, t: Submitting, cat: Composition.Catalog, elapsed: string, k: nat): (r: (Submitting, Option<string>))
    requires k < |t.jobs|
    ensures |r.0.jobs| == |t.jobs|
    ensures t.dirty ==> r.0.dirty
    ensures r.0.jobs == t.jobs[k := r.0.jobs[k]] && r.0.jobs[k] == t.jobs[k].(job := r.0.jobs[k].job)
    ensures r.1.None? ==> t.jobs[k].assetName.Some? && r.0.jobs[k].job.Some? && r.0.jobs[k].job.value.name == t.jobs[k].assetName.value
  {
    match CreateJob(t.jobs[k], env.processor, env.collection, env.encryption, cat)
    case Err(msg) => (t, Some(msg))
    case Ok(made) =>
      var t1 := t.(jobs := t.jobs[k := made.0]);
      match Restamp(t1.store, made.1.tasks[0].name, StatusOf(Remote.Queued), elapsed)
      case Err(msg) => (t1, Some(msg))
      case Ok(u) => (if u.None? then t1 else t1.(store := u.value, dirty := true), None)
  }

  /** Submits jobs `k` onwards, in job order, stopping at the first failure;
      a run without failure has given each of them an encoding job named
      after its ingested asset. */
  function SubmitFrom(env: Submission, t: Submitting, cat: Composition.Catalog, elapsed: string, k: nat): (r: (Submitting, Option<string>))
    requires k <= |t.jobs|
    ensures |r.0.jobs| == |t.jobs|
    ensures t.dirty ==> r.0.dirty
    ensures forall m :: 0 <= m < |t.jobs| ==> r.0.jobs[m] == t.jobs[m].(job := r.0.jobs[m].job)
    ensures forall m :: 0 <= m < k ==> r.0.jobs[m] == t.jobs[m]
    ensures r.1.None? ==> forall m :: k <= m < |t.jobs| ==>
      t.jobs[m].assetName.Some? && r.0.jobs[m].job.Some? && r.0.jobs[m].job.value.name == t.jobs[m].assetName.value
    decreases |t.jobs| - k
  {
    if k == |t.jobs| then (t, None)
    else
      var s := SubmitJob(env, t, cat, elapsed, k);
      if s.1.Some? then s else SubmitFrom(env, s.0, cat, elapsed, k + 1)
  }

  /** `BeginEncoding`: every record of the collection is marked uploaded, the
      controller becomes Started (and dirty), then every job is submitted.
      Any failure cancels the controller and is logged. Success means every
      job had an ingested asset and now holds an encoding job named after it;
      nothing else about the jobs changes. */
  function BeginEncoding(c: Controller, cat: Composition.Catalog, elapsed: string): (r: (Controller, bool))
    ensures |r.0.jobs| == |c.jobs|
    ensures r.0 == c.(jobs := r.0.jobs, store := r.0.store, dirty := r.0.dirty, state := r.0.state, lastMessage := r.0.lastMessage)
    ensures r.1 ==> r.0.state == Started && r.0.dirty && r.0.lastMessage == c.lastMessage
    ensures !r.1 ==> r.0.state == Canceled
    ensures forall m :: 0 <= m < |c.jobs| ==> r.0.jobs[m] == c.jobs[m].(job := r.0.jobs[m].job)
    ensures r.1 ==> forall m :: 0 <= m < |c.jobs| ==>
      c.jobs[m].assetName.Some? && r.0.jobs[m].job.Some? && r.0.jobs[m].job.value.name == c.jobs[m].assetName.value
  {
    var u := UpdateEach(c, CollectionKeys(c.collection), UploadedStatus, elapsed);
    if u.1.Some? then (u.0.(state := Canceled, lastMessage := u.1.value), false)
    else
      var env := Submission(c.mediaProcessor, c.collection, c.encryption);
      var s := SubmitFrom(env, Submitting(c.jobs, u.0.store, true), cat, elapsed, 0);
      var c' := c.(state := Started, jobs := s.0.jobs, store := s.0.store, dirty := s.0.dirty);
      if s.1.Some? then (c'.(state := Canceled, lastMessage := s.1.value), false) else (c', true)
  }

  /** A job whose file was never ingested cancels `BeginEncoding`. */
  lemma BeginEncodingNeedsAssets(c: Controller, cat: Composition.Catalog, elapsed: string, m: nat)
    requires m < |c.jobs| && c.jobs[m].assetName.None?
    ensures !BeginEncoding(c, cat, elapsed).1 && BeginEncoding(c, cat, elapsed).0.state == Canceled
  {
  }

  /** The first failure is what the controller logs: a collection key
      without ';' fails before any job is composed. */
  lemma BeginEncodingNeedsKeys(c: Controller, cat: Composition.Catalog, elapsed: string, k: string)
    requires k in CollectionKeys(c.collection) && ';' !in k
    ensures !BeginEncoding(c, cat, elapsed).1
  {
    UpdateEachSplits(c, CollectionKeys(c.collection), UploadedStatus, elapsed);
  }

  // ---------------------------------------------------------------------------
  // GetJobResults
  // ---------------------------------------------------------------------------

  /** What the service answers about job `k`'s encoding job once it has
      completed: its output assets, the path of the thumbnail locator, the
      task that produced each output asset (by asset id, as a task index),
      and the job's remote state. */
  datatype Outcome = Outcome(
    outputs: seq<Publication.OutputAsset>,
    thPath: string,
    producer: map<string, nat>,
    remote: Remote.JobState)

  type Outcomes = nat -> Outcome

  /** The logged message for a record the store does not have. */
  function CantFetch(pk: string, rk: string): string {
    "Can't fetch the media record from the MediaAssets table with partition key=" + pk + " and rowKey=" + rk
  }

  /** The state `GetJobResults` accumulates: the store, `assetsDict` (row key
      to partition key of the records written), how many clones have taken
      a fresh row key, the result flag, the dirty flag and the last logged
      message. */
  datatype Harvest = Harvest(
    store: Store.Store,
    written: map<string, string>,
    clones: nat,
    status: bool,
    dirty: bool,
    lastMessage: string)

  /** The task whose output asset has the id `taskId`, if any. */
  function OwnerTask(spec: Composition.JobSpec, o: Outcome, taskId: string): (r: Option<Composition.TaskSpec>)
    ensures r.Some? <==> taskId in o.producer && o.producer[taskId] < |spec.tasks|
    ensures r.Some? ==> r.value in spec.tasks
  {
    if taskId in o.producer && o.producer[taskId] < |spec.tasks| then Some(spec.tasks[o.producer[taskId]]) else None
  }

  /** The record with the published URLs, the file size (`GetFileSize`
      answers 0), the processing time and the job's status. */
  function Published(a: MediaAsset, u: Publication.UrlEntry, o: Outcome, elapsed: string): MediaAsset {
    a.(url := u.url, thumbnail := u.thumbnailUrl, size := Some(0), processingTime := elapsed, status := StatusOf(o.remote))
  }

  /** Whether `assetsDict` already holds exactly this record's keys. */
  predicate Repeated(h: Harvest, pk: string, rk: string) {
    rk in h.written && h.written[rk] == pk
  }

  /** The found record `a` with keys (`pk`, `rk`) takes a published URL. A
      record already written in this run is cloned under a fresh row key
      instead of overwritten (a clone whose keys the table refuses throws); a
      row key written twice fails as `Dictionary.Add` does. */
  function WriteRecord(h: Harvest, a: MediaAsset, pk: string, rk: string, clock: Clock): (r: (Harvest, Option<string>))
    ensures r.0.lastMessage == h.lastMessage
    ensures r.1.None? ==> r.0.status && r.0.dirty
    ensures r.1.Some? ==> r.0.status == h.status && r.0.dirty == h.dirty
    ensures Repeated(h, pk, rk) ==> r.0.clones == h.clones + 1
    ensures var added := Store.AddMediaAsset(h.store, a.(rowKey := RowKey(clock.now(h.clones), clock.guid(h.clones))));
      Repeated(h, pk, rk) ==>
        (added.Err? ==> r.0.store == h.store && r.1 == Some(Store.KeyRefused)) &&
        (added.Ok? ==> r.0.store == added.value) &&
        (r.1.None? <==> added.Ok? && RowKey(clock.now(h.clones), clock.guid(h.clones)) !in h.written)
    ensures !Repeated(h, pk, rk) ==> r.0.clones == h.clones
    ensures !Repeated(h, pk, rk) && Store.UpdateMediaAsset(h.store, a).Err? ==> r == (h, Some(Store.UpdateMediaAsset(h.store, a).msg))
    ensures !Repeated(h, pk, rk) && Store.UpdateMediaAsset(h.store, a).Ok? ==>
      (r.0.store == Store.UpdateMediaAsset(h.store, a).value && (r.1.None? <==> a.rowKey !in h.written))
    ensures r.1.None? ==> |r.0.written| == |h.written| + 1
    ensures r.1.Some? ==> r.0.written == h.written
  {
    if Repeated(h, pk, rk) then
      var clone := a.(rowKey := RowKey(clock.now(h.clones), clock.guid(h.clones)));
      match Store.AddMediaAsset(h.store, clone)
      case Err(msg) => (h.(clones := h.clones + 1), Some(msg))
      case Ok(st) =>
        var h' := h.(store := st, clones := h.clones + 1);
        if clone.rowKey in h.written then (h', Some(DuplicateKey))
        else (h'.(written := h.written[clone.rowKey := clone.partitionKey], status := true, dirty := true), None)
    else
      match Store.UpdateMediaAsset(h.store, a)
      case Err(msg) => (h, Some(msg))
      case Ok(st) =>
        if a.rowKey in h.written then (h.(store := st), Some(DuplicateKey))
        else (h.(store := st, written := h.written[a.rowKey := a.partitionKey], status := true, dirty := true), None)
  }

  /** One published URL: the record named by the task that produced the
      output asset is given the URL and the job's status. A URL no task
      produced only sets the flags; a task name without ';' is skipped and a
      missing record is logged and skipped. */
  function HarvestEntry(h: Harvest, spec: Composition.JobSpec, o: Outcome, u: Publication.UrlEntry, clock: Clock, elapsed: string): (r: (Harvest, Option<string>))
    ensures h.status ==> r.0.status
    ensures h.dirty ==> r.0.dirty
    ensures OwnerTask(spec, o, Before(u.key, ';')).None? ==> r == (h.(status := true, dirty := true), None)
    ensures OwnerTask(spec, o, Before(u.key, ';')).Some? && ';' !in OwnerTask(spec, o, Before(u.key, ';')).value.name ==> r == (h, None)
    ensures r.1.None? ==> (|r.0.written| >= |h.written| &&
      (r.0.status <==> h.status || |r.0.written| > |h.written| || OwnerTask(spec, o, Before(u.key, ';')).None?))
  {
    var task := OwnerTask(spec, o, Before(u.key, ';'));
    if task.None? then (h.(status := true, dirty := true), None)
    else match SplitKey(task.value.name)
      case Err(_) => (h, None)
      case Ok(keys) =>
        match Store.GetAsset(h.store, keys.0, keys.1)
        case Err(msg) => (h, Some(msg))
        case Ok(found) =>
          if found.None? then (h.(lastMessage := CantFetch(keys.0, keys.1)), None)
          else WriteRecord(h, Published(found.value, u, o, elapsed), keys.0, keys.1, clock)
  }

  /** Whether some URL of `us` comes from an output no task of the job
      produced. */
  predicate UnownedIn(spec: Composition.JobSpec, o: Outcome, us: seq<Publication.UrlEntry>)
    decreases |us|
  {
    |us| > 0 && (OwnerTask(spec, o, Before(us[0].key, ';')).None? || UnownedIn(spec, o, us[1..]))
  }

  /** The published URLs of one job in order, stopping at the first failure.
      Without a failure the flag is raised exactly when a record was written
      or a URL had no producing task. */
  function HarvestEntries(h: Harvest, spec: Composition.JobSpec, o: Outcome, us: seq<Publication.UrlEntry>, clock: Clock, elapsed: string): (r: (Harvest, Option<string>))
    ensures h.status ==> r.0.status
    ensures r.1.None? ==> (|r.0.written| >= |h.written| &&
      (r.0.status <==> h.status || |r.0.written| > |h.written| || UnownedIn(spec, o, us)))
    decreases |us|
  {
    if |us| == 0 then (h, None)
    else
      var s := HarvestEntry(h, spec, o, us[0], clock, elapsed);
      if s.1.Some? then s else HarvestEntries(s.0, spec, o, us[1..], clock, elapsed)
  }

  /** Whether a completed job from `k` on publishes a URL of an output no
      task of its job produced. */
  predicate UnownedFrom(jobs: seq<Job>, outcome: Outcomes, k: nat)
    requires k <= |jobs|
    decreases |jobs| - k
  {
    k < |jobs| &&
    ((jobs[k].isCompleted && Publish(jobs[k], outcome(k).outputs, outcome(k).thPath).Ok? &&
      UnownedIn(jobs[k].job.value, outcome(k), Publish(jobs[k], outcome(k).outputs, outcome(k).thPath).value)) ||
     UnownedFrom(jobs, outcome, k + 1))
  }

  /** Jobs `k` onwards in order: a job that has not completed is passed over;
      a completed one publishes its outputs and harvests their URLs. Without
      a failure the flag is raised exactly when a record was written or a
      completed job published a URL no task produced. */
  function HarvestJobs(h: Harvest, jobs: seq<Job>, outcome: Outcomes, k: nat, clock: Clock, elapsed: string): (r: (Harvest, Option<string>))
    requires k <= |jobs|
    ensures h.status ==> r.0.status
    ensures (forall m :: k <= m < |jobs| ==> !jobs[m].isCompleted) ==> r == (h, None)
    ensures r.1.None? ==> (|r.0.written| >= |h.written| &&
      (r.0.status <==> h.status || |r.0.written| > |h.written| || UnownedFrom(jobs, outcome, k)))
    decreases |jobs| - k
  {
    if k == |jobs| then (h, None)
    else if !jobs[k].isCompleted then HarvestJobs(h, jobs, outcome, k + 1, clock, elapsed)
    else match Publish(jobs[k], outcome(k).outputs, outcome(k).thPath)
      case Err(msg) => (h, Some(msg))
      case Ok(us) =>
        var s := HarvestEntries(h, jobs[k].job.value, outcome(k), us, clock, elapsed);
        if s.1.Some? then s else HarvestJobs(s.0, jobs, outcome, k + 1, clock, elapsed)
  }

  /** The harvest of `GetJobResults` over all the jobs, from an empty
      `assetsDict` and a cleared flag. */
  function HarvestAll(c: Controller, outcome: Outcomes, clock: Clock, elapsed: string): (Harvest, Option<string>) {
    HarvestJobs(Harvest(c.store, map[], 0, false, c.dirty, c.lastMessage), c.jobs, outcome, 0, clock, elapsed)
  }

  /** `GetJobResults`: the completed jobs' URLs reach their records; the
      result says whether any URL was harvested. A failure cancels, is
      logged and answers false, and in every case the controller is finally
      reset by `Init`. Removing the temporary containers is a remote effect. */
  function GetJobResults(c: Controller, outcome: Outcomes, clock: Clock, elapsed: string): (r: (Controller, bool))
    ensures r.0 == Init(c).(store := r.0.store, lastMessage := r.0.lastMessage)
    ensures r.0.store == HarvestAll(c, outcome, clock, elapsed).0.store
    ensures HarvestAll(c, outcome, clock, elapsed).1.Some? ==>
      !r.1 && r.0.lastMessage == HarvestAll(c, outcome, clock, elapsed).1.value
    ensures HarvestAll(c, outcome, clock, elapsed).1.None? ==>
      r.0.lastMessage == HarvestAll(c, outcome, clock, elapsed).0.lastMessage &&
      (r.1 <==> |HarvestAll(c, outcome, clock, elapsed).0.written| > 0 || UnownedFrom(c.jobs, outcome, 0))
    ensures r.1 ==> exists m :: 0 <= m < |c.jobs| && c.jobs[m].isCompleted
  {
    var h := HarvestAll(c, outcome, clock, elapsed);
    var c' := c.(store := h.0.store, dirty := h.0.dirty, lastMessage := h.0.lastMessage);
    if h.1.Some? then (Init(c'.(state := Canceled, lastMessage := h.1.value)), false)
    else (Init(c'), h.0.status)
  }

  /** With no completed job nothing is harvested: the store is untouched, the
      result is false, and the controller is only reset. */
  lemma GetJobResultsNothingCompleted(c: Controller, outcome: Outcomes, clock: Clock, elapsed: string)
    requires forall m :: 0 <= m < |c.jobs| ==> !c.jobs[m].isCompleted
    ensures GetJobResults(c, outcome, clock, elapsed) == (Init(c), false)
  {
  }

  /** A record written for the first time in a run is updated in place: the
      next read finds the job's status and URL, and `assetsDict` now holds
      its keys, so a second URL for it makes a clone. */
  lemma WriteRecordUpdates(h: Harvest, a: MediaAsset, clock: Clock)
    requires !Repeated(h, a.partitionKey, a.rowKey)
    requires WriteRecord(h, a, a.partitionKey, a.rowKey, clock).1.None?
    ensures var r := WriteRecord(h, a, a.partitionKey, a.rowKey, clock).0;
      var got := Store.GetAsset(r.store, a.partitionKey, a.rowKey);
      got.Ok? && got.value.Some? && got.value.value.status == a.status && got.value.value.url == a.url
    ensures Repeated(WriteRecord(h, a, a.partitionKey, a.rowKey, clock).0, a.partitionKey, a.rowKey)
  {
    Store.GetAfterUpdate(h.store, a);
  }

  /** A URL whose producing task names a stored record reaches that record:
      read back after the entry, the record (or, when the run has already
      written it, its copy under the clock's fresh row key) carries the URL,
      the thumbnail and the job's status. */
  lemma HarvestEntryPublishes(h: Harvest, spec: Composition.JobSpec, o: Outcome, u: Publication.UrlEntry, clock: Clock, elapsed: string, a: MediaAsset)
    requires OwnerTask(spec, o, Before(u.key, ';')).Some?
    requires SplitKey(OwnerTask(spec, o, Before(u.key, ';')).value.name) == Ok((a.partitionKey, a.rowKey))
    requires Store.GetAsset(h.store, a.partitionKey, a.rowKey) == Ok(Some(a))
    requires HarvestEntry(h, spec, o, u, clock, elapsed).1.None?
    ensures !Repeated(h, a.partitionKey, a.rowKey) ==>
      var got := Store.GetAsset(HarvestEntry(h, spec, o, u, clock, elapsed).0.store, a.partitionKey, a.rowKey);
      got.Ok? && got.value.Some? && got.value.value.url == u.url && got.value.value.status == StatusOf(o.remote)
    ensures var newKey := RowKey(clock.now(h.clones), clock.guid(h.clones));
      Repeated(h, a.partitionKey, a.rowKey) &&
      (h.store.useSql ==> SqlStore.MatchCount(h.store.rows, a.partitionKey, newKey) == 0) ==>
      Store.GetAsset(HarvestEntry(h, spec, o, u, clock, elapsed).0.store, a.partitionKey, newKey) ==
        Ok(Some(a.(url := u.url, thumbnail := u.thumbnailUrl, size := Some(0), processingTime := elapsed,
                   status := StatusOf(o.remote), rowKey := newKey)))
  {
    var p := Published(a, u, o, elapsed);
    assert HarvestEntry(h, spec, o, u, clock, elapsed) == WriteRecord(h, p, a.partitionKey, a.rowKey, clock);
    var newKey := RowKey(clock.now(h.clones), clock.guid(h.clones));
    if !Repeated(h, a.partitionKey, a.rowKey) {
      WriteRecordUpdates(h, p, clock);
    } else if h.store.useSql ==> SqlStore.MatchCount(h.store.rows, a.partitionKey, newKey) == 0 {
      WriteRecordClones(h, p, clock);
    }
  }

  /** A record already written in the run is not overwritten: a copy with a
      fresh row key from the clock is added, and reading that key back gives
      the copy with the job's status and URL. */
  lemma WriteRecordClones(h: Harvest, a: MediaAsset, clock: Clock)
    requires Repeated(h, a.partitionKey, a.rowKey)
    requires WriteRecord(h, a, a.partitionKey, a.rowKey, clock).1.None?
    requires h.store.useSql ==> SqlStore.MatchCount(h.store.rows, a.partitionKey, RowKey(clock.now(h.clones), clock.guid(h.clones))) == 0
    ensures var r := WriteRecord(h, a, a.partitionKey, a.rowKey, clock).0;
      var rk := RowKey(clock.now(h.clones), clock.guid(h.clones));
      Store.GetAsset(r.store, a.partitionKey, rk) == Ok(Some(a.(rowKey := rk))) &&
      rk != a.rowKey && Repeated(r, a.partitionKey, rk)
  {
    Store.GetAfterAdd(h.store, a.(rowKey := RowKey(clock.now(h.clones), clock.guid(h.clones))));
  }
}
