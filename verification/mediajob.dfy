/** `MediaJob` of the media library: one uploaded file on its way through
    ingest, encoding and publication. The SDK objects it holds are reduced to
    what the orchestrator reads back: the ingested asset's name, the composed
    jobs, and the completion flag set by the job's progress task. */
module MediaJob {
  import opened Wrappers
  import opened Runtime
  import Remote
  import opened Uploads
  import Composition
  import Publication

  /** `MediaStates`, shared by the controller and its jobs. */
  datatype MediaState = Initialized | Ready | Created | Started | Ingesting | Ingested | Queued | InProcess | Processed | Canceled

  /** A `MediaJob`; `assetName` is the name of the ingested `Asset` (null
      before the ingest callback). */
  datatype Job = Job(
    file: FileUploadModel,
    state: MediaState,
    assetName: Option<string>,
    job: Option<Composition.JobSpec>,
    thumbnailJob: Option<Composition.JobSpec>,
    isCompleted: bool)

  /** The constructor: nothing ingested, no job, not completed; the state is
      the enum's default. */
  function NewJob(file: FileUploadModel): (j: Job)
    ensures j.file == file && j.state == Initialized
    ensures j.assetName.None? && j.job.None? && j.thumbnailJob.None? && !j.isCompleted
  {
    Job(file, Initialized, None, None, None, false)
  }

  /** `UpdateMediaState`: the per-job state a remote job state leads to. A
      job that is processing keeps whatever state it had. */
  function UpdateMediaState(current: MediaState, s: Remote.JobState): (r: MediaState)
    ensures s == Remote.Canceled || s == Remote.Canceling || s == Remote.Error ==> r == Canceled
    ensures s == Remote.Finished ==> r == Processed
    ensures s == Remote.Queued || s == Remote.Scheduled ==> r == Queued
    ensures s == Remote.Processing ==> r == current
  {
    match s
    case Canceled => Canceled
    case Canceling => Canceled
    case Error => Canceled
    case Finished => Processed
    case Queued => Queued
    case Scheduled => Queued
    case Processing => current
  }

  /** Only processing depends on the job's history: every other remote state
      leads to one of three states whatever the job's state was. */
  lemma UpdateIgnoresHistory(c: MediaState, d: MediaState, s: Remote.JobState)
    requires s != Remote.Processing
    ensures UpdateMediaState(c, s) == UpdateMediaState(d, s)
    ensures UpdateMediaState(c, s) in {Canceled, Processed, Queued}
  {
  }

  /** Reporting the same remote state twice changes nothing the second time. */
  lemma UpdateIdempotent(c: MediaState, s: Remote.JobState)
    ensures UpdateMediaState(UpdateMediaState(c, s), s) == UpdateMediaState(c, s)
  {
  }

  /** The ingest-complete callback: the asset is stored, the job is Ingested,
      and the `AssetChanged` event carries Ingested. */
  function AssetIngested(j: Job, assetName: string): (r: (Job, MediaState))
    ensures r.0 == j.(assetName := Some(assetName), state := Ingested)
    ensures r.1 == Ingested && r.1 == r.0.state
  {
    var j' := j.(assetName := Some(assetName), state := Ingested);
    (j', j'.state)
  }

  /** `JobStateChanged`: the mapped state is stored and `JobChanged` carries
      exactly the stored state; nothing else about the job changes. */
  function JobStateChanged(j: Job, s: Remote.JobState): (r: (Job, MediaState))
    ensures r.1 == r.0.state
    ensures r.0 == j.(state := r.1)
    ensures s != Remote.Processing ==> r.1 == UpdateMediaState(Initialized, s)
    ensures s == Remote.Processing ==> r.0 == j
  {
    var j' := j.(state := UpdateMediaState(j.state, s));
    (j', j'.state)
  }

  /** The continuation of the job's progress task (`StartJob`): the job is
      completed whatever its outcome. */
  function JobTaskDone(j: Job): (r: Job)
    ensures r.isCompleted && r == j.(isCompleted := true)
  {
    j.(isCompleted := true)
  }

  /** Completion is never undone by a state change, and a completed job stays
      completed when its task finishes again. */
  lemma CompletionIsSticky(j: Job, s: Remote.JobState, name: string)
    requires j.isCompleted
    ensures JobStateChanged(j, s).0.isCompleted
    ensures AssetIngested(j, name).0.isCompleted
    ensures JobTaskDone(j) == j
  {
  }

  /** `CreateJob`: the encoding job for the ingested asset, which is also
      stored in `Job`. Without an ingested asset the name lookup throws. */
  function CreateJob(j: Job, processor: string, entries: seq<Composition.Entry>, p: Remote.Protection, cat: Composition.Catalog): (r: Result<(Job, Composition.JobSpec)>)
    ensures r.Ok? <==> j.assetName.Some? && Composition.CreateEncodingJob(j.assetName.value, entries, processor, p, cat).Ok?
    ensures r.Ok? ==> r.value.1 == Composition.CreateEncodingJob(j.assetName.value, entries, processor, p, cat).value
    ensures r.Ok? ==> r.value.0 == j.(job := Some(r.value.1))
    ensures j.assetName.None? ==> r == Err(NullReference)
  {
    if j.assetName.None? then Err(NullReference)
    else
      var spec :- Composition.CreateEncodingJob(j.assetName.value, entries, processor, p, cat);
      Ok((j.(job := Some(spec)), spec))
  }

  /** `CreateThumbnailJob`: the thumbnail job is stored in `ThumbnailJob`, but
      the method returns `Job`, the encoding job (null if none was created).
      The encoder is looked up before the asset's name is read. */
  function CreateThumbnailJob(j: Job, cat: Composition.Catalog): (r: Result<(Job, Option<Composition.JobSpec>)>)
    ensures r.Ok? <==> j.assetName.Some? && Remote.EncoderProcessor in cat.processors
    ensures r.Ok? ==> r.value.0 == j.(thumbnailJob := Some(Composition.CreateThumbnailJob(j.assetName.value, cat).value))
    ensures r.Ok? ==> r.value.1 == j.job
    ensures r.Err? ==> r.msg == (if Remote.EncoderProcessor !in cat.processors then NoElements else NullReference)
  {
    if Remote.EncoderProcessor !in cat.processors then Err(NoElements)
    else if j.assetName.None? then Err(NullReference)
    else
      var spec := Composition.CreateThumbnailJob(j.assetName.value, cat).value;
      Ok((j.(thumbnailJob := Some(spec)), j.job))
  }

  /** What `CreateThumbnailJob` returns is never the thumbnail job it made:
      the encoding job is named after the asset, the thumbnail job after the
      asset with ";Thumbnails" appended. */
  lemma ThumbnailJobNotReturned(j: Job, cat: Composition.Catalog)
    requires CreateThumbnailJob(j, cat).Ok?
    requires j.job.Some? ==> j.job.value.name == j.assetName.value
    ensures var r := CreateThumbnailJob(j, cat).value;
      r.0.thumbnailJob.Some? && r.1 != r.0.thumbnailJob
  {
    var r := CreateThumbnailJob(j, cat).value;
    assert |r.0.thumbnailJob.value.name| > |j.assetName.value|;
  }

  /** `Publish`: the read policy's duration only reaches the locators; the
      dictionary is `GetUrls` of the job's outputs, unchanged. `outputs` are
      the job's output assets and `thPath` the path of the thumbnail locator. */
  function Publish(j: Job, outputs: seq<Publication.OutputAsset>, thPath: string): (r: Result<seq<Publication.UrlEntry>>)
    ensures j.job.None? ==> r == Err(NullReference)
    ensures j.job.Some? ==> r == Publication.GetUrls(outputs, thPath)
  {
    if j.job.None? then Err(NullReference) else Publication.GetUrls(outputs, thPath)
  }
}
