/** Job composition: the tasks `CreateEncodingJob` adds to a remote job for one
    ingested asset, in both copies of `MediaServicesAPI`, and the thumbnail
    job. A job is a list of task descriptions; a task's input is either the
    ingested asset or the last output asset of an earlier task of the job,
    named by its position. */
module Composition {
  import opened Wrappers
  import opened Text
  import opened Runtime
  import opened Remote

  datatype TaskInput = SourceAsset | OutputOf(task: nat)

  datatype TaskSpec = TaskSpec(
    name: string,
    processor: string,
    configuration: string,
    input: TaskInput,
    output: string,
    outputProtection: Protection)

  datatype JobSpec = JobSpec(name: string, tasks: seq<TaskSpec>)

  /** What the media context and the configuration answer: the names of the
      media processors the account offers, the preset files named in the
      application settings (already read), and the PlayReady configuration.
      `presetFiles` maps a setting's name to the text of the file its value
      names; a setting that is missing or has an empty value has no entry. */
  datatype Catalog = Catalog(processors: set<string>, presetFiles: map<string, string>, playReadyConfig: string)

  /** `GetMediaProcessor`: LINQ `First` over the processors with that name. */
  function Processor(cat: Catalog, name: string): (r: Result<string>)
    ensures r.Ok? <==> name in cat.processors
    ensures r.Ok? ==> r.value == name
  {
    if name in cat.processors then Ok(name) else Err(NoElements)
  }

  // ---------------------------------------------------------------------------
  // Key assignment
  // ---------------------------------------------------------------------------

  /** The encoder entries are `(record key, preset)` pairs in the dictionary's
      order; a record key is `"{title};{rowKey}"`. */
  type Entry = (string, string)

  /** A key belongs to an asset when the asset name starts with the key's text
      before its first ';' (the ingested asset is named after the file, plus a
      suffix). */
  predicate IsAssigned(assetName: string, key: string) {
    StartsWith(assetName, Before(key, ';'))
  }

  /** Every key has the ';' that `Substring(0, IndexOf(';'))` needs. */
  predicate AllKeyed(entries: seq<Entry>) {
    forall j :: 0 <= j < |entries| ==> ';' in entries[j].0
  }

  /** The entries assigned to the asset, in dictionary order. */
  function Assigned(assetName: string, entries: seq<Entry>): (r: seq<Entry>)
    ensures |r| <= |entries|
    ensures forall e :: e in r <==> e in entries && IsAssigned(assetName, e.0)
  {
    if |entries| == 0 then []
    else if IsAssigned(assetName, entries[0].0) then [entries[0]] + Assigned(assetName, entries[1..])
    else Assigned(assetName, entries[1..])
  }

  /** The preset text of an entry: the text of the preset file named by a
      non-empty application setting of that name (even when the file is
      empty), otherwise the entry's own text. */
  function Configuration(cat: Catalog, preset: string): string {
    if preset in cat.presetFiles then cat.presetFiles[preset] else preset
  }

  /** The encode task of one assigned entry: named after the key, reading the
      ingested asset, writing `key + "_OutputAsset"` with the job's protection. */
  function EncodeTask(e: Entry, encoder: string, p: Protection, cat: Catalog): TaskSpec {
    TaskSpec(e.0, encoder, Configuration(cat, e.1), SourceAsset, e.0 + "_OutputAsset", p)
  }

  /** The processor of the task a protection mode chains after the encode task:
      PlayReady encryption for envelope protection, decryption for storage
      encryption, nothing for the other two. */
  function ExtraProcessor(p: Protection): (r: Option<string>)
    ensures r.Some? <==> p == EnvelopeEncryptionProtected || p == StorageEncrypted
  {
    match p
    case EnvelopeEncryptionProtected => Some(EncryptorProcessor)
    case StorageEncrypted => Some(DecryptionProcessor)
    case _ => None
  }

  /** `AddPlayReadyProtectionTask` / `AddStorageDecryptionTask`: a task named
      after the asset that reads the last output of task `from` and writes an
      unprotected output of the same name. */
  function ExtraTask(p: Protection, assetName: string, from: nat, cat: Catalog): TaskSpec
    requires ExtraProcessor(p).Some?
  {
    TaskSpec(assetName, ExtraProcessor(p).value,
             if p == EnvelopeEncryptionProtected then cat.playReadyConfig else "",
             OutputOf(from), assetName, Unencrypted)
  }

  // ---------------------------------------------------------------------------
  // The two composers share the walk over the keys; they differ in the block
  // of tasks one assigned key produces.
  // ---------------------------------------------------------------------------

  /** `legacy` selects the composer of the older web role. */
  function Width(legacy: bool, p: Protection): nat {
    (if ExtraProcessor(p).Some? then 2 else 1) + (if legacy then 1 else 0)
  }

  /** The position of the first task of the `i`-th assigned key. */
  function Slot(legacy: bool, p: Protection, i: nat): (n: nat)
    ensures n >= i
  {
    var w := Width(legacy, p);
    if w == 1 then i else if w == 2 then 2 * i else 3 * i
  }

  const ThumbnailConfig := "Thumbnails"

  /** The older composer's `AddThumbnailTask`: a thumbnail of the output of task
      `from`, named `assetName + "_Thumbnail"`. */
  function LegacyThumbnailTask(assetName: string, from: nat): TaskSpec {
    TaskSpec(assetName + "_Thumbnail", EncoderProcessor, ThumbnailConfig, OutputOf(from), assetName + "_Thumbnail", Unencrypted)
  }

  /** Whether one assigned key can be composed without an exception. */
  predicate BlockPossible(legacy: bool, p: Protection, cat: Catalog) {
    (ExtraProcessor(p).Some? ==> ExtraProcessor(p).value in cat.processors) &&
    (legacy ==> p != CommonEncryptionProtected && EncoderProcessor in cat.processors)
  }

  /** The exception of a block that cannot be composed: the thumbnail step of
      the older composer looks its processor up before it dereferences the
      null chained task, so only a present encoder lets the null through. */
  function BlockError(legacy: bool, p: Protection, cat: Catalog): string {
    if legacy && p == CommonEncryptionProtected && EncoderProcessor in cat.processors then NullReference else NoElements
  }

  /** The tasks of one assigned key, the first at position `base`. In the
      older composer common encryption leaves the chained task null, and the
      thumbnail step dereferences it once its processor is found. */
  function Block(legacy: bool, assetName: string, e: Entry, encoder: string, p: Protection, cat: Catalog, base: nat): (r: Result<seq<TaskSpec>>)
    ensures r.Ok? <==> BlockPossible(legacy, p, cat)
    ensures r.Ok? ==> |r.value| == Width(legacy, p)
    ensures r.Err? ==> r.msg == BlockError(legacy, p, cat)
  {
    var encode := EncodeTask(e, encoder, p, cat);
    var chained: Result<seq<TaskSpec>> :=
      match ExtraProcessor(p)
      case None => Ok([encode])
      case Some(name) =>
        if name !in cat.processors then Err(NoElements)
        else Ok([encode, ExtraTask(p, assetName, base, cat)]);
    if chained.Err? then chained
    else if !legacy then chained
    else if EncoderProcessor !in cat.processors then Err(NoElements)
    else if p == CommonEncryptionProtected then Err(NullReference)
    else Ok(chained.value + [LegacyThumbnailTask(assetName, base + |chained.value| - 1)])
  }

  /** A block starts with the key's encode task, has the protection's extra
      task reading it second, and in the older composer ends with a thumbnail
      of the output before it. */
  lemma BlockContents(legacy: bool, assetName: string, e: Entry, encoder: string, p: Protection, cat: Catalog, base: nat)
    requires BlockPossible(legacy, p, cat)
    ensures var r := Block(legacy, assetName, e, encoder, p, cat, base).value;
      r[0] == EncodeTask(e, encoder, p, cat) &&
      (ExtraProcessor(p).Some? ==> r[1] == ExtraTask(p, assetName, base, cat)) &&
      (legacy ==> r[|r| - 1] == LegacyThumbnailTask(assetName, base + |r| - 2))
  {
  }

  predicate HasAssigned(assetName: string, entries: seq<Entry>) {
    exists j :: 0 <= j < |entries| && IsAssigned(assetName, entries[j].0)
  }

  /** The `foreach` over the filtered keys. The filter runs lazily, so a key
      without ';' throws when it is reached, after the blocks of the keys
      before it. */
  function KeyTasks(legacy: bool, assetName: string, entries: seq<Entry>, encoder: string, p: Protection, cat: Catalog, base: nat): (r: Result<seq<TaskSpec>>)
    ensures r.Ok? <==> AllKeyed(entries) && (HasAssigned(assetName, entries) ==> BlockPossible(legacy, p, cat))
    ensures r.Ok? ==> |r.value| == Slot(legacy, p, |Assigned(assetName, entries)|)
    decreases |entries|
  {
    if |entries| == 0 then Ok([])
    else
      var e := entries[0];
      if ';' !in e.0 then Err(NegativeLength)
      else if !IsAssigned(assetName, e.0) then
        TailFacts(assetName, entries);
        KeyTasks(legacy, assetName, entries[1..], encoder, p, cat, base)
      else
        TailFacts(assetName, entries);
        var block :- Block(legacy, assetName, e, encoder, p, cat, base);
        var rest :- KeyTasks(legacy, assetName, entries[1..], encoder, p, cat, base + |block|);
        SlotStep(legacy, p, |Assigned(assetName, entries[1..])|);
        Ok(block + rest)
  }

  /** How the walk's conditions relate to those of the remaining keys. */
  lemma TailFacts(assetName: string, entries: seq<Entry>)
    requires |entries| > 0
    ensures AllKeyed(entries) <==> ';' in entries[0].0 && AllKeyed(entries[1..])
    ensures HasAssigned(assetName, entries) <==> IsAssigned(assetName, entries[0].0) || HasAssigned(assetName, entries[1..])
  {
    if HasAssigned(assetName, entries) && !IsAssigned(assetName, entries[0].0) {
      var j :| 0 <= j < |entries| && IsAssigned(assetName, entries[j].0);
      assert entries[1..][j - 1] == entries[j];
    }
    if HasAssigned(assetName, entries[1..]) {
      var j :| 0 <= j < |entries[1..]| && IsAssigned(assetName, entries[1..][j].0);
      assert entries[j + 1] == entries[1..][j];
    }
    if ';' in entries[0].0 && AllKeyed(entries[1..]) {
      forall j | 0 < j < |entries| ensures ';' in entries[j].0 {
        assert entries[1..][j - 1] == entries[j];
      }
    }
  }

  /** When every key is well formed and some key is assigned, a walk whose
      blocks cannot be composed fails with the block's exception, whatever
      keys come before the first assigned one. */
  lemma {:induction false} KeyTasksError(legacy: bool, assetName: string, entries: seq<Entry>, encoder: string, p: Protection, cat: Catalog, base: nat)
    ensures AllKeyed(entries) && HasAssigned(assetName, entries) && !BlockPossible(legacy, p, cat) ==>
      KeyTasks(legacy, assetName, entries, encoder, p, cat, base) == Err(BlockError(legacy, p, cat))
    decreases |entries|
  {
    if |entries| > 0 && AllKeyed(entries) && HasAssigned(assetName, entries) && !BlockPossible(legacy, p, cat) {
      TailFacts(assetName, entries);
      if !IsAssigned(assetName, entries[0].0) {
        KeyTasksError(legacy, assetName, entries[1..], encoder, p, cat, base);
      }
    }
  }

  lemma SlotStep(legacy: bool, p: Protection, i: nat)
    ensures Slot(legacy, p, i + 1) == Slot(legacy, p, i) + Width(legacy, p)
  {
  }

  lemma SlotMonotone(legacy: bool, p: Protection, i: nat, j: nat)
    requires i <= j
    ensures Slot(legacy, p, i) <= Slot(legacy, p, j)
  {
  }

  /** The tasks of the assigned keys when none of them fails: the blocks one
      after another. */
  function Blocks(legacy: bool, assetName: string, a: seq<Entry>, encoder: string, p: Protection, cat: Catalog, base: nat): (r: seq<TaskSpec>)
    requires BlockPossible(legacy, p, cat)
    ensures |r| == Slot(legacy, p, |a|)
    decreases |a|
  {
    if |a| == 0 then []
    else
      SlotStep(legacy, p, |a| - 1);
      Block(legacy, assetName, a[0], encoder, p, cat, base).value + Blocks(legacy, assetName, a[1..], encoder, p, cat, base + Width(legacy, p))
  }

  lemma BlocksCons(legacy: bool, assetName: string, e: Entry, a: seq<Entry>, encoder: string, p: Protection, cat: Catalog, base: nat)
    requires BlockPossible(legacy, p, cat)
    ensures Blocks(legacy, assetName, [e] + a, encoder, p, cat, base) ==
      Block(legacy, assetName, e, encoder, p, cat, base).value + Blocks(legacy, assetName, a, encoder, p, cat, base + Width(legacy, p))
  {
    assert ([e] + a)[0] == e && ([e] + a)[1..] == a;
  }

  /** A walk that succeeds composes exactly the blocks of the assigned keys. */
  lemma {:induction false} KeyTasksAreBlocks(legacy: bool, assetName: string, entries: seq<Entry>, encoder: string, p: Protection, cat: Catalog, base: nat)
    requires KeyTasks(legacy, assetName, entries, encoder, p, cat, base).Ok?
    requires BlockPossible(legacy, p, cat)
    ensures KeyTasks(legacy, assetName, entries, encoder, p, cat, base).value == Blocks(legacy, assetName, Assigned(assetName, entries), encoder, p, cat, base)
    decreases |entries|
  {
    if |entries| > 0 {
      TailFacts(assetName, entries);
      var w := Width(legacy, p);
      var a := Assigned(assetName, entries);
      var a' := Assigned(assetName, entries[1..]);
      if IsAssigned(assetName, entries[0].0) {
        var block := Block(legacy, assetName, entries[0], encoder, p, cat, base);
        var rest := KeyTasks(legacy, assetName, entries[1..], encoder, p, cat, base + w);
        assert block.Ok? && |block.value| == w;
        assert rest.Ok?;
        assert KeyTasks(legacy, assetName, entries, encoder, p, cat, base).value == block.value + rest.value;
        KeyTasksAreBlocks(legacy, assetName, entries[1..], encoder, p, cat, base + w);
        assert a == [entries[0]] + a';
        BlocksCons(legacy, assetName, entries[0], a', encoder, p, cat, base);
      } else {
        assert KeyTasks(legacy, assetName, entries, encoder, p, cat, base) == KeyTasks(legacy, assetName, entries[1..], encoder, p, cat, base);
        assert a == a';
        KeyTasksAreBlocks(legacy, assetName, entries[1..], encoder, p, cat, base);
      }
    }
  }

  /** The tasks of the `i`-th key of `a` sit at its slot of the blocks
      composed from `base`, as its block composes them from that position. */
  predicate BlockSitsAt(legacy: bool, assetName: string, a: seq<Entry>, encoder: string, p: Protection, cat: Catalog, base: nat, i: nat)
    requires BlockPossible(legacy, p, cat)
    requires i < |a|
  {
    Slot(legacy, p, i) + Width(legacy, p) <= Slot(legacy, p, |a|) &&
    Blocks(legacy, assetName, a, encoder, p, cat, base)[Slot(legacy, p, i)..Slot(legacy, p, i) + Width(legacy, p)]
      == Block(legacy, assetName, a[i], encoder, p, cat, base + Slot(legacy, p, i)).value
  }

  /** Every assigned key's tasks sit at its slot. */
  lemma {:induction false} BlocksAt(legacy: bool, assetName: string, a: seq<Entry>, encoder: string, p: Protection, cat: Catalog, base: nat, i: nat)
    requires BlockPossible(legacy, p, cat)
    requires i < |a|
    ensures BlockSitsAt(legacy, assetName, a, encoder, p, cat, base, i)
    decreases |a|
  {
    if i == 0 {
      BlocksAtHead(legacy, assetName, a, encoder, p, cat, base, i);
    } else {
      BlocksAt(legacy, assetName, a[1..], encoder, p, cat, base + Width(legacy, p), i - 1);
      BlocksAtStep(legacy, assetName, a, encoder, p, cat, base, i);
    }
  }

  /** The first key of `BlocksAt`: its block opens the sequence. */
  lemma BlocksAtHead(legacy: bool, assetName: string, a: seq<Entry>, encoder: string, p: Protection, cat: Catalog, base: nat, i: nat)
    requires BlockPossible(legacy, p, cat)
    requires i == 0 < |a|
    ensures BlockSitsAt(legacy, assetName, a, encoder, p, cat, base, i)
  {
    SlotStep(legacy, p, i);
    SlotMonotone(legacy, p, i + 1, |a|);
    BlocksUnfold(legacy, assetName, a, encoder, p, cat, base);
    var head := Block(legacy, assetName, a[0], encoder, p, cat, base).value;
    var rest := Blocks(legacy, assetName, a[1..], encoder, p, cat, base + Width(legacy, p));
    assert (head + rest)[..|head|] == head;
  }

  /** The step of `BlocksAt`: the slot of key `i` lies one block past the slot
      of key `i - 1` of the tail. */
  lemma BlocksAtStep(legacy: bool, assetName: string, a: seq<Entry>, encoder: string, p: Protection, cat: Catalog, base: nat, i: nat)
    requires BlockPossible(legacy, p, cat)
    requires 0 < i < |a|
    requires BlockSitsAt(legacy, assetName, a[1..], encoder, p, cat, base + Width(legacy, p), i - 1)
    ensures BlockSitsAt(legacy, assetName, a, encoder, p, cat, base, i)
  {
    SlotStep(legacy, p, i - 1);
    SlotMonotone(legacy, p, i + 1, |a|);
    assert a[1..][i - 1] == a[i];
    BlocksShift(legacy, assetName, a, encoder, p, cat, base, i);
  }

  /** Past the first block, the blocks of `a` are those of its tail. */
  lemma BlocksShift(legacy: bool, assetName: string, a: seq<Entry>, encoder: string, p: Protection, cat: Catalog, base: nat, i: nat)
    requires BlockPossible(legacy, p, cat)
    requires 0 < i < |a|
    requires Slot(legacy, p, i - 1) + Width(legacy, p) <= Slot(legacy, p, |a| - 1)
    ensures Slot(legacy, p, i) == Slot(legacy, p, i - 1) + Width(legacy, p)
    ensures Blocks(legacy, assetName, a, encoder, p, cat, base)[Slot(legacy, p, i)..Slot(legacy, p, i) + Width(legacy, p)]
      == Blocks(legacy, assetName, a[1..], encoder, p, cat, base + Width(legacy, p))[Slot(legacy, p, i - 1)..Slot(legacy, p, i - 1) + Width(legacy, p)]
  {
    SlotStep(legacy, p, i - 1);
    BlocksUnfold(legacy, assetName, a, encoder, p, cat, base);
    var w := Width(legacy, p);
    var s := Slot(legacy, p, i - 1);
    var head := Block(legacy, assetName, a[0], encoder, p, cat, base).value;
    var rest := Blocks(legacy, assetName, a[1..], encoder, p, cat, base + w);
    assert |head| == w;
    assert |rest| == Slot(legacy, p, |a| - 1);
    SliceShift(Blocks(legacy, assetName, a, encoder, p, cat, base), head, rest, s, w, rest[s..s + w]);
  }

  lemma SliceShift<T>(x: seq<T>, head: seq<T>, rest: seq<T>, s: nat, w: nat, v: seq<T>)
    requires x == head + rest && s + w <= |rest| && rest[s..s + w] == v
    ensures x[|head| + s..|head| + s + w] == v
  {
    assert x[|head| + s..|head| + s + w] == rest[s..s + w];
  }

  lemma BlocksUnfold(legacy: bool, assetName: string, a: seq<Entry>, encoder: string, p: Protection, cat: Catalog, base: nat)
    requires BlockPossible(legacy, p, cat)
    requires |a| > 0
    ensures Blocks(legacy, assetName, a, encoder, p, cat, base) ==
      Block(legacy, assetName, a[0], encoder, p, cat, base).value + Blocks(legacy, assetName, a[1..], encoder, p, cat, base + Width(legacy, p))
  {
  }

  lemma SliceAfterPrefix<T>(x: seq<T>, y: seq<T>, s: nat, w: nat)
    requires s + w <= |y|
    ensures (x + y)[|x| + s..|x| + s + w] == y[s..s + w]
  {
  }

  // ---------------------------------------------------------------------------
  // The composers
  // ---------------------------------------------------------------------------

  lemma AssignedNonEmpty(assetName: string, entries: seq<Entry>)
    ensures HasAssigned(assetName, entries) <==> |Assigned(assetName, entries)| > 0
  {
    if HasAssigned(assetName, entries) {
      var j :| 0 <= j < |entries| && IsAssigned(assetName, entries[j].0);
      assert entries[j] in Assigned(assetName, entries);
    }
    if |Assigned(assetName, entries)| > 0 {
      var e := Assigned(assetName, entries)[0];
      assert e in Assigned(assetName, entries);
      var j :| 0 <= j < |entries| && entries[j] == e;
    }
  }

  const NoTasks := "No tasks were created. Exiting..."

  /** `CreateThumbnailTask`: a thumbnail of the ingested asset itself, named
      after the given task with ";Thumbnails" appended. */
  function ThumbnailTask(taskName: string): (t: TaskSpec)
    ensures t.name == taskName + ";Thumbnails" && t.output == t.name && ';' in t.name
    ensures t.input == SourceAsset && t.processor == EncoderProcessor && t.configuration == ThumbnailConfig
    ensures t.outputProtection == Unencrypted
  {
    assert (taskName + ";Thumbnails")[|taskName|] == ';';
    TaskSpec(taskName + ";" + ThumbnailConfig, EncoderProcessor, ThumbnailConfig, SourceAsset, taskName + ";" + ThumbnailConfig, Unencrypted)
  }

  /** `CreateEncodingJob` of the media library: a job named after the asset
      with the blocks of the assigned keys, then one thumbnail task named after
      the first task. It fails when a processor is missing, when a key has no
      ';', and when no key is assigned to the asset. */
  function CreateEncodingJob(assetName: string, entries: seq<Entry>, encoder: string, p: Protection, cat: Catalog): (r: Result<JobSpec>)
    ensures r.Ok? <==> (encoder in cat.processors && AllKeyed(entries) && HasAssigned(assetName, entries) &&
                        BlockPossible(false, p, cat) && EncoderProcessor in cat.processors)
    ensures r.Ok? ==> (r.value.name == assetName &&
                       |r.value.tasks| == Slot(false, p, |Assigned(assetName, entries)|) + 1 &&
                       |Assigned(assetName, entries)| > 0 &&
                       r.value.tasks[|r.value.tasks| - 1] == ThumbnailTask(Assigned(assetName, entries)[0].0))
    ensures r.Ok? ==> (KeyTasks(false, assetName, entries, encoder, p, cat, 0).Ok? &&
                       r.value.tasks[..|r.value.tasks| - 1] == KeyTasks(false, assetName, entries, encoder, p, cat, 0).value)
  {
    AssignedNonEmpty(assetName, entries);
    var _ :- Processor(cat, encoder);
    var tasks :- KeyTasks(false, assetName, entries, encoder, p, cat, 0);
    if |tasks| == 0 then Err(NoTasks)
    else
      var _ :- Processor(cat, EncoderProcessor);
      KeyTasksAreBlocks(false, assetName, entries, encoder, p, cat, 0);
      BlocksAt(false, assetName, Assigned(assetName, entries), encoder, p, cat, 0, 0);
      Ok(JobSpec(assetName, tasks + [ThumbnailTask(tasks[0].name)]))
  }

  /** `CreateEncodingJob` of the older web role: a job named after the asset
      whose every assigned key gets its encode task, the protection's extra
      task, and a thumbnail of the last of them. Without assigned keys the job
      has no tasks; common encryption fails on the null chained task. */
  function LegacyCreateEncodingJob(assetName: string, entries: seq<Entry>, encoder: string, p: Protection, cat: Catalog): (r: Result<JobSpec>)
    ensures r.Ok? <==> (encoder in cat.processors && AllKeyed(entries) &&
                        (HasAssigned(assetName, entries) ==> BlockPossible(true, p, cat)))
    ensures r.Ok? ==> (r.value.name == assetName &&
                       r.value.tasks == KeyTasks(true, assetName, entries, encoder, p, cat, 0).value &&
                       |r.value.tasks| == Slot(true, p, |Assigned(assetName, entries)|))
    ensures encoder in cat.processors && AllKeyed(entries) && HasAssigned(assetName, entries) && p == CommonEncryptionProtected ==>
      r == Err(if EncoderProcessor in cat.processors then NullReference else NoElements)
  {
    var _ :- Processor(cat, encoder);
    KeyTasksError(true, assetName, entries, encoder, p, cat, 0);
    var tasks :- KeyTasks(true, assetName, entries, encoder, p, cat, 0);
    Ok(JobSpec(assetName, tasks))
  }

  /** Every assigned key has its encode task at its slot, followed by the
      protection's extra task reading it; the older composer closes each block
      with a thumbnail of the block's last output. */
  lemma KeyTasksAt(legacy: bool, assetName: string, entries: seq<Entry>, encoder: string, p: Protection, cat: Catalog, i: nat)
    requires KeyTasks(legacy, assetName, entries, encoder, p, cat, 0).Ok?
    requires i < |Assigned(assetName, entries)|
    ensures Slot(legacy, p, i) + Width(legacy, p) <= |KeyTasks(legacy, assetName, entries, encoder, p, cat, 0).value|
    ensures KeyTasks(legacy, assetName, entries, encoder, p, cat, 0).value[Slot(legacy, p, i)] ==
      EncodeTask(Assigned(assetName, entries)[i], encoder, p, cat)
    ensures ExtraProcessor(p).Some? ==>
      KeyTasks(legacy, assetName, entries, encoder, p, cat, 0).value[Slot(legacy, p, i) + 1] ==
      ExtraTask(p, assetName, Slot(legacy, p, i), cat)
    ensures legacy ==>
      KeyTasks(legacy, assetName, entries, encoder, p, cat, 0).value[Slot(legacy, p, i) + Width(legacy, p) - 1] ==
      LegacyThumbnailTask(assetName, Slot(legacy, p, i) + Width(legacy, p) - 2)
  {
    var a := Assigned(assetName, entries);
    AssignedNonEmpty(assetName, entries);
    assert HasAssigned(assetName, entries);
    KeyTasksAreBlocks(legacy, assetName, entries, encoder, p, cat, 0);
    BlocksElements(legacy, assetName, a, encoder, p, cat, i);
  }

  /** `BlocksAt` element by element, for a job starting at position 0. */
  lemma BlocksElements(legacy: bool, assetName: string, a: seq<Entry>, encoder: string, p: Protection, cat: Catalog, i: nat)
    requires BlockPossible(legacy, p, cat)
    requires i < |a|
    ensures Slot(legacy, p, i) + Width(legacy, p) <= |Blocks(legacy, assetName, a, encoder, p, cat, 0)|
    ensures Blocks(legacy, assetName, a, encoder, p, cat, 0)[Slot(legacy, p, i)] == EncodeTask(a[i], encoder, p, cat)
    ensures ExtraProcessor(p).Some? ==>
      Blocks(legacy, assetName, a, encoder, p, cat, 0)[Slot(legacy, p, i) + 1] == ExtraTask(p, assetName, Slot(legacy, p, i), cat)
    ensures legacy ==>
      Blocks(legacy, assetName, a, encoder, p, cat, 0)[Slot(legacy, p, i) + Width(legacy, p) - 1] ==
      LegacyThumbnailTask(assetName, Slot(legacy, p, i) + Width(legacy, p) - 2)
  {
    var k := Slot(legacy, p, i);
    var s := Blocks(legacy, assetName, a, encoder, p, cat, 0);
    var block := Block(legacy, assetName, a[i], encoder, p, cat, k).value;
    BlocksAt(legacy, assetName, a, encoder, p, cat, 0, i);
    BlockContents(legacy, assetName, a[i], encoder, p, cat, k);
    SliceAt(s, block, k, 0);
    if ExtraProcessor(p).Some? {
      SliceAt(s, block, k, 1);
    }
    if legacy {
      SliceAt(s, block, k, |block| - 1);
    }
  }

  lemma SliceAt<T>(s: seq<T>, part: seq<T>, k: nat, o: nat)
    requires k + |part| <= |s| && s[k..k + |part|] == part
    requires o < |part|
    ensures s[k + o] == part[o]
  {
    assert s[k..k + |part|][o] == s[k + o];
  }

  /** The media library's job: the encode task of each assigned key is at
      its slot. */
  lemma EncodingJobTasksAt(assetName: string, entries: seq<Entry>, encoder: string, p: Protection, cat: Catalog, i: nat)
    requires CreateEncodingJob(assetName, entries, encoder, p, cat).Ok?
    requires i < |Assigned(assetName, entries)|
    ensures Slot(false, p, i) + Width(false, p) < |CreateEncodingJob(assetName, entries, encoder, p, cat).value.tasks|
    ensures CreateEncodingJob(assetName, entries, encoder, p, cat).value.tasks[Slot(false, p, i)] ==
      EncodeTask(Assigned(assetName, entries)[i], encoder, p, cat)
  {
    KeyTasksAt(false, assetName, entries, encoder, p, cat, i);
    PrefixElement(CreateEncodingJob(assetName, entries, encoder, p, cat).value.tasks,
                  KeyTasks(false, assetName, entries, encoder, p, cat, 0).value, Slot(false, p, i));
  }

  /** The media library's job: with envelope or storage protection, the
      extra task comes right after each assigned key's encode task. */
  lemma EncodingJobExtraTaskAt(assetName: string, entries: seq<Entry>, encoder: string, p: Protection, cat: Catalog, i: nat)
    requires CreateEncodingJob(assetName, entries, encoder, p, cat).Ok?
    requires i < |Assigned(assetName, entries)|
    requires ExtraProcessor(p).Some?
    ensures Slot(false, p, i) + 1 < |CreateEncodingJob(assetName, entries, encoder, p, cat).value.tasks|
    ensures CreateEncodingJob(assetName, entries, encoder, p, cat).value.tasks[Slot(false, p, i) + 1] ==
      ExtraTask(p, assetName, Slot(false, p, i), cat)
  {
    KeyTasksAt(false, assetName, entries, encoder, p, cat, i);
    PrefixElement(CreateEncodingJob(assetName, entries, encoder, p, cat).value.tasks,
                  KeyTasks(false, assetName, entries, encoder, p, cat, 0).value, Slot(false, p, i) + 1);
  }

  lemma PrefixElement<T>(s: seq<T>, prefix: seq<T>, k: nat)
    requires 0 < |s| && s[..|s| - 1] == prefix && k < |prefix|
    ensures k < |s| && s[k] == prefix[k]
  {
    assert s[..|s| - 1][k] == s[k];
  }

  /** `CreateThumbnailJob`: a job and its one task both named
      `assetName + ";Thumbnails"`, reading the asset itself. */
  function CreateThumbnailJob(assetName: string, cat: Catalog): (r: Result<JobSpec>)
    ensures r.Ok? <==> EncoderProcessor in cat.processors
    ensures r.Ok? ==> r.value.name == assetName + ";" + ThumbnailConfig && |r.value.tasks| == 1
    ensures r.Ok? ==> r.value.tasks[0].input == SourceAsset && r.value.tasks[0].name == r.value.name
  {
    var proc :- Processor(cat, EncoderProcessor);
    var name := assetName + ";" + ThumbnailConfig;
    Ok(JobSpec(name, [TaskSpec(name, proc, ThumbnailConfig, SourceAsset, name, Unencrypted)]))
  }

  /** The stand-alone thumbnail job runs exactly the task that
      `CreateThumbnailTask` adds for a task named after the asset. */
  lemma ThumbnailJobIsThumbnailTask(assetName: string, cat: Catalog)
    requires EncoderProcessor in cat.processors
    ensures CreateThumbnailJob(assetName, cat).value.tasks == [ThumbnailTask(assetName)]
  {
  }

  // ---------------------------------------------------------------------------
  // Chaining
  // ---------------------------------------------------------------------------

  /** Every task that reads an output reads the one of the task right before it
      (`tasks` sits at position `base` of the job). */
  predicate ChainedFrom(tasks: seq<TaskSpec>, base: nat) {
    forall k :: 0 <= k < |tasks| && tasks[k].input.OutputOf? ==> tasks[k].input.task + 1 == base + k
  }

  lemma BlockChained(legacy: bool, assetName: string, e: Entry, encoder: string, p: Protection, cat: Catalog, base: nat)
    requires BlockPossible(legacy, p, cat)
    ensures ChainedFrom(Block(legacy, assetName, e, encoder, p, cat, base).value, base)
  {
  }

  lemma {:induction false} BlocksChained(legacy: bool, assetName: string, a: seq<Entry>, encoder: string, p: Protection, cat: Catalog, base: nat)
    requires BlockPossible(legacy, p, cat)
    ensures ChainedFrom(Blocks(legacy, assetName, a, encoder, p, cat, base), base)
    decreases |a|
  {
    if |a| > 0 {
      var w := Width(legacy, p);
      var block := Block(legacy, assetName, a[0], encoder, p, cat, base).value;
      var rest := Blocks(legacy, assetName, a[1..], encoder, p, cat, base + w);
      BlockChained(legacy, assetName, a[0], encoder, p, cat, base);
      BlocksChained(legacy, assetName, a[1..], encoder, p, cat, base + w);
      var all := Blocks(legacy, assetName, a, encoder, p, cat, base);
      assert all == block + rest;
      forall k | 0 <= k < |all| && all[k].input.OutputOf? ensures all[k].input.task + 1 == base + k {
        if k >= w { assert all[k] == rest[k - w]; } else { assert all[k] == block[k]; }
      }
    }
  }

  /** In both composers no task reads anything but the asset or the output of
      the task just before it, so a job never refers forward or to itself. */
  lemma JobChained(legacy: bool, assetName: string, entries: seq<Entry>, encoder: string, p: Protection, cat: Catalog)
    requires if legacy then LegacyCreateEncodingJob(assetName, entries, encoder, p, cat).Ok?
             else CreateEncodingJob(assetName, entries, encoder, p, cat).Ok?
    ensures var tasks := if legacy then LegacyCreateEncodingJob(assetName, entries, encoder, p, cat).value.tasks
                         else CreateEncodingJob(assetName, entries, encoder, p, cat).value.tasks;
      ChainedFrom(tasks, 0)
  {
    AssignedNonEmpty(assetName, entries);
    if HasAssigned(assetName, entries) {
      KeyTasksAreBlocks(legacy, assetName, entries, encoder, p, cat, 0);
      BlocksChained(legacy, assetName, Assigned(assetName, entries), encoder, p, cat, 0);
    }
  }
}
