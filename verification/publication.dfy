/** Output publication: how `GetUrls` turns the output assets of a finished job
    into the URLs stored in the records, in both copies of `MediaServicesAPI`;
    the locator-path rules of `BuildFileSasUrl`; and the ingest-side checks.
    Locators, file lists and blob listings are inputs. */
module Publication {
  import opened Wrappers
  import opened Text
  import opened Runtime

  // ---------------------------------------------------------------------------
  // Asset classification
  // ---------------------------------------------------------------------------

  datatype AssetType = SingleBitrate | MultiBitrate | SmoothStream

  predicate AnyContains(names: seq<string>, sub: string) {
    exists i :: 0 <= i < |names| && Contains(names[i], sub)
  }

  /** A string containing `sub + more` contains `sub`. */
  lemma {:induction false} ContainsPrefix(s: string, sub: string, more: string)
    requires Contains(s, sub + more)
    ensures Contains(s, sub)
    decreases |s|
  {
    if StartsWith(s, sub + more) {
      assert s[..|sub|] == (sub + more)[..|sub|];
    } else {
      ContainsPrefix(s[1..], sub, more);
    }
  }

  /** `GetAssetType`: Smooth Streaming when a file name contains ".ismv",
      otherwise multi-bitrate when one contains ".ism", otherwise single. */
  function AssetTypeOf(files: seq<string>): (t: AssetType)
    ensures t == SmoothStream <==> AnyContains(files, ".ismv")
    ensures t == MultiBitrate <==> !AnyContains(files, ".ismv") && AnyContains(files, ".ism")
  {
    if AnyContains(files, ".ismv") then SmoothStream
    else if AnyContains(files, ".ism") then MultiBitrate
    else SingleBitrate
  }

  /** Single bitrate means no file name mentions ".ism" at all, since every
      ".ismv" name also contains ".ism". */
  lemma SingleBitrateIffNoManifest(files: seq<string>)
    ensures AssetTypeOf(files) == SingleBitrate <==> !AnyContains(files, ".ism")
  {
    if AnyContains(files, ".ismv") {
      var i :| 0 <= i < |files| && Contains(files[i], ".ismv");
      assert ".ism" + "v" == ".ismv";
      ContainsPrefix(files[i], ".ism", "v");
    }
  }

  // ---------------------------------------------------------------------------
  // Excluded extensions
  // ---------------------------------------------------------------------------

  /** `List<string>.Remove`: drops the first occurrence, if any. */
  function RemoveFirst(list: seq<string>, x: string): (r: seq<string>)
    ensures x !in list ==> r == list
    ensures x in list ==> |r| == |list| - 1
  {
    if |list| == 0 then []
    else if list[0] == x then list[1..]
    else [list[0]] + RemoveFirst(list[1..], x)
  }

  const BaseExcluded: seq<string> := [".xml"]

  /** The list as `GetUrls` builds it for the SAS entry of each type. */
  function SasExcluded(t: AssetType): seq<string> {
    match t
    case SingleBitrate => BaseExcluded
    case MultiBitrate => BaseExcluded + [".ism"] + [".ismc"] + [".ismv"]
    case SmoothStream => BaseExcluded + [".ismc"] + [".ismv"]
  }

  /** The on-demand-origin list of the multi-bitrate case: the SAS list without
      ".ism" and with ".mp4". */
  function MultiOriginExcluded(): seq<string> {
    RemoveFirst(SasExcluded(MultiBitrate), ".ism") + [".mp4"]
  }

  /** The lists, as sets: single bitrate hides only the ".xml" metadata; the
      multi-bitrate SAS entry hides the streaming files and its origin entry
      the progressive ".mp4" files instead of the manifest; Smooth Streaming
      hides the client manifest and the fragments but keeps the manifest. */
  lemma ExcludedTable()
    ensures SasExcluded(SingleBitrate) == [".xml"]
    ensures SasExcluded(MultiBitrate) == [".xml", ".ism", ".ismc", ".ismv"]
    ensures MultiOriginExcluded() == [".xml", ".ismc", ".ismv", ".mp4"]
    ensures SasExcluded(SmoothStream) == [".xml", ".ismc", ".ismv"]
  {
    assert RemoveFirst([".xml", ".ism", ".ismc", ".ismv"], ".ism") == [".xml", ".ismc", ".ismv"] by {
      assert [".xml", ".ism", ".ismc", ".ismv"][1..] == [".ism", ".ismc", ".ismv"];
      assert [".ism", ".ismc", ".ismv"][1..] == [".ismc", ".ismv"];
    }
  }

  // ---------------------------------------------------------------------------
  // Choosing the file a URL points to
  // ---------------------------------------------------------------------------

  /** Which files may be linked: the media library skips excluded extensions,
      the older web role skips names containing "metadata". */
  datatype Filter = ByExtension(excluded: seq<string>) | WithoutMetadata

  predicate Keeps(f: Filter, name: string) {
    match f
    case ByExtension(excluded) => Extension(name) !in excluded
    case WithoutMetadata => !Contains(name, "metadata")
  }

  /** The last kept name: the loops overwrite the URL on every kept file. */
  function LastKept(names: seq<string>, f: Filter): (r: Option<nat>)
    ensures r.Some? ==> r.value < |names| && Keeps(f, names[r.value])
    ensures r.Some? ==> forall j :: r.value < j < |names| ==> !Keeps(f, names[j])
    ensures r.None? ==> forall j :: 0 <= j < |names| ==> !Keeps(f, names[j])
  {
    if |names| == 0 then None
    else if Keeps(f, names[|names| - 1]) then Some(|names| - 1)
    else LastKept(names[..|names| - 1], f)
  }

  /** The `foreach` of `CreateAssetUrl`/`CreateAssetSasUrl`, keeping the latest
      kept file; it lands on the last kept name. */
  method ScanFiles(names: seq<string>, f: Filter) returns (r: Option<nat>)
    ensures r == LastKept(names, f)
  {
    r := None;
    var i := 0;
    while i < |names|
      invariant 0 <= i <= |names|
      invariant r == LastKept(names[..i], f)
    {
      assert names[..i + 1][..i] == names[..i];
      if Keeps(f, names[i]) {
        r := Some(i);
      }
      i := i + 1;
    }
    assert names[..|names|] == names;
  }

  /** `UriBuilder.Path += suffix` followed by `AbsoluteUri`: the suffix goes at
      the end of the path, before the query. */
  function AppendToPath(locatorPath: string, suffix: string): (r: string)
    ensures |r| == |locatorPath| + |suffix|
    ensures var n := |Before(locatorPath, '?')|;
      r[..n] == locatorPath[..n] && '?' !in r[..n] &&
      r[n..n + |suffix|] == suffix && r[n + |suffix|..] == locatorPath[n..]
  {
    var path := Before(locatorPath, '?');
    path + suffix + locatorPath[|path|..]
  }

  /** Taking the suffix back out of the URL gives the locator path. */
  lemma AppendToPathInverse(locatorPath: string, suffix: string)
    ensures var n := |Before(locatorPath, '?')|;
      var r := AppendToPath(locatorPath, suffix);
      r[..n] + r[n + |suffix|..] == locatorPath && r[n..n + |suffix|] == suffix
  {
    var n := |Before(locatorPath, '?')|;
    var r := AppendToPath(locatorPath, suffix);
    assert r[..n] == locatorPath[..n];
    assert r[n + |suffix|..] == locatorPath[n..];
  }

  /** `BuildFileSasUrl` of the media library: an ".ism" manifest (any case) is
      appended with "/manifest" and without a leading '/', any other file after
      a '/'. */
  function ManifestSuffix(file: string): string {
    if ToLower(Extension(file)) == ".ism" then file + "/manifest" else "/" + file
  }

  function BuildFileSasUrl(file: string, locatorPath: string): (r: string)
    ensures ToLower(Extension(file)) == ".ism" ==> r == AppendToPath(locatorPath, file + "/manifest")
    ensures ToLower(Extension(file)) != ".ism" ==> r == LegacyBuildFileSasUrl(file, locatorPath)
  {
    AppendToPath(locatorPath, ManifestSuffix(file))
  }

  /** `BuildFileSasUrl` of the older web role: always a '/' and the file name. */
  function LegacyBuildFileSasUrl(file: string, locatorPath: string): (r: string)
    ensures var n := |Before(locatorPath, '?')|;
      |r| == |locatorPath| + 1 + |file| && r[..n] == locatorPath[..n] && r[n] == '/' &&
      r[n + 1..n + 1 + |file|] == file && r[n + 1 + |file|..] == locatorPath[n..]
  {
    AppendToPath(locatorPath, "/" + file)
  }

  /** The two builders agree except on manifests. */
  lemma BuildersAgreeOffManifests(file: string, locatorPath: string)
    ensures BuildFileSasUrl(file, locatorPath) == LegacyBuildFileSasUrl(file, locatorPath) <==>
      ToLower(Extension(file)) != ".ism"
  {
    // the manifest suffix is longer than "/" + file, so the URLs differ in length
  }

  /** An output asset as the media context describes it. The listing is what
      blob storage lists for the locator's container when the asset reports no
      files; a locator path is None when the service left it null. */
  datatype OutputAsset = OutputAsset(
    id: string,
    name: string,
    files: seq<string>,
    listing: seq<string>,
    sasPath: Option<string>,
    originPath: Option<string>)

  /** `CreateAssetUrl` of the media library: the URL of the last file whose
      extension is not excluded, from the asset's files, or from the container
      listing when the asset has none; "" when every file is excluded. */
  function CreateAssetUrl(a: OutputAsset, locatorPath: string, excluded: seq<string>): (r: string)
    ensures var names := if |a.files| > 0 then a.files else a.listing;
      (r == "" <==> LastKept(names, ByExtension(excluded)).None?) &&
      (r != "" ==> r == BuildFileSasUrl(names[LastKept(names, ByExtension(excluded)).value], locatorPath))
  {
    var names := if |a.files| > 0 then a.files else a.listing;
    match LastKept(names, ByExtension(excluded))
    case None => ""
    case Some(i) => BuildFileSasUrl(names[i], locatorPath)
  }

  // ---------------------------------------------------------------------------
  // GetUrls of the media library
  // ---------------------------------------------------------------------------

  /** One entry of the returned dictionary: key, then the asset URL and the
      thumbnail URL. */
  datatype UrlEntry = UrlEntry(key: string, url: string, thumbnailUrl: string)

  const NullPath := "Locator's Path cannot be null!"
  const ThumbnailMarker := "Thumbnails"

  /** The thumbnail asset: the first output whose name contains "Thumbnails". */
  function ThumbnailIndex(outputs: seq<OutputAsset>): (r: Option<nat>)
    ensures r.Some? ==> r.value < |outputs| && Contains(outputs[r.value].name, ThumbnailMarker)
    ensures r.Some? ==> forall j :: 0 <= j < r.value ==> !Contains(outputs[j].name, ThumbnailMarker)
    ensures r.None? ==> forall j :: 0 <= j < |outputs| ==> !Contains(outputs[j].name, ThumbnailMarker)
  {
    if |outputs| == 0 then None
    else if Contains(outputs[0].name, ThumbnailMarker) then Some(0)
    else match ThumbnailIndex(outputs[1..])
      case None => None
      case Some(i) => Some(i + 1)
  }

  /** The keys an output asset is published under, by type. The single-bitrate
      key has no ';' before "SAS". */
  function KeysFor(id: string, t: AssetType): seq<string> {
    match t
    case SingleBitrate => [id + "SAS"]
    case MultiBitrate => [id + ";SAS", id + ";ODO"]
    case SmoothStream => [id + ";ODO"]
  }

  /** One dictionary entry: the asset's URL through the locator at `path` and
      the thumbnail's URL, both with the same excluded list. */
  function Entry(a: OutputAsset, th: OutputAsset, thPath: string, key: string, path: string, excluded: seq<string>): UrlEntry {
    UrlEntry(key, CreateAssetUrl(a, path, excluded), CreateAssetUrl(th, thPath, excluded))
  }

  /** The entries of one non-thumbnail output; `th` is the thumbnail asset and
      `thPath` its locator's path. */
  function AssetEntries(a: OutputAsset, th: OutputAsset, thPath: string): (r: Result<seq<UrlEntry>>)
    ensures r.Ok? <==> (AssetTypeOf(a.files) != SmoothStream ==> a.sasPath.Some?) &&
                       (AssetTypeOf(a.files) != SingleBitrate ==> a.originPath.Some?)
    ensures r.Ok? ==> |r.value| == |KeysFor(a.id, AssetTypeOf(a.files))|
    ensures r.Ok? ==> forall k :: 0 <= k < |r.value| ==> r.value[k].key == KeysFor(a.id, AssetTypeOf(a.files))[k]
  {
    var t := AssetTypeOf(a.files);
    match t
    case SingleBitrate =>
      if a.sasPath.None? then Err(NullPath)
      else Ok([Entry(a, th, thPath, a.id + "SAS", a.sasPath.value, SasExcluded(t))])
    case MultiBitrate =>
      if a.sasPath.None? then Err(NullPath)
      else if a.originPath.None? then Err(NullPath)
      else Ok([Entry(a, th, thPath, a.id + ";SAS", a.sasPath.value, SasExcluded(t)),
               Entry(a, th, thPath, a.id + ";ODO", a.originPath.value, MultiOriginExcluded())])
    case SmoothStream =>
      if a.originPath.None? then Err(NullPath)
      else Ok([Entry(a, th, thPath, a.id + ";ODO", a.originPath.value, SasExcluded(t))])
  }

  /** The URL an entry carries, by its kind: SAS entries link through the SAS
      locator and origin entries through the on-demand origin, each with its
      own excluded list. */
  lemma AssetEntriesUrls(a: OutputAsset, th: OutputAsset, thPath: string)
    requires AssetEntries(a, th, thPath).Ok?
    ensures var r := AssetEntries(a, th, thPath).value;
      match AssetTypeOf(a.files)
      case SingleBitrate =>
        r[0].url == CreateAssetUrl(a, a.sasPath.value, [".xml"]) &&
        r[0].thumbnailUrl == CreateAssetUrl(th, thPath, [".xml"])
      case MultiBitrate =>
        r[0].url == CreateAssetUrl(a, a.sasPath.value, [".xml", ".ism", ".ismc", ".ismv"]) &&
        r[1].url == CreateAssetUrl(a, a.originPath.value, [".xml", ".ismc", ".ismv", ".mp4"]) &&
        r[1].thumbnailUrl == CreateAssetUrl(th, thPath, [".xml", ".ismc", ".ismv", ".mp4"])
      case SmoothStream =>
        r[0].url == CreateAssetUrl(a, a.originPath.value, [".xml", ".ismc", ".ismv"])
  {
    ExcludedTable();
  }

  predicate DistinctKeys(entries: seq<UrlEntry>) {
    forall i, j :: 0 <= i < j < |entries| ==> entries[i].key != entries[j].key
  }

  function KeysOf(entries: seq<UrlEntry>): (r: seq<string>)
    ensures |r| == |entries| && forall i :: 0 <= i < |r| ==> r[i] == entries[i].key
  {
    seq(|entries|, i requires 0 <= i < |entries| => entries[i].key)
  }

  /** `Dictionary.Add` for each new entry, in order; a key already present
      throws. */
  function AddAll(dict: seq<UrlEntry>, entries: seq<UrlEntry>): (r: Result<seq<UrlEntry>>)
    requires DistinctKeys(dict)
    ensures r.Ok? ==> r.value == dict + entries && DistinctKeys(r.value)
    ensures r.Ok? <==> DistinctKeys(dict + entries)
    decreases |entries|
  {
    if |entries| == 0 then
      assert dict + entries == dict;
      Ok(dict)
    else if entries[0].key in KeysOf(dict) then
      assert !DistinctKeys(dict + entries) by {
        var i :| 0 <= i < |dict| && KeysOf(dict)[i] == entries[0].key;
        assert (dict + entries)[i].key == (dict + entries)[|dict|].key;
      }
      Err(DuplicateKey)
    else
      var dict' := dict + [entries[0]];
      assert DistinctKeys(dict') by {
        forall i | 0 <= i < |dict| ensures dict'[i].key != dict'[|dict|].key {
          assert KeysOf(dict)[i] == dict[i].key;
        }
      }
      assert dict' + entries[1..] == dict + entries;
      AddAll(dict', entries[1..])
  }

  /** What the loop of `GetUrls` does with each output: nothing for the
      thumbnail asset (None), otherwise the entries to add or the exception
      that stops it. Without a thumbnail asset the thumbnail locator cannot be
      created. */
  function Plan(outputs: seq<OutputAsset>, thPath: string): (r: seq<Option<Result<seq<UrlEntry>>>>)
    ensures |r| == |outputs|
    ensures forall j :: 0 <= j < |outputs| ==>
      (r[j].None? <==> ThumbnailIndex(outputs) == Some(j)) &&
      (r[j].Some? && ThumbnailIndex(outputs).None? ==> r[j].value == Err(ArgumentNull))
  {
    var skip := ThumbnailIndex(outputs);
    seq(|outputs|, j requires 0 <= j < |outputs| => PlanStep(outputs, skip, thPath, j))
  }

  function PlanStep(outputs: seq<OutputAsset>, skip: Option<nat>, thPath: string, j: nat): Option<Result<seq<UrlEntry>>>
    requires j < |outputs| && (skip.Some? ==> skip.value < |outputs|)
  {
    if skip == Some(j) then None
    else if skip.None? then Some(Err(ArgumentNull))
    else Some(AssetEntries(outputs[j], outputs[skip.value], thPath))
  }

  /** The entries a step adds when it does not fail. */
  function Added(step: Option<Result<seq<UrlEntry>>>): seq<UrlEntry> {
    if step.Some? && step.value.Ok? then step.value.value else []
  }

  /** The entries added from step `i` on when no step fails. */
  function Published(plan: seq<Option<Result<seq<UrlEntry>>>>, i: nat): seq<UrlEntry>
    requires i <= |plan|
    decreases |plan| - i
  {
    if i == |plan| then [] else Added(plan[i]) + Published(plan, i + 1)
  }

  /** Whether every step from `i` on that publishes yields its entries. */
  predicate StepsSucceed(plan: seq<Option<Result<seq<UrlEntry>>>>, i: nat) {
    forall j :: i <= j < |plan| && plan[j].Some? ==> plan[j].value.Ok?
  }

  /** The loop of `GetUrls` from step `i` on. It succeeds exactly when every
      step yields its entries and all the keys are distinct. */
  function Collect(plan: seq<Option<Result<seq<UrlEntry>>>>, i: nat, dict: seq<UrlEntry>): (r: Result<seq<UrlEntry>>)
    requires i <= |plan|
    requires DistinctKeys(dict)
    ensures r.Ok? ==> DistinctKeys(r.value) && r.value == dict + Published(plan, i)
    ensures r.Ok? <==> StepsSucceed(plan, i) && DistinctKeys(dict + Published(plan, i))
    decreases |plan| - i
  {
    if i == |plan| then
      assert dict + Published(plan, i) == dict;
      Ok(dict)
    else match plan[i]
      case None =>
        assert dict + Published(plan, i) == dict + Published(plan, i + 1);
        Collect(plan, i + 1, dict)
      case Some(step) =>
        if step.Err? then step.PropagateFailure()
        else
          var entries := step.value;
          assert dict + Published(plan, i) == (dict + entries) + Published(plan, i + 1);
          match AddAll(dict, entries)
          case Err(e) =>
            DistinctKeysPrefix(dict + entries, Published(plan, i + 1));
            Err(e)
          case Ok(dict') => Collect(plan, i + 1, dict')
  }

  lemma DistinctKeysPrefix(a: seq<UrlEntry>, b: seq<UrlEntry>)
    ensures DistinctKeys(a + b) ==> DistinctKeys(a)
  {
    if DistinctKeys(a + b) {
      forall i, j | 0 <= i < j < |a| ensures a[i].key != a[j].key {
        assert (a + b)[i] == a[i] && (a + b)[j] == a[j];
      }
    }
  }

  /** `GetUrls` of the media library. Every output but the thumbnail asset is
      published, under distinct keys, in output order. The source creates a
      fresh thumbnail locator for each output; the model gives them all the
      one path `thPath`. For a multi-bitrate output the source adds the
      ";SAS" entry before it checks the origin locator's path, while the model
      checks both paths first; the two differ only in which exception a
      repeated ";SAS" key together with a null origin path raises, and the
      dictionary is lost either way. */
  function GetUrls(outputs: seq<OutputAsset>, thPath: string): (r: Result<seq<UrlEntry>>)
    ensures r.Ok? ==> DistinctKeys(r.value)
    ensures r.Ok? ==> r.value == Published(Plan(outputs, thPath), 0)
    ensures r.Ok? <==> StepsSucceed(Plan(outputs, thPath), 0) && DistinctKeys(Published(Plan(outputs, thPath), 0))
  {
    var plan := Plan(outputs, thPath);
    var r := Collect(plan, 0, []);
    assert [] + Published(plan, 0) == Published(plan, 0);
    r
  }

  /** When `GetUrls` succeeds, in the terms of the outputs: unless there are
      no other outputs, there is a thumbnail asset, every other output yields
      its entries (its locators exist), and the published keys are distinct. */
  lemma GetUrlsSucceedsIff(outputs: seq<OutputAsset>, thPath: string)
    ensures GetUrls(outputs, thPath).Ok? <==>
      (forall j :: 0 <= j < |outputs| && ThumbnailIndex(outputs) != Some(j) ==>
         ThumbnailIndex(outputs).Some? && AssetEntries(outputs[j], outputs[ThumbnailIndex(outputs).value], thPath).Ok?) &&
      DistinctKeys(Published(Plan(outputs, thPath), 0))
  {
    var plan := Plan(outputs, thPath);
    var th := ThumbnailIndex(outputs);
    if StepsSucceed(plan, 0) {
      forall j | 0 <= j < |outputs| && th != Some(j)
        ensures th.Some? && AssetEntries(outputs[j], outputs[th.value], thPath).Ok?
      {
        assert plan[j].Some?;
        if th.Some? {
          PlanEntries(outputs, thPath, j);
        }
      }
    }
    if forall j :: 0 <= j < |outputs| && th != Some(j) ==>
         th.Some? && AssetEntries(outputs[j], outputs[th.value], thPath).Ok? {
      forall j | 0 <= j < |plan| && plan[j].Some? ensures plan[j].value.Ok? {
        PlanEntries(outputs, thPath, j);
      }
    }
  }

  /** A dictionary is only returned when there is a thumbnail asset and
      every other output yields its entries. */
  lemma GetUrlsOk(outputs: seq<OutputAsset>, thPath: string, j: nat)
    requires GetUrls(outputs, thPath).Ok?
    requires j < |outputs| && ThumbnailIndex(outputs) != Some(j)
    ensures ThumbnailIndex(outputs).Some?
    ensures AssetEntries(outputs[j], outputs[ThumbnailIndex(outputs).value], thPath).Ok?
  {
    assert Plan(outputs, thPath)[j].Some?;
    PlanEntries(outputs, thPath, j);
  }

  /** Every entry a step adds is in what the loop publishes. */
  lemma {:induction false} PublishedContains(plan: seq<Option<Result<seq<UrlEntry>>>>, i: nat, j: nat, e: UrlEntry)
    requires i <= j < |plan|
    requires e in Added(plan[j])
    ensures e in Published(plan, i)
    decreases j - i
  {
    if i < j {
      PublishedContains(plan, i + 1, j, e);
    }
  }

  /** Everything published was added by some step. */
  lemma {:induction false} PublishedFrom(plan: seq<Option<Result<seq<UrlEntry>>>>, i: nat, e: UrlEntry)
    requires i <= |plan|
    requires e in Published(plan, i)
    ensures exists j :: i <= j < |plan| && e in Added(plan[j])
    decreases |plan| - i
  {
    if e !in Added(plan[i]) {
      PublishedFrom(plan, i + 1, e);
    }
  }

  /** Everything in the dictionary was added by the step of some output; by
      `Plan`, that output is not the thumbnail asset, and by `PlanEntries`
      its step is its entries. */
  lemma GetUrlsFrom(outputs: seq<OutputAsset>, thPath: string, e: UrlEntry)
    requires GetUrls(outputs, thPath).Ok?
    requires e in GetUrls(outputs, thPath).value
    ensures ThumbnailIndex(outputs).Some?
    ensures exists j :: 0 <= j < |outputs| && e in Added(Plan(outputs, thPath)[j])
  {
    PublishedHasThumbnail(outputs, thPath, e);
    PublishedOutputs(outputs, thPath, e);
  }

  lemma PublishedHasThumbnail(outputs: seq<OutputAsset>, thPath: string, e: UrlEntry)
    requires e in Published(Plan(outputs, thPath), 0)
    ensures ThumbnailIndex(outputs).Some?
  {
    PlanPublishedFrom(Plan(outputs, thPath), ThumbnailIndex(outputs), e);
  }

  lemma PublishedOutputs(outputs: seq<OutputAsset>, thPath: string, e: UrlEntry)
    requires e in Published(Plan(outputs, thPath), 0)
    ensures exists j :: 0 <= j < |outputs| && e in Added(Plan(outputs, thPath)[j])
  {
    var plan := Plan(outputs, thPath);
    PlanPublishedFrom(plan, ThumbnailIndex(outputs), e);
    var j :| 0 <= j < |plan| && ThumbnailIndex(outputs) != Some(j) && e in Added(plan[j]);
  }

  /** The published entries come from steps other than the skipped one, and
      there is a skipped one whenever anything is published. */
  lemma PlanPublishedFrom(plan: seq<Option<Result<seq<UrlEntry>>>>, skip: Option<nat>, e: UrlEntry)
    requires forall j :: 0 <= j < |plan| ==> (plan[j].None? <==> skip == Some(j))
    requires forall j :: 0 <= j < |plan| && plan[j].Some? && skip.None? ==> plan[j].value.Err?
    requires e in Published(plan, 0)
    ensures skip.Some?
    ensures exists j :: 0 <= j < |plan| && skip != Some(j) && e in Added(plan[j])
  {
    PublishedFrom(plan, 0, e);
  }

  /** The step of an output other than the thumbnail asset is its entries. */
  lemma PlanEntries(outputs: seq<OutputAsset>, thPath: string, j: nat)
    requires j < |outputs| && ThumbnailIndex(outputs).Some? && ThumbnailIndex(outputs) != Some(j)
    ensures Plan(outputs, thPath)[j] == Some(AssetEntries(outputs[j], outputs[ThumbnailIndex(outputs).value], thPath))
  {
  }

  /** Every entry of every output other than the thumbnail asset is in the
      dictionary. */
  lemma GetUrlsContains(outputs: seq<OutputAsset>, thPath: string, j: nat, e: UrlEntry)
    requires GetUrls(outputs, thPath).Ok?
    requires j < |outputs| && ThumbnailIndex(outputs).Some? && ThumbnailIndex(outputs) != Some(j)
    requires AssetEntries(outputs[j], outputs[ThumbnailIndex(outputs).value], thPath).Ok?
    requires e in AssetEntries(outputs[j], outputs[ThumbnailIndex(outputs).value], thPath).value
    ensures e in GetUrls(outputs, thPath).value
  {
    PlanEntries(outputs, thPath, j);
    PublishedContains(Plan(outputs, thPath), 0, j, e);
  }

  /** Split at its first ';', a published key gives back the output's id
      (for ids without ';') except in the single-bitrate case, whose key has no
      ';' at all. */
  lemma KeyTaskId(id: string, t: AssetType, k: nat)
    requires ';' !in id && k < |KeysFor(id, t)|
    ensures t != SingleBitrate ==> Before(KeysFor(id, t)[k], ';') == id
    ensures t == SingleBitrate ==> Before(KeysFor(id, t)[k], ';') == id + "SAS" != id
  {
    var key := KeysFor(id, t)[k];
    if t == SingleBitrate {
      assert ';' !in key by {
        assert key == id + "SAS";
        assert forall c :: c in key ==> c in id || c in "SAS";
      }
      assert |key| != |id|;
    } else {
      var rest := key[|id| + 1..];
      assert key == id + [';'] + rest;
      SplitAtFirst(id, rest, ';');
      SplitHeadIsBefore(key, ';');
    }
  }

  // ---------------------------------------------------------------------------
  // GetUrls of the older web role
  // ---------------------------------------------------------------------------

  /** The first file whose name ends with ".ism". */
  function FirstManifest(files: seq<string>): (r: Option<nat>)
    ensures r.Some? ==> r.value < |files| && EndsWith(files[r.value], ".ism")
    ensures r.Some? ==> forall j :: 0 <= j < r.value ==> !EndsWith(files[j], ".ism")
    ensures r.None? ==> forall j :: 0 <= j < |files| ==> !EndsWith(files[j], ".ism")
  {
    if |files| == 0 then None
    else if EndsWith(files[0], ".ism") then Some(0)
    else match FirstManifest(files[1..])
      case None => None
      case Some(i) => Some(i + 1)
  }

  /** `CreateAssetSasUrl`: the URL of the last file whose name does not contain
      "metadata", from the asset's files or else from the container listing
      (by file name); "" when there is none. */
  function CreateAssetSasUrl(a: OutputAsset, locatorPath: string): (r: string)
    ensures var names := if |a.files| > 0 then a.files else a.listing;
      (r == "" <==> LastKept(names, WithoutMetadata).None?) &&
      (r != "" ==> exists i :: 0 <= i < |names| && !Contains(names[i], "metadata") &&
                     (forall j :: i < j < |names| ==> Contains(names[j], "metadata")) &&
                     r == LegacyBuildFileSasUrl(if |a.files| > 0 then names[i] else FileName(names[i]), locatorPath))
  {
    var names := if |a.files| > 0 then a.files else a.listing;
    match LastKept(names, WithoutMetadata)
    case None => ""
    case Some(i) =>
      var file := if |a.files| > 0 then names[i] else FileName(names[i]);
      assert |LegacyBuildFileSasUrl(file, locatorPath)| > 0;
      LegacyBuildFileSasUrl(file, locatorPath)
  }

  /** The URL of one output asset: a manifest gets the SAS locator path, the
      manifest name and "/manifest" by plain concatenation, after the whole
      locator path, query included; any other asset the URL of its last
      non-metadata file. */
  function LegacyAssetUrl(a: OutputAsset): (r: Result<string>)
    ensures r.Ok? <==> a.sasPath.Some?
    ensures r.Ok? && FirstManifest(a.files).Some? ==>
      r.value == a.sasPath.value + a.files[FirstManifest(a.files).value] + "/manifest"
    ensures r.Ok? && FirstManifest(a.files).None? ==> r.value == CreateAssetSasUrl(a, a.sasPath.value)
  {
    if a.sasPath.None? then Err(NullPath)
    else match FirstManifest(a.files)
      case Some(m) => Ok(a.sasPath.value + a.files[m] + "/manifest")
      case None => Ok(CreateAssetSasUrl(a, a.sasPath.value))
  }

  /** The outputs the older `GetUrls` looks at: those named like the job. */
  function NamedLike(jobName: string, outputs: seq<OutputAsset>): (r: seq<OutputAsset>)
    ensures forall a :: a in r <==> a in outputs && a.name == jobName
  {
    if |outputs| == 0 then []
    else (if outputs[0].name == jobName then [outputs[0]] else []) + NamedLike(jobName, outputs[1..])
  }

  /** `GetUrls` of the older web role: `(asset id, URL)` for every output named
      like the job, in order; a missing SAS locator or a repeated id throws. */
  function LegacyGetUrls(jobName: string, outputs: seq<OutputAsset>): (r: Result<seq<(string, string)>>)
    ensures r.Ok? ==> |r.value| == |NamedLike(jobName, outputs)|
    ensures r.Ok? ==> forall k :: 0 <= k < |r.value| ==>
      r.value[k].0 == NamedLike(jobName, outputs)[k].id &&
      LegacyAssetUrl(NamedLike(jobName, outputs)[k]) == Ok(r.value[k].1)
    ensures r.Ok? ==> forall k, l :: 0 <= k < l < |r.value| ==> r.value[k].0 != r.value[l].0
    ensures r.Ok? <==> LegacyPublishable(NamedLike(jobName, outputs))
  {
    LegacyUrls(NamedLike(jobName, outputs))
  }

  /** Whether the older `GetUrls` can publish the selected outputs: each has
      a SAS locator, and no two share an id. */
  predicate LegacyPublishable(selected: seq<OutputAsset>) {
    (forall k :: 0 <= k < |selected| ==> selected[k].sasPath.Some?) &&
    (forall k, l :: 0 <= k < l < |selected| ==> selected[k].id != selected[l].id)
  }

  /** The loop of the older `GetUrls` over the selected outputs. */
  function LegacyUrls(selected: seq<OutputAsset>): (r: Result<seq<(string, string)>>)
    ensures r.Ok? ==> |r.value| == |selected|
    ensures r.Ok? ==> forall k :: 0 <= k < |r.value| ==>
      r.value[k].0 == selected[k].id && LegacyAssetUrl(selected[k]) == Ok(r.value[k].1)
    ensures r.Ok? ==> forall k, l :: 0 <= k < l < |r.value| ==> r.value[k].0 != r.value[l].0
    ensures r.Ok? <==> LegacyPublishable(selected)
  {
    var steps := seq(|selected|, k requires 0 <= k < |selected| => LegacyStep(selected[k]));
    var r := LegacyAddUrls(steps, []);
    LegacyUrlsOfSelected(selected, steps, r);
    r
  }

  lemma LegacyUrlsOfSelected(selected: seq<OutputAsset>, steps: seq<(string, Result<string>)>, r: Result<seq<(string, string)>>)
    requires |steps| == |selected| && forall k :: 0 <= k < |steps| ==> steps[k] == LegacyStep(selected[k])
    requires r == LegacyAddUrls(steps, [])
    ensures r.Ok? ==> |r.value| == |selected|
    ensures r.Ok? ==> forall k :: 0 <= k < |r.value| ==>
      r.value[k].0 == selected[k].id && LegacyAssetUrl(selected[k]) == Ok(r.value[k].1)
    ensures r.Ok? <==>
      (forall k :: 0 <= k < |selected| ==> selected[k].sasPath.Some?) &&
      (forall k, l :: 0 <= k < l < |selected| ==> selected[k].id != selected[l].id)
  {
    var empty: seq<(string, string)> := [];
    assert r == LegacyAddUrls(steps, empty);
    StepsFresh(selected, steps);
    StepsFound(selected, steps);
  }

  /** Every step finds its URL exactly when every selected output has a SAS
      locator. */
  lemma StepsFound(selected: seq<OutputAsset>, steps: seq<(string, Result<string>)>)
    requires |steps| == |selected| && forall k :: 0 <= k < |steps| ==> steps[k] == LegacyStep(selected[k])
    ensures (forall k :: 0 <= k < |steps| ==> steps[k].1.Ok?) <==> (forall k :: 0 <= k < |selected| ==> selected[k].sasPath.Some?)
  {
    assert forall k :: 0 <= k < |steps| ==> (steps[k].1.Ok? <==> selected[k].sasPath.Some?);
  }

  /** The steps' ids are fresh for an empty dictionary exactly when the
      selected outputs' ids are distinct. */
  lemma StepsFresh(selected: seq<OutputAsset>, steps: seq<(string, Result<string>)>)
    requires |steps| == |selected| && forall k :: 0 <= k < |steps| ==> steps[k] == LegacyStep(selected[k])
    ensures FreshIds(steps, []) <==> forall k, l :: 0 <= k < l < |selected| ==> selected[k].id != selected[l].id
  {
    assert forall k :: 0 <= k < |steps| ==> steps[k].0 == selected[k].id;
  }

  /** The key and the URL (or exception) of one selected output. */
  function LegacyStep(a: OutputAsset): (string, Result<string>) {
    (a.id, LegacyAssetUrl(a))
  }

  /** Whether the steps' ids are distinct from each other and from those
      already in `dict`. */
  predicate FreshIds(steps: seq<(string, Result<string>)>, dict: seq<(string, string)>) {
    (forall k, l :: 0 <= k < l < |steps| ==> steps[k].0 != steps[l].0) &&
    (forall k, i :: 0 <= k < |steps| && 0 <= i < |dict| ==> steps[k].0 != dict[i].0)
  }

  /** `Dictionary.Add(id, url)` for each selected output, in order. It
      succeeds exactly when every URL is found and the ids are fresh. */
  function LegacyAddUrls(steps: seq<(string, Result<string>)>, dict: seq<(string, string)>): (r: Result<seq<(string, string)>>)
    requires forall k, l :: 0 <= k < l < |dict| ==> dict[k].0 != dict[l].0
    ensures r.Ok? ==> |r.value| == |dict| + |steps| && r.value[..|dict|] == dict
    ensures r.Ok? ==> forall k :: 0 <= k < |steps| ==>
      r.value[|dict| + k].0 == steps[k].0 && steps[k].1 == Ok(r.value[|dict| + k].1)
    ensures r.Ok? ==> forall k, l :: 0 <= k < l < |r.value| ==> r.value[k].0 != r.value[l].0
    ensures r.Ok? <==> (forall k :: 0 <= k < |steps| ==> steps[k].1.Ok?) && FreshIds(steps, dict)
    decreases |steps|
  {
    if |steps| == 0 then Ok(dict)
    else
      var url :- steps[0].1;
      if exists k :: 0 <= k < |dict| && dict[k].0 == steps[0].0 then Err(DuplicateKey)
      else
        var dict' := dict + [(steps[0].0, url)];
        var r := LegacyAddUrls(steps[1..], dict');
        assert forall k :: 0 < k < |steps| ==> steps[k] == steps[1..][k - 1];
        FreshIdsStep(steps, dict, url);
        if r.Ok? then
          assert r.value[..|dict|] == r.value[..|dict'|][..|dict|];
          r
        else r
  }

  /** Freshness after the first id is added is freshness of the rest. */
  lemma FreshIdsStep(steps: seq<(string, Result<string>)>, dict: seq<(string, string)>, url: string)
    requires |steps| > 0
    requires forall k :: 0 <= k < |dict| ==> dict[k].0 != steps[0].0
    ensures FreshIds(steps, dict) <==> FreshIds(steps[1..], dict + [(steps[0].0, url)])
  {
    var dict' := dict + [(steps[0].0, url)];
    var rest := steps[1..];
    assert forall k :: 0 <= k < |rest| ==> rest[k] == steps[k + 1];
    assert forall i :: 0 <= i < |dict| ==> dict'[i] == dict[i];
    if FreshIds(rest, dict') {
      forall k, l | 0 <= k < l < |steps| ensures steps[k].0 != steps[l].0 {
        if k == 0 {
          assert dict'[|dict|].0 == steps[0].0;
          assert rest[l - 1].0 != dict'[|dict|].0;
        } else {
          assert rest[k - 1].0 != rest[l - 1].0;
        }
      }
      forall k, i | 0 <= k < |steps| && 0 <= i < |dict| ensures steps[k].0 != dict[i].0 {
        if k > 0 {
          assert rest[k - 1].0 != dict'[i].0;
        }
      }
    }
    if FreshIds(steps, dict) {
      forall k, i | 0 <= k < |rest| && 0 <= i < |dict'| ensures rest[k].0 != dict'[i].0 {
        if i == |dict| {
          assert steps[0].0 != steps[k + 1].0;
        } else {
          assert steps[k + 1].0 != dict[i].0;
        }
      }
      forall k, l | 0 <= k < l < |rest| ensures rest[k].0 != rest[l].0 {
        assert steps[k + 1].0 != steps[l + 1].0;
      }
    }
  }

  // ---------------------------------------------------------------------------
  // Ingest
  // ---------------------------------------------------------------------------

  const EmptySource := "Source File cannot be empty!"

  /** The temporary blob container of an ingest: `locator.Path.Split('?')[0]`,
      the locator path without its query. */
  function TempContainer(locatorPath: string): (r: string)
    ensures r == Before(locatorPath, '?')
    ensures '?' !in r && StartsWith(locatorPath, r)
  {
    SplitHeadIsBefore(locatorPath, '?');
    Split(locatorPath, '?')[0]
  }

  /** `IngestAssetAsync` of the media library up to the copy: an empty source
      blob is rejected before anything is copied; otherwise the temporary
      container is returned. */
  function IngestAsset(locatorPath: string, sourceLength: nat): (r: Result<string>)
    ensures r.Err? <==> sourceLength == 0
    ensures r.Err? ==> r.msg == EmptySource
    ensures r.Ok? ==> r.value == Before(locatorPath, '?')
  {
    if sourceLength == 0 then Err(EmptySource) else Ok(TempContainer(locatorPath))
  }

  // ---------------------------------------------------------------------------
  // Configuration
  // ---------------------------------------------------------------------------

  /** `ParseTraceConfig`: "on" or "true" in any letter case. */
  function ParseTraceConfig(value: string): bool {
    ToLower(value) == "on" || ToLower(value) == "true"
  }

  /** The setting is read case-insensitively: a value and its lower-case form
      switch tracing the same way, and exactly two lower-case words switch it
      on. */
  lemma TraceConfigCaseInsensitive(value: string)
    ensures ParseTraceConfig(ToLower(value)) == ParseTraceConfig(value)
    ensures value == ToLower(value) ==> (ParseTraceConfig(value) <==> value == "on" || value == "true")
  {
    LowerIdempotent(value);
  }
}
