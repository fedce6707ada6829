# MediaServicesWeb orchestration, modelled in Dafny

This project models the orchestration core of MediaServicesWeb. That is an
ASP.NET MVC site: a browser uploads video files in chunks and chooses encoder
presets and a protection mode. The server then ingests the files into Azure
Media Services, composes and submits encoding jobs, and publishes the outputs.
While it works, it keeps one status record per file and encoder in an Azure
table or a SQL database. The model covers:

- the media library's `MediaController` state machine, with its `MediaJob`s
  and its `MediaServicesAPI` (job composition, URL publication, ingest);
- the older web role's `Media` orchestrator and its own `MediaServicesAPI`;
- the status records and the two stores that hold them (table and SQL);
- the chunked upload controller, with its block ids and commit lists;
- the `HomeController` actions that drive the controller from browser polls;
- the browser's preset serialisation and protection labels (`main.js`), and
  the date comparator of the data table (`dataTablesSort.js`).

Everything remote is an input. The Media Services SDK, blob storage, the
clock, GUIDs and the job outcomes become parameters: functions of a job's
position, sets of known processors, tick readings. Events are explicit calls
to handler functions. The model follows the code as written. Where the code
behaves oddly, the oddity is stated as a lemma about the model rather than
corrected. For example, the single-bitrate key has no ';', the throttle is
shared between files, and jobs of earlier batches are kept.

Modules, in dependency order:

- `Wrappers`, `Runtime`: result types and the exceptions the code can raise.
- `Text`: the .NET string and path functions the code relies on.
- `Base64`: the block-id encoding.
- `Remote`: the SDK's job states and the protection labels.
- `Records`: the status record and its keys.
- `TableStore`, `SqlStore`, `Store`: the record stores.
- `Uploads`: the chunked upload controller.
- `Composition`: how encoding jobs are composed.
- `Publication`: output URLs, ingest and the trace setting.
- `MediaJob`: one file's job.
- `Controller`: `MediaController`.
- `Legacy`: the older `Media` orchestrator.
- `ClientProtocol`: the browser's request formats.
- `DateSort`: the data table's date comparator.
- `Driver`: the `HomeController` actions.

## Model

| member | source | states |
|---|---|---|
| Text.IndexOf | WAMS.MediaLib/MediaServicesAPI.cs:161-237 | the index found holds the character and no earlier position does; None exactly when the character is absent |
| Text.Before | WAMS.MediaLib/MediaController.cs:419 | the text before the first separator contains no separator, and is the whole string when there is none |
| Text.Split | WAMS.MediaLib/MediaController.cs:542 | `Split` never returns an empty array |
| Text.SplitJoin | WAMS.MediaLib/MediaController.cs:542 | splitting a join of separator-free pieces gives the pieces back |
| Text.JoinSplit | WAMS.Web/Controllers/HomeController.cs:646-651 | joining the pieces of a split with the separator gives the string back |
| Text.SplitHeadIsBefore | WAMS.MediaLib/MediaController.cs:419 | `Split(';')[0]` is the text before the first ';' |
| Text.ToLower | WAMS.MediaLib/MediaServicesAPI.cs:74 | lowering keeps the length, leaves no upper-case ASCII letter, keeps every other character, and agrees with the source character by character up to case |
| Text.LowerIdempotent | WAMS.MediaLib/MediaServicesAPI.cs:72-76 | lowering twice is lowering once, and text without capitals is its own lower case |
| Text.LowerEqualIffSameIgnoringCase | WAMS.MediaLib/MediaServicesAPI.cs:72-76 | two strings lower to the same text exactly when they are equal up to ASCII case |
| Text.Extension | WAMS.MediaLib/MediaServicesAPI.cs:748 | `Path.GetExtension` is empty, or a suffix of the path of at least two characters starting with '.' |
| Text.FileName | WAMS.MediaLib/MediaController.cs:167 | `Path.GetFileName` is a suffix without directory or volume separators |
| Text.FileNameWithoutExtension | WAMS.MediaLib/MediaController.cs:168 | `Path.GetFileNameWithoutExtension` is the file name up to its last '.', which is dropped, or the whole file name when it has no '.' |
| Text.GetFileName | WAMS.Web/Controllers/FileUploaderController.cs:37 | `Path.GetFileName` throws exactly when the path holds '"', '<', '>', '\|' or a control character, and otherwise answers the file name |
| Text.GetFileNameWithoutExtension | WAMS.Web/WAMS/Media.cs:160 | `Path.GetFileNameWithoutExtension` throws on the same characters, and otherwise answers the name cut at its last '.' |
| Text.GetFileNameIdempotent | WAMS.Web/Controllers/FileUploaderController.cs:37 | a name `Path.GetFileName` returned passes it again and is its own file name, so a stored upload name never makes a later path call throw |
| Text.FileNameOfPlainName | WAMS.Web/Controllers/FileUploaderController.cs:37 | a name with no directory part is its own file name |
| Text.NatToString | WAMS.Web/WAMS/Media.cs:173 | the decimal rendering is non-empty and all digits |
| Text.ParseNatToString | WAMS.Web/WAMS/Media.cs:708-718 | parsing the rendering of a number gives the number back |
| Text.PadDigits | WAMS.Web/Controllers/FileUploaderController.cs:144-145 | `{0:D4}` of a non-negative number is all digits and at least four characters long |
| Text.PadDigitsInjective | WAMS.Web/Controllers/FileUploaderController.cs:144-145 | distinct numbers get distinct padded renderings |
| Base64.Encode | WAMS.Web/Controllers/FileUploaderController.cs:144-145 | the encoding has four characters for every started group of three bytes |
| Base64.DecodeEncode | WAMS.Web/Controllers/FileUploaderController.cs:144-145 | decoding the encoding of any byte sequence gives that sequence back |
| Base64.EncodeInjective | WAMS.Web/Controllers/FileUploaderController.cs:185-187 | distinct byte sequences have distinct encodings |
| Base64.AlphabetIndexInverse | WAMS.Web/Controllers/FileUploaderController.cs:144-145 | each of the 64 characters of the alphabet reads back as its 6-bit value |
| Remote.JobStatus | WAMS.Web/WAMS/MediaServicesAPI.cs:1024-1049 | every job state has a non-empty status text; `Remote.JobStatusRoundTrip` reads it back |
| Remote.JobStatusRoundTrip | WAMS.MediaLib/MediaServicesAPI.cs:924-949 | the status text of a job state reads back as that same state |
| Remote.JobStatusInjective | WAMS.Web/WAMS/MediaServicesAPI.cs:1024-1049 | distinct job states get distinct status texts |
| Remote.FinishedStatusOnlyForFinished | WAMS.MediaLib/MediaServicesAPI.cs:924-949 | only the finished state reports "Finished", the value the in-progress queries filter out |
| Remote.DescriptionsDistinguishProtection | WAMS.MediaLib/MediaController.cs:507-522 | the protection labels of each orchestrator are one-to-one; the two tables agree only on storage encryption |
| Records.FromSql | WAMS.MediaLib/MediaAsset.cs:37-52 | building a table record from a SQL row takes the keys from Title and Id and keeps every other field |
| Records.ToSql | WAMS.MediaLib/Models/MediaAssetExt.cs:9-24 | building a SQL row from a table record puts the keys in Title and Id and keeps every other field |
| Records.ConversionsRoundTrip | WAMS.MediaLib/Models/MediaAssetExt.cs:9-24 | the two conversions undo each other in both directions |
| Records.CopyFrom | WAMS.MediaLib/Models/MediaAssetExt.cs:27-47 | the copy equals the original |
| Records.RowKey | WAMS.MediaLib/MediaAsset.cs:54-58 | a RowKey starts with a literal '1', the rendered ticks left until `DateTime.MaxValue`, and a '_' |
| Records.RowKeyTicksDecrease | WAMS.MediaLib/MediaAsset.cs:54-58 | a later creation time gives a strictly smaller tick count after the leading '1' |
| Records.RowKeyHasNoSemicolon | WAMS.MediaLib/MediaAsset.cs:54-58 | a RowKey never contains ';' |
| Records.NewAsset | WAMS.MediaLib/MediaAsset.cs:26-34 | a new record has the title as PartitionKey and the RowKey built from its creation time and GUID |
| Records.SplitKey | WAMS.MediaLib/MediaController.cs:540-546 | splitting a record id succeeds exactly when it contains ';', and the PartitionKey is then the text before the first ';' |
| Records.SplitCompositeKey | WAMS.MediaLib/MediaController.cs:201 | `"{pk};{rk}"` splits back into the two keys when neither contains ';' |
| Records.RecordKeyRoundTrip | WAMS.MediaLib/MediaController.cs:195-205 | every record key written for a title without ';' splits back into that record's keys |
| TableStore.InsertOrReplace | WAMS.Web/WAMS/MediaAssetContext.cs:34-39 | the service refuses the record (400 Bad Request) exactly when a key holds '/', '\\', '#', '?' or a control character; otherwise the record's keys hold exactly that record afterwards, and every other entry is untouched |
| TableStore.GuidRowKeyValid | WAMS.MediaLib/MediaAsset.cs:54-58 | a row key made from the clock and a GUID never holds a character the table refuses |
| TableStore.Merge | WAMS.Web/WAMS/MediaAssetContext.cs:42-53 | a merge fails when no record has those keys; otherwise that record is replaced and the others are untouched |
| TableStore.Get | WAMS.Web/WAMS/MediaAssetContext.cs:55-75 | a lookup answers the record under both keys, or null when there is none |
| TableStore.GetAfterInsert | WAMS.Web/WAMS/MediaAssetContext.cs:34-75 | a lookup after an accepted insert of the same keys gives exactly the inserted record |
| TableStore.InProgress | WAMS.Web/WAMS/MediaAssetContext.cs:82-97 | the in-progress set is exactly the records whose Status is not "Finished" |
| TableStore.InProgressAfterInsert | WAMS.Web/WAMS/MediaAssetContext.cs:82-97 | writing "Finished" takes a record out of the in-progress set; any other status puts it in |
| TableStore.AssetContainer | WAMS.MediaLib/MediaController.cs:790-818 | the container found is a path segment that starts with "asset-" |
| TableStore.Delete | WAMS.MediaLib/MediaController.cs:790-818 | a delete fails exactly when the keys are absent or a non-empty URL has no "asset-" segment; otherwise the key is removed and the result is true exactly on HTTP 200 |
| SqlStore.MatchCount | WAMS.MediaLib/Models/MediaAssetExt.cs:60-64 | the count is zero exactly when no row has the given Title and Id |
| SqlStore.Single | WAMS.MediaLib/Models/MediaAssetExt.cs:60-64 | LINQ `Single` succeeds exactly when one row matches, and then answers its position |
| SqlStore.OnlyMatch | WAMS.MediaLib/Models/MediaAssetExt.cs:60-64 | with exactly one match, the first match is the only one |
| SqlStore.Add | WAMS.MediaLib/Models/MediaAssetExt.cs:53-57 | the row is appended and the rows before it are kept |
| SqlStore.Get | WAMS.MediaLib/Models/MediaAssetExt.cs:60-64 | a read answers the only row with the keys, and fails when there are none or several |
| SqlStore.UpdateStatus | WAMS.MediaLib/Models/MediaAssetExt.cs:67-80 | only the matched row changes, and only in Status, ProcessingTime, Url, Thumbnail and Size |
| SqlStore.UpdateKeepsOtherFields | WAMS.MediaLib/Models/MediaAssetExt.cs:67-80 | an update never touches the keys or any field outside those five |
| SqlStore.Delete | WAMS.MediaLib/Models/MediaAssetExt.cs:83-92 | a delete succeeds exactly when one row matches; afterwards there is one row fewer, every non-matching row is kept, and no matching row remains |
| SqlStore.InProgress | WAMS.MediaLib/Models/MediaAssetExt.cs:95-113 | at most ten rows, each of them unfinished; fewer than ten means every unfinished row is there |
| Store.AddMediaAsset | WAMS.MediaLib/MediaController.cs:567-597 | the SQL path always appends the row; the table path fails, with the connection prefix before the service's 400 message, exactly when a key holds a character the table refuses, and otherwise inserts or replaces the record; the other store is untouched |
| Store.GetAsset | WAMS.MediaLib/MediaController.cs:639-665 | the table answers the record or null; SQL succeeds exactly when one row matches; a record found has the keys asked for |
| Store.UpdateMediaAsset | WAMS.MediaLib/MediaController.cs:673-703 | an update succeeds exactly when the keys are stored (table) or match one row (SQL); the table then holds the new record |
| Store.DeleteAsset | WAMS.MediaLib/MediaController.cs:827-855 | the table path fails as the table delete does and otherwise reports the service's 200; the SQL path succeeds exactly when one row matches, and then reports true with one row fewer |
| Store.GetAfterAdd | WAMS.MediaLib/MediaController.cs:567-665 | an add succeeds exactly on SQL or with keys the table accepts, and a record just added then reads back as itself: always in the table, and in SQL when no row had its keys |
| Store.GetAfterUpdate | WAMS.MediaLib/MediaController.cs:639-703 | after a successful update, the next read shows the Status and Url that were written |
| Store.MatchCountUpdate | WAMS.MediaLib/Models/MediaAssetExt.cs:67-80 | replacing a row with one of the same keys keeps every match count |
| Uploads.Wrap32 | WAMS.MediaLib/Models/FileUploadModel.cs:99-126 | the wrapped value is in 32-bit range and congruent to the input modulo 2^32 |
| Uploads.ModelEquals | WAMS.MediaLib/Models/FileUploadModel.cs:64-74 | two models are equal exactly when their FileNames are, and null equals nothing |
| Uploads.ModelEqualsIsEquivalence | WAMS.MediaLib/Models/FileUploadModel.cs:64-74 | model equality is reflexive, symmetric and transitive |
| Uploads.Hash | WAMS.MediaLib/Models/FileUploadModel.cs:99-126 | the hash is 0 for a null model or an empty name, and otherwise congruent modulo 2^32 to 89*(first+length)+last+length |
| Uploads.ComparerConsistent | WAMS.MediaLib/Models/FileUploadModel.cs:90-126 | models the comparer calls equal have equal hashes |
| Uploads.HashWithoutOverflow | WAMS.MediaLib/Models/FileUploadModel.cs:99-126 | for names up to twenty million characters, the hash is exactly 89*(first+length)+last+length, with no wrap |
| Uploads.AddIfNew | WAMS.Web/Controllers/FileUploaderController.cs:102 | a model is appended only when no entry has its name, so names stay unique |
| Uploads.FormatD4 | WAMS.Web/Controllers/FileUploaderController.cs:144-145 | `{0:D4}` is the magnitude's digits padded to four, with a leading '-' for negative numbers |
| Uploads.FormatD4Sign | WAMS.Web/Controllers/FileUploaderController.cs:144-145 | the rendering starts with '-' exactly when the number is negative |
| Uploads.FormatD4Injective | WAMS.Web/Controllers/FileUploaderController.cs:144-145 | distinct numbers are rendered differently |
| Uploads.Utf8 | WAMS.Web/Controllers/FileUploaderController.cs:144-145 | UTF-8 gives at least one byte per character |
| Uploads.Utf8Ascii | WAMS.Web/Controllers/FileUploaderController.cs:144-145 | ASCII text is one byte per character, that character's code |
| Uploads.Utf8AsciiInjective | WAMS.Web/Controllers/FileUploaderController.cs:144-145 | two ASCII strings with the same bytes are equal |
| Uploads.BlockId | WAMS.Web/Controllers/FileUploaderController.cs:144-145 | a block id is Base64 text of at least eight characters, a multiple of four |
| Uploads.BlockIdInjective | WAMS.Web/Controllers/FileUploaderController.cs:144-145 | distinct chunk numbers have distinct block ids |
| Uploads.BlockIdDecodes | WAMS.Web/Controllers/FileUploaderController.cs:144-145 | a block id decodes back to the bytes of the padded chunk number |
| Uploads.BlockList | WAMS.Web/Controllers/FileUploaderController.cs:185-187 | the commit list holds the ids of chunks 1 to BlockCount in order; a negative count throws |
| Uploads.BlockListDistinct | WAMS.Web/Controllers/FileUploaderController.cs:185-187 | the ids in a commit list are pairwise distinct |
| Uploads.PrepareMetadata | WAMS.Web/Controllers/FileUploaderController.cs:74-119 | the result is true exactly when the blob is already committed, and then FileAssets holds the name (names stay unique); otherwise the session stores a new model under the name |
| Uploads.UploadFileBlob | WAMS.Web/Controllers/FileUploaderController.cs:128-250 | a missing session model is reported expired and nothing changes; blocks are committed only for the chunk equal to BlockCount, and then as ids 1 to BlockCount; a negative count throws; FileAssets names stay unique |
| Uploads.Upload | WAMS.Web/Controllers/FileUploaderController.cs:29-65 | an empty chunk gets the zero-length reply; a file name with a character refused in a path throws; every other reply says "Success"; anything committed is the block list of chunk+1 in 32-bit arithmetic; FileAssets names stay unique |
| Uploads.FirstChunkOfNewFileIsStaged | WAMS.Web/Controllers/FileUploaderController.cs:29-65 | a plain file name's first chunk is staged under the id of chunk 1, and is not reported expired |
| Uploads.PathNameIsReportedExpired | WAMS.Web/Controllers/FileUploaderController.cs:37-45 | a name with a directory part is stored under its file name and looked up under the full name, so its chunk is reported expired and nothing is staged; if it holds a character refused in a path, the upload throws instead |
| Composition.Processor | WAMS.MediaLib/MediaServicesAPI.cs:121-147 | a processor lookup succeeds exactly when a processor of that name is known |
| Composition.Assigned | WAMS.MediaLib/MediaServicesAPI.cs:161-237 | the assigned keys are the entries whose key prefix starts the asset name, in dictionary order |
| Composition.Block | WAMS.MediaLib/MediaServicesAPI.cs:161-237 | a key can be composed exactly when the protection's processors are known (and, in the older composer, the encoder is known and the mode is not common encryption); its block then has the composer's fixed width; a failure reports the exception the code meets first: the missing processor, or the null chained task when the older composer finds its encoder under common encryption |
| Composition.KeyTasksError | WAMS.Web/WAMS/MediaServicesAPI.cs:252-320 | a walk over well-keyed entries with an assigned key whose block is impossible fails with that block's exception |
| Composition.BlockContents | WAMS.Web/WAMS/MediaServicesAPI.cs:252-320 | a block opens with the key's encode task; the protection's extra task reads it second; the older composer closes it with a thumbnail |
| Composition.KeyTasksAreBlocks | WAMS.MediaLib/MediaServicesAPI.cs:161-237 | a walk over the keys that succeeds composes exactly the blocks of the assigned keys, one after another |
| Composition.BlocksAt | WAMS.MediaLib/MediaServicesAPI.cs:161-237 | the tasks of the i-th assigned key sit at that key's slot |
| Composition.CreateEncodingJob | WAMS.MediaLib/MediaServicesAPI.cs:161-237 | the job succeeds exactly when the processors are known, every key has a ';' and some key is assigned; it is named after the asset and ends with a thumbnail task named after the first assigned key |
| Composition.LegacyCreateEncodingJob | WAMS.Web/WAMS/MediaServicesAPI.cs:252-320 | the job succeeds exactly when the processor is known, every key has a ';', and the protection's block is possible if any key is assigned; it is named after the asset and holds the keys' blocks; common encryption with an assigned key fails with a null reference when the encoder is known and with the missing-element error otherwise |
| Composition.KeyTasksAt | WAMS.Web/WAMS/MediaServicesAPI.cs:591-653 | in both composers, each assigned key's encode task is at its slot, the protection's extra task reads it next, and the older composer ends the block with a thumbnail |
| Composition.EncodingJobTasksAt | WAMS.MediaLib/MediaServicesAPI.cs:500-564 | in the library's job, each assigned key's encode task is at its slot, with room for its block and the thumbnail task after it |
| Composition.EncodingJobExtraTaskAt | WAMS.MediaLib/MediaServicesAPI.cs:500-564 | in the library's job, with envelope or storage protection, the extra task comes right after each assigned key's encode task |
| Composition.ThumbnailTask | WAMS.MediaLib/MediaServicesAPI.cs:289-314 | `CreateThumbnailTask` adds an encoder task and an unencrypted output, both named after the given task with ";Thumbnails" appended, using the thumbnail configuration on the ingested asset itself |
| Composition.CreateThumbnailJob | WAMS.MediaLib/MediaServicesAPI.cs:248-278 | the job and its one task are both named `asset + ";Thumbnails"` and read the asset itself |
| Composition.ThumbnailJobIsThumbnailTask | WAMS.MediaLib/MediaServicesAPI.cs:248-315 | the stand-alone thumbnail job runs exactly the task that `CreateThumbnailTask` adds |
| Composition.JobChained | WAMS.MediaLib/MediaServicesAPI.cs:161-237 | in both composers, every task reads either the asset or the output of the task just before it |
| Publication.AssetTypeOf | WAMS.MediaLib/MediaServicesAPI.cs:720-735 | Smooth Streaming when a name contains ".ismv"; otherwise multi-bitrate when one contains ".ism"; otherwise single |
| Publication.SingleBitrateIffNoManifest | WAMS.MediaLib/MediaServicesAPI.cs:720-735 | an asset is single-bitrate exactly when no file name mentions ".ism" |
| Publication.RemoveFirst | WAMS.MediaLib/MediaServicesAPI.cs:604-711 | `Remove` leaves a list without the value unchanged, and otherwise drops exactly one element |
| Publication.ExcludedTable | WAMS.MediaLib/MediaServicesAPI.cs:604-711 | the excluded extension lists of each asset type and entry kind |
| Publication.ScanFiles | WAMS.MediaLib/MediaServicesAPI.cs:739-767 | the file loop lands on the last name that the filter keeps |
| Publication.AppendToPath | WAMS.MediaLib/MediaServicesAPI.cs:779-783 | `UriBuilder.Path +=` keeps the locator's path, puts the suffix right after it, and keeps the query after that |
| Publication.BuildFileSasUrl | WAMS.MediaLib/MediaServicesAPI.cs:772-784 | a ".ism" file (in any case) gets `file + "/manifest"` after the path; any other file gets the older builder's URL |
| Publication.LegacyBuildFileSasUrl | WAMS.Web/WAMS/MediaServicesAPI.cs:829-838 | the locator's path, then '/', then the file, then the locator's query |
| Publication.AppendToPathInverse | WAMS.MediaLib/MediaServicesAPI.cs:772-784 | taking the suffix back out of the URL gives the locator path |
| Publication.BuildersAgreeOffManifests | WAMS.Web/WAMS/MediaServicesAPI.cs:829-839 | the two URL builders agree on every file except ".ism" manifests |
| Publication.CreateAssetUrl | WAMS.MediaLib/MediaServicesAPI.cs:739-767 | the URL of the last non-excluded file, from the asset's files or else from the container listing; empty when every file is excluded |
| Publication.ThumbnailIndex | WAMS.MediaLib/MediaServicesAPI.cs:606-612 | the thumbnail asset is the first output whose name contains "Thumbnails" |
| Publication.AssetEntries | WAMS.MediaLib/MediaServicesAPI.cs:620-700 | an output's entries exist exactly when the locators its type needs exist, and are keyed by the type's keys in order |
| Publication.AssetEntriesUrls | WAMS.MediaLib/MediaServicesAPI.cs:620-700 | SAS entries link through the SAS locator and origin entries through the on-demand origin, each with its own excluded list |
| Publication.AddAll | WAMS.MediaLib/MediaServicesAPI.cs:604-711 | adding entries succeeds exactly when the keys stay distinct, and then appends them in order |
| Publication.GetUrls | WAMS.MediaLib/MediaServicesAPI.cs:604-711 | the dictionary has distinct keys and is what the loop publishes; the call succeeds exactly when every publishing step yields its entries and the published keys are distinct |
| Publication.Collect | WAMS.MediaLib/MediaServicesAPI.cs:604-711 | the loop from a step on succeeds exactly when every later step yields its entries and the keys stay distinct, and then appends them in order |
| Publication.GetUrlsSucceedsIff | WAMS.MediaLib/MediaServicesAPI.cs:604-711 | in terms of the outputs: success exactly when every non-thumbnail output has a thumbnail asset beside it and yields its entries, and the published keys are distinct |
| Publication.GetUrlsOk | WAMS.MediaLib/MediaServicesAPI.cs:604-711 | a dictionary is returned only when there is a thumbnail asset and every other output yields its entries |
| Publication.GetUrlsFrom | WAMS.MediaLib/MediaServicesAPI.cs:604-711 | every dictionary entry was added by the entries of an output other than the thumbnail asset |
| Publication.GetUrlsContains | WAMS.MediaLib/MediaServicesAPI.cs:604-711 | every entry of every non-thumbnail output is in the dictionary |
| Publication.KeyTaskId | WAMS.MediaLib/MediaServicesAPI.cs:643-659 | a published key split at ';' gives the output's id back, except for the single-bitrate key, which has no ';' |
| Publication.CreateAssetSasUrl | WAMS.Web/WAMS/MediaServicesAPI.cs:790-824 | the URL of the last file whose name does not contain "metadata"; empty when there is none |
| Publication.LegacyAssetUrl | WAMS.Web/WAMS/MediaServicesAPI.cs:95-174 | a URL needs a SAS locator; a manifest output gets the SAS path, the manifest name and "/manifest"; any other output gets its last non-metadata file's URL |
| Publication.LegacyGetUrls | WAMS.Web/WAMS/MediaServicesAPI.cs:95-174 | one (id, URL) pair per output named like the job, in order, with distinct ids; it succeeds exactly when each such output has a SAS locator and no two share an id |
| Publication.LegacyUrls | WAMS.Web/WAMS/MediaServicesAPI.cs:95-174 | the loop over the selected outputs pairs each id with that output's URL, and succeeds exactly when each has a SAS locator and the ids are distinct |
| Publication.LegacyAddUrls | WAMS.Web/WAMS/MediaServicesAPI.cs:95-174 | `Dictionary.Add` per output succeeds exactly when every URL was found and every id is new, and then appends the pairs in order |
| Publication.TempContainer | WAMS.MediaLib/MediaServicesAPI.cs:341 | the temporary container is the locator path up to, not including, the first '?' |
| Publication.IngestAsset | WAMS.MediaLib/MediaServicesAPI.cs:327-388 | an empty source blob is rejected before anything is copied; otherwise the temporary container is returned |
| Publication.TraceConfigCaseInsensitive | WAMS.MediaLib/MediaServicesAPI.cs:72-76 | tracing is read case-insensitively, and exactly "on" and "true" switch it on |
| MediaJob.NewJob | WAMS.MediaLib/MediaJob.cs:57-72 | a new job has nothing ingested, no jobs, is not completed, and starts Initialized |
| MediaJob.UpdateMediaState | WAMS.MediaLib/MediaJob.cs:185-201 | failures give Canceled, finished gives Processed, waiting gives Queued, and processing keeps the job's state |
| MediaJob.UpdateIgnoresHistory | WAMS.MediaLib/MediaJob.cs:185-201 | every remote state except processing leads to the same state whatever the job's history |
| MediaJob.UpdateIdempotent | WAMS.MediaLib/MediaJob.cs:185-201 | reporting the same remote state twice changes nothing the second time |
| MediaJob.AssetIngested | WAMS.MediaLib/MediaJob.cs:81-90 | after the ingest callback the asset is stored, and the event and the job both say Ingested |
| MediaJob.JobStateChanged | WAMS.MediaLib/MediaJob.cs:145-163 | the event carries exactly the stored state, and nothing else about the job changes |
| MediaJob.CompletionIsSticky | WAMS.MediaLib/MediaJob.cs:131-163 | a completed job stays completed through state changes and repeated task completion |
| MediaJob.CreateJob | WAMS.MediaLib/MediaJob.cs:99-107 | without an ingested asset the call throws; otherwise the composed job is returned and stored |
| MediaJob.CreateThumbnailJob | WAMS.MediaLib/MediaJob.cs:115-122 | the call succeeds exactly when the asset is ingested and the encoder is known; the missing encoder is reported before the missing asset; the thumbnail job is stored, but the encoding job is what is returned |
| MediaJob.ThumbnailJobNotReturned | WAMS.MediaLib/MediaJob.cs:115-122 | the job returned is never the thumbnail job just made |
| MediaJob.Publish | WAMS.MediaLib/MediaJob.cs:171-178 | without a job, publishing throws; otherwise it gives `GetUrls` of the job's outputs |
| Controller.NewController | WAMS.MediaLib/MediaController.cs:48-71 | a new controller is Initialized and not dirty, with no jobs, no collection and no files, over the given store |
| Controller.Init | WAMS.MediaLib/MediaController.cs:65-71 | the per-batch lists are emptied and the state is Initialized; the jobs and the collection of the last batch are kept |
| Controller.Reset | WAMS.MediaLib/MediaController.cs:103-111 | only a Ready or Canceled controller drops its encoders, files and collection, and the state never changes |
| Controller.CreateMediaJobs | WAMS.MediaLib/MediaController.cs:117-145 | one new job per file is appended after the jobs of earlier batches |
| Controller.OnAssetIngested | WAMS.MediaLib/MediaController.cs:123-132 | job i is Ingested with its asset, the other jobs are unchanged, and the controller is Ingested or keeps its state |
| Controller.IngestedWhenAllIngested | WAMS.MediaLib/MediaController.cs:123-132 | with one batch of jobs, the controller is Ingested exactly when every job has been ingested |
| Controller.StaleJobsCount | WAMS.MediaLib/MediaController.cs:117-145 | a stale Ingested job from an earlier batch makes the controller Ingested while a file of the new batch is not |
| Controller.AdoptAggregates | WAMS.MediaLib/MediaController.cs:382-384 | the controller takes the event's state exactly when all jobs share it, and otherwise keeps its state |
| Controller.UpdateStatus | WAMS.MediaLib/MediaController.cs:540-556 | a key without ';' fails with an index error; a missing record leaves the controller as it was; a found record is rewritten with the status and time, and the dirty flag is set exactly then |
| Controller.UpdateStatusVisible | WAMS.MediaLib/MediaController.cs:540-556 | a successful status update on an existing record is visible to the next read |
| Controller.OnJobStateChanged | WAMS.MediaLib/MediaController.cs:370-395 | the jobs and the state change as the job events decide, and beyond that only the store and the dirty flag change; a run without failure met only keys containing ';' |
| Controller.UpdateEachSplits | WAMS.MediaLib/MediaController.cs:389-393 | a run of updates without a failure met only keys containing ';' |
| Controller.UpdateStatusInTable | WAMS.MediaLib/MediaController.cs:540-556 | in the table, an update keeps the stored keys, stamps the named record, and leaves every other record's status |
| Controller.UpdateEachStamps | WAMS.MediaLib/MediaController.cs:389-393 | after a run of updates without failure, every record it found carries the new status |
| Controller.OnJobTaskDone | WAMS.MediaLib/MediaJob.cs:131-138 | job i is completed, and nothing else changes |
| Controller.RecordEncoders | WAMS.MediaLib/MediaController.cs:158-217 | a file always gets at least one record, and one per chosen preset when presets were chosen |
| Controller.FileSlotsAt | WAMS.MediaLib/MediaController.cs:158-217 | record j of a file is its j-th encoder, numbered n+j; only the last encoder's record ends the file |
| Controller.PlanLength | WAMS.MediaLib/MediaController.cs:158-217 | a batch has one record per file and encoder |
| Controller.PlanAt | WAMS.MediaLib/MediaController.cs:158-217 | record k*|encoders|+j of a batch is file k with encoder j |
| Controller.PlanNumbers | WAMS.MediaLib/MediaController.cs:158-217 | the records of a batch are numbered consecutively |
| Controller.PlanEndsAFile | WAMS.MediaLib/MediaController.cs:158-217 | a batch has a record that ends a file exactly when it has a file, given at least one encoder |
| Controller.AddEntry | WAMS.MediaLib/MediaController.cs:180-210 | a record enters exactly when its expiry is representable, the store accepts its keys and its key is new, and its entry is then appended; a file's last record sets Created; an unrepresentable expiry or a refused key stores nothing; the only errors are a duplicate key, an expiry out of range and the store's refusal |
| Controller.StorableIffTitleValid | WAMS.MediaLib/MediaController.cs:180-200 | with a GUID from the clock, the table refuses a record exactly when its title holds a forbidden key character |
| Controller.EnterSlots | WAMS.MediaLib/MediaController.cs:158-217 | the records enter in order, and when none throws, the collection gains exactly their entries; the only errors are those of `AddEntry` |
| Controller.CreateMediaEntries | WAMS.MediaLib/MediaController.cs:158-217 | on the client message the collection is exactly the planned entries; otherwise the logged message is a duplicate-key, out-of-range or key-refused error; the state stays or becomes Created, and only the store, collection and message change |
| Controller.CreateMediaEntriesMarksCreated | WAMS.MediaLib/MediaController.cs:158-217 | after success the state is Created, unless there were no files |
| Controller.UniqueAppend | WAMS.MediaLib/MediaController.cs:199-203 | appending an entry keeps the keys unique exactly when its key is new |
| Controller.EnterSlotsSucceeds | WAMS.MediaLib/MediaController.cs:158-217 | entering the records succeeds exactly when the keys stay unique, every expiry is representable and the store accepts every key |
| Controller.CreateMediaEntriesSucceeds | WAMS.MediaLib/MediaController.cs:158-217 | the client message comes back exactly when all planned keys differ, every planned expiry is representable and the store accepts every planned key |
| Controller.ContainersAt | WAMS.MediaLib/MediaController.cs:228-258 | the container recorded for job m is that job's upload path without the query |
| Controller.IngestFrom | WAMS.MediaLib/MediaController.cs:228-258 | jobs are ingested in order, each recording its container, and the first empty source stops the run |
| Controller.ProcessMedia | WAMS.MediaLib/MediaController.cs:228-258 | success is exactly every source being non-empty, and then every job's container is recorded in job order; an empty source cancels and is logged |
| Controller.SubmitFrom | WAMS.MediaLib/MediaController.cs:266-360 | jobs are submitted in order; a run without failure has given each job an encoding job named after its asset |
| Controller.BeginEncoding | WAMS.MediaLib/MediaController.cs:266-360 | success leaves the controller Started and every job holding an encoding job named after its ingested asset; any failure cancels; nothing but the jobs' encoding jobs, the store and the flags changes |
| Controller.BeginEncodingNeedsAssets | WAMS.MediaLib/MediaController.cs:266-360 | a job that was never ingested makes `BeginEncoding` cancel |
| Controller.BeginEncodingNeedsKeys | WAMS.MediaLib/MediaController.cs:266-360 | a collection key without ';' fails before any job is composed, and that failure is logged |
| Controller.OwnerTask | WAMS.MediaLib/MediaController.cs:412-425 | a task is found exactly when the outcome names a producing task within the job, and it is one of the job's tasks |
| Controller.WriteRecord | WAMS.MediaLib/MediaController.cs:440-480 | a record already written in this run is cloned under a fresh row key from the clock, and a clone the store refuses fails; otherwise it is updated in place; a row key written twice fails |
| Controller.HarvestEntry | WAMS.MediaLib/MediaController.cs:412-485 | a URL no task produced only sets the flags; a task name without ';' changes nothing; the flags never go back; without failure the result flag is set exactly when it was, a record was written, or no task produced the URL |
| Controller.HarvestEntries | WAMS.MediaLib/MediaController.cs:412-485 | over a job's URLs without failure, the result flag is set exactly when it was, a record was written, or some URL had no producing task |
| Controller.HarvestJobs | WAMS.MediaLib/MediaController.cs:401-496 | the result flag never goes back; with no completed job nothing changes; without failure the flag is set exactly when it was, a record was written, or a completed job published a URL no task produced |
| Controller.GetJobResults | WAMS.MediaLib/MediaController.cs:401-496 | the controller ends as `Init` leaves it, holding the store the harvest wrote; a failure returns false and logs its message; otherwise the result is true exactly when a record was written or a published URL had no producing task, and only when some job completed |
| Controller.GetJobResultsNothingCompleted | WAMS.MediaLib/MediaController.cs:401-496 | with no completed job, the store is untouched and the result is false |
| Controller.WriteRecordUpdates | WAMS.MediaLib/MediaController.cs:440-480 | a first write updates the record in place, so the next read finds the job's status and URL |
| Controller.WriteRecordClones | WAMS.MediaLib/MediaController.cs:440-480 | a second write adds a copy under a fresh row key, which reads back with the job's status and URL |
| Controller.HarvestEntryPublishes | WAMS.MediaLib/MediaController.cs:440-480 | a URL harvested for a stored record is readable afterwards: the record itself carries the URL and the job's status, or on a repeat its clone under the fresh row key does |
| Legacy.NewMedia | WAMS.Web/WAMS/Media.cs:83-102 | a new media object is Ready, with no files, no collection, no jobs, no published assets and no access policy, over the given table |
| Legacy.Init | WAMS.Web/WAMS/Media.cs:96-102 | the file and encoder lists are emptied and the state is Ready |
| Legacy.CreateMediaChannel | WAMS.Web/WAMS/Media.cs:138-153 | the published-asset list starts empty and the state is Ready |
| Legacy.SetAccessPolicy | WAMS.Web/WAMS/Media.cs:237-243 | the default read policy lasts one day, in ticks |
| Legacy.Reset | WAMS.Web/WAMS/Media.cs:123-133 | only in Ready or Canceled are the encoders, locators, SAS URLs, files and collection dropped |
| Legacy.ResetsAgree | WAMS.Web/WAMS/Media.cs:123-133 | the two orchestrators reset the same lists in the same states |
| Legacy.UpdateMediaState | WAMS.Web/WAMS/Media.cs:894-918 | failures cancel, finished makes the orchestrator Ready, processing makes it Processed, and waiting queues it |
| Legacy.MappingsCompared | WAMS.Web/WAMS/Media.cs:894-918 | the two mappings agree on failures and queueing, and differ on finished and processing |
| Legacy.Throttle | WAMS.Web/WAMS/MediaServicesAPI.cs:544-556 | an event is forwarded exactly when it is past 4% and more than 5 points above the last forwarded one |
| Legacy.Forwarded | WAMS.Web/WAMS/MediaServicesAPI.cs:544-556 | every forwarded value came from the events, is past 4%, and is more than 5 points above the one forwarded before it |
| Legacy.SharedThrottleSilencesLaterFiles | WAMS.Web/WAMS/MediaServicesAPI.cs:27 | one counter serves every file, so after p is forwarded, a later file's events at p+5 or below are never forwarded |
| Legacy.IsProgressMatch | WAMS.Web/WAMS/Media.cs:708-718 | a status without '%' always matches; otherwise the number before '%' must parse and be below the new progress |
| Legacy.UploadedPrefix | WAMS.Web/WAMS/Media.cs:173 | the number in front of "% Uploaded" is the progress that was written |
| Legacy.ProgressNeverMovesBackwards | WAMS.Web/WAMS/Media.cs:156-180 | once a record says p%, a later event matches it exactly when its progress is above p |
| Legacy.UploadTarget | WAMS.Web/WAMS/Media.cs:163-179 | the key found is the first, from i on, whose record the handler updates, and none is found only when no key is hit; when every key of the title has a ';' nothing throws |
| Legacy.OnUploadStatus | WAMS.Web/WAMS/Media.cs:156-183 | only the table changes, with the same keys, and any record that changed now says "{p}% Uploaded"; a path with refused characters or a key without ';' throws before any write; otherwise, with well-keyed records, the handler always ends in the null reference of raising Media's own unsubscribed event, after the write |
| Legacy.UploadChangesAtMostOneRecord | WAMS.Web/WAMS/Media.cs:163-179 | the upload handler updates at most one record |
| Legacy.Stamp | WAMS.Web/WAMS/Media.cs:726-738 | a key without ';' throws; otherwise the keys are kept, the named record (if present) takes the new status, and every other record is unchanged |
| Legacy.StampAll | WAMS.Web/WAMS/Media.cs:726-738 | the keys are kept, and each record is unchanged or stamped; a record no key names is unchanged; the run succeeds exactly when every key has a ';' (else it throws the index error), and then each named record is stamped or absent |
| Legacy.OnMediaProcessStatus | WAMS.Web/WAMS/Media.cs:191-213 | the state is set from the arguments' `JobState`, which their constructor never assigns, so always as for Queued; the records naming a task of the job take the job's status text and no other record changes; with well-keyed records the handler ends in the null reference of raising Media's own unsubscribed event exactly when every key has a ';' |
| Legacy.ProcessStatusIgnoresJobState | WAMS.Web/WAMS/MediaServicesAPI.cs:1006-1050 | whatever state the job is in, the status handler leaves the media Queued |
| Legacy.StateChanged | WAMS.Web/WAMS/Media.cs:428-465 | the media is unchanged; exactly canceling, queued, scheduled and processing raise the media's own status event, carrying the job and its state; the other states are only logged |
| Legacy.JobEventsLeaveMediaUnchanged | WAMS.Web/WAMS/Media.cs:428-465 | after any run of job events the media is as it was, and the notices raised are the job with each non-terminal state, in order |
| Legacy.AddEntry | WAMS.Web/WAMS/Media.cs:647-704 | a missing access policy, an expiry past the calendar, a key the table refuses or a repeated key throws; a record enters exactly when none of these happens; once the policy, the expiry and the keys pass, the table is the insert of the record (also when the key then proves repeated), and no other record changes |
| Legacy.CreateMediaEntries | WAMS.Web/WAMS/Media.cs:647-704 | on the client message the collection is exactly the planned entries; the state stays or becomes Created; only the table, the collection and the state change |
| Legacy.EnterRecord | WAMS.Web/WAMS/Media.cs:682-688 | the record is saved and its key collected exactly when the table accepts its keys and the key is not yet collected; a refused key changes nothing, a repeated key throws after the save; no other record changes |
| Legacy.CreateMediaEntriesEnters | WAMS.Web/WAMS/Media.cs:647-704 | the client message comes back exactly when entering the planned records into the cleared collection succeeds; the table, the collection and the state are that run's |
| Legacy.EnterFreshSucceeds | WAMS.Web/WAMS/Media.cs:650-690 | entering records into the cleared collection succeeds exactly when there are none, or there is an access policy, the keys are unique, every expiry is representable and the table accepts every key |
| Legacy.EnterSlotsStores | WAMS.Web/WAMS/Media.cs:647-704 | after a run of records succeeds, every one of them is stored under its key, and records whose keys were already collected are unchanged |
| Legacy.EnterSlotsSucceeds | WAMS.Web/WAMS/Media.cs:647-704 | a run of records succeeds exactly when it is empty, or there is an access policy, the keys stay unique, every expiry is representable and the table accepts every key |
| Legacy.CreateMediaEntriesStores | WAMS.Web/WAMS/Media.cs:647-704 | on the client message, the i-th collected key names the i-th planned record, and the table holds that record under it |
| Legacy.CreateMediaEntriesSucceeds | WAMS.Web/WAMS/Media.cs:647-704 | the client message comes back exactly when nothing is planned, or there is an access policy and the planned keys are unique, representable and accepted |
| Legacy.CreateMediaEntriesMarksCreated | WAMS.Web/WAMS/Media.cs:647-704 | after success the state is Created, unless there were no files |
| Legacy.EntriesNeedAPolicy | WAMS.Web/WAMS/Media.cs:647-704 | with no access policy the first record fails: nothing is stored and the collection stays empty |
| Legacy.ProcessMedia | WAMS.Web/WAMS/Media.cs:560-607 | every file's temporary container is recorded in file order, and the state becomes Started |
| Legacy.OnAssetPublished | WAMS.Web/WAMS/Media.cs:184-188 | the published asset is appended to the ingested assets |
| Legacy.WaitMediaDataAsync | WAMS.Web/WAMS/Media.cs:613-639 | the work item is queued exactly for a Started orchestrator with published assets, and the caller waits exactly in Created |
| Legacy.ProcessedBatchNeverWaits | WAMS.Web/WAMS/Media.cs:560-639 | right after `ProcessMedia` the caller never waits, and work is queued exactly when an asset was published |
| Legacy.BeginEncoding | WAMS.Web/WAMS/Media.cs:348-420 | success leaves the orchestrator Ingested with one job per published asset, named after it; a failure cancels, with the failure prefix; the stored keys never change, and with well-keyed records a record named neither by the collection nor by a job's first task is unchanged |
| Legacy.StampFirstTasks | WAMS.Web/WAMS/Media.cs:388-400 | each job's first task record takes the Queued status text, a job without tasks throws, and a record no first task names is unchanged |
| Legacy.EncodingStampsEveryRecord | WAMS.Web/WAMS/Media.cs:348-420 | after success every record of the batch says "100% Uploaded", or Queued when it names a job's first task |
| Legacy.ProducerKey | WAMS.Web/WAMS/Media.cs:495-500 | a success names a producing task within the job, and the keys are that task's name split at ';' |
| Legacy.HarvestUrls | WAMS.Web/WAMS/Media.cs:490-515 | the stored keys are kept and the found flag never goes back; with no failure it is true exactly when it was already, or some published asset updates a record |
| Legacy.HarvestJobs | WAMS.Web/WAMS/Media.cs:472-527 | with no failure, the flag says whether some job updated a record |
| Legacy.GetJobResults | WAMS.Web/WAMS/Media.cs:472-527 | the SAS list is emptied and the state is kept or becomes Canceled; the result is true only when some job updates a record, and exactly then unless canceled |
| Legacy.EncodingWorkItem | WAMS.Web/WAMS/Media.cs:623-632 | the work item ends Ready exactly when encoding began and a record was updated, and Canceled otherwise |
| ClientProtocol.JsSubstring | WAMS.Web/Scripts/main.js:285 | in-range arguments give the slice, and both ends at or below zero give the empty string |
| ClientProtocol.PresetToString | WAMS.Web/Scripts/main.js:280-286 | an empty selection serialises to the empty string |
| ClientProtocol.PresetToStringIsJoin | WAMS.Web/Scripts/main.js:280-286 | with a one-character delimiter, the serialisation is the ids joined by it |
| ClientProtocol.GetEncodingPresets | WAMS.Web/Controllers/HomeController.cs:646-651 | a null delimiter or null presets throw a null reference, an empty delimiter an index error; otherwise at least one preset, and joining them with the delimiter's first character gives the posted text back |
| ClientProtocol.PostedPresetsFailOnlyOnNull | WAMS.Web/Controllers/HomeController.cs:646-651 | posted form fields reach the split as null exactly when empty, so the split fails exactly on an empty field, with a null reference |
| ClientProtocol.GetServerData | WAMS.Web/Scripts/main.js:258-268 | the delimiter sent is ';', the other fields pass through, and a non-empty selection is sent as the ids joined by ';' |
| ClientProtocol.PresetsRoundTrip | WAMS.Web/Scripts/main.js:258-286 | the server reads back exactly the selected ids, when there is at least one, none contains ';', and the selection is not the single empty id |
| ClientProtocol.EmptySelectionIsNull | WAMS.Web/Scripts/main.js:280-286 | an empty selection posts an empty field, which the server receives as null, so the split throws a null reference |
| ClientProtocol.DelimiterInIdSplitsIt | WAMS.Web/Controllers/HomeController.cs:646-651 | an id containing the delimiter is split apart, so the server sees more presets than were selected |
| ClientProtocol.DisplaySelectedProtection | WAMS.Web/Scripts/main.js:297-310 | a label is shown exactly for modes 0 to 3 |
| ClientProtocol.ProtectionLevel | WAMS.Web/Controllers/HomeController.cs:607-634 | "1", "2" and "3" select storage, common and envelope encryption; anything else selects none |
| ClientProtocol.LabelsAgreeWithServerChoice | WAMS.Web/Scripts/main.js:297-310 | the browser's label for a mode and the server's choice for its code describe the same protection |
| ClientProtocol.DisplayLabelsDistinct | WAMS.Web/Scripts/main.js:297-310 | distinct modes show distinct labels |
| DateSort.Asc | WAMS.Web/Scripts/dataTables/dataTablesSort.js:1-5 | the comparator answers -1 exactly when x is earlier, 1 exactly when it is later, and otherwise 0, with unparsable dates comparing as neither |
| DateSort.DescIsNegatedAsc | WAMS.Web/Scripts/dataTables/dataTablesSort.js:1-12 | for every pair, the descending order is the ascending order negated |
| DateSort.AscAntisymmetricReflexive | WAMS.Web/Scripts/dataTables/dataTablesSort.js:1-5 | swapping the arguments negates the result, and a string compares equal to itself |
| DateSort.AscTransitiveOnValidDates | WAMS.Web/Scripts/dataTables/dataTablesSort.js:1-5 | on valid dates the comparator orders by time value, transitively |
| DateSort.InvalidDateBreaksTransitivity | WAMS.Web/Scripts/dataTables/dataTablesSort.js:1-5 | an invalid date compares equal to every date, so "equal" is not transitive |
| Driver.SummaryStatesCount | WAMS.Web/Controllers/HomeController.cs:571-600 | the summary's third word is the in-progress count, and the verb agrees with it |
| Driver.ConstructJsonResult | WAMS.Web/Controllers/HomeController.cs:571-600 | a refreshing reply takes the progress interval when records are in progress and the default otherwise, ignoring the interval passed; a null message becomes "" exactly when there is no refresh or nothing is in progress |
| Driver.Initialize | WAMS.Web/Controllers/HomeController.cs:88-99 | the fresh controller is Initialized with nothing pending, on the table store with the same tables, and keeps `LastMessage` |
| Driver.UpdateData | WAMS.Web/Controllers/HomeController.cs:499-561 | every reply is a refresh at one of the two poll intervals, and a controller exists afterwards exactly when it did before |
| Driver.TickWithoutSession | WAMS.Web/Controllers/HomeController.cs:499-561 | without a controller, every tick reports an expired session and changes nothing |
| Driver.TickInReady | WAMS.Web/Controllers/HomeController.cs:499-561 | in Ready a tick creates the jobs and entries and reports their result, refreshing the table |
| Driver.TickWhileIngesting | WAMS.Web/Controllers/HomeController.cs:499-561 | while ingesting, a tick changes nothing and asks to be polled at the progress rate |
| Driver.TickFailureCancels | WAMS.Web/Controllers/HomeController.cs:499-561 | a failed ingest or submission is reported with the last message and leaves the controller Canceled |
| Driver.DirtyHandshake | WAMS.Web/Controllers/HomeController.cs:499-561 | while jobs run, a tick reports the dirty flag and clears it, so a second tick with no event asks for no refresh |
| Driver.TickHarvests | WAMS.Web/Controllers/HomeController.cs:499-561 | harvesting always leaves the controller Initialized, and the reply says the jobs finished exactly when a result was recorded |
| Driver.TickAfterCancel | WAMS.Web/Controllers/HomeController.cs:499-561 | after a cancellation, the next tick starts over with a fresh controller and reports the failure |
| Driver.FailedIngestRecovers | WAMS.Web/Controllers/HomeController.cs:499-561 | a failed ingest is followed, one tick later, by a fresh controller: no failure leaves the session stuck |
| Driver.TickWhenIdle | WAMS.Web/Controllers/HomeController.cs:499-561 | Initialized and InProcess are idle: a tick changes nothing and asks for no refresh |
| Driver.TasksDelayNeverSent | WAMS.Web/Controllers/HomeController.cs:499-600 | the interval passed in Ready never reaches the client |
| Driver.SetProtectionLevel | WAMS.Web/Controllers/HomeController.cs:607-634 | without a controller the reply is the expired notice; otherwise the chosen protection is stored and the reply is "" |
| Driver.BeginEncoding | WAMS.Web/Controllers/HomeController.cs:455-491 | the presets split at the delimiter's first character become the encoders; the processor and protection are stored; the expiry is the posted date minus now, or one day; the controller is Ready; empty presets or delimiter, or a missing controller, give a null reference, the split being evaluated first, and nothing is stored |
| Driver.BrowserSelectionArmsEncoders | WAMS.Web/Controllers/HomeController.cs:455-491 | a non-empty selection of ids without ';' arms the controller with exactly those ids, and the next tick turns them into records |
| Driver.EmptySelectionArmsNothing | WAMS.Web/Controllers/HomeController.cs:455-491 | the request for an empty selection is answered with a null reference and leaves the session as it was |

## Left out

- Remote effects are not modelled:
  - `CleanTempBlobs`, `ChangeContentType` and `GetFileSize` (the file size is taken as 0);
  - the deletion of temporary containers;
  - blob copying and locator creation.
  These have no result the orchestrators read back, apart from the container names the model records.
- The Media Services SDK, blob storage and the HTTP layer are parameters. Remote answers are inputs indexed by job position.
- Concurrency is not modelled. Event handlers run under locks, and the work item of `WaitMediaDataAsync` runs on the thread pool. Handlers are modelled as sequential calls.
- The clock is not modelled. `DateTime.UtcNow`, ticks and processing times are inputs, and so are GUIDs.
- Logging (`WriteLog`, ELMAH) is reduced to the last logged message, at the catch sites that set it. The `#if ELMAH` debug logs are not modelled.
- Configuration is not read. `AppSettings`, connection strings and preset files are inputs.
- The Office 365 build and the Silverlight and Flash policy actions are not modelled.
- `GetEncoders` and the preset catalogues are not modelled; the catalogue is an input.
- The data-table paging and search of `DataHandler` are not modelled, nor is the HTML formatting of titles and thumbnails.
- `Legacy.IsProgressMatch`: `Double.TryParse` is modelled as a parse of decimal digits. Fractional, signed and localised numbers are not modelled.
- The `AssetStatusChanged` event of the older API is never raised by active code. `Legacy.OnAssetPublished` models its handler as a call.
- The unknown `JobState` default of the status switch is not modelled, because the SDK's enum has no other values.
- `Legacy.GetJobResults`: the processing time written is an `elapsed` parameter, not computed from the job's timestamps.
- `Legacy.EncodingWorkItem`: an exception escaping a thread-pool work item terminates the process in .NET 2.0 and later. The model ends such a run in Canceled and does not model the termination.
- `Driver.TickHarvests`: `LastMessage` is modelled as a string that is never null. Before the first logged failure the source's static is null, and a harvest that returns false then replies with the in-progress summary or ""; the model replies with the stored text. `Driver.ConstructJsonResult` itself models the null message.
- Commented-out code is not modelled. This includes the older API's calls to `CheckJobProgress`; the method itself is live but has no caller.
- `Legacy.OnMediaProcessStatus`: its event is raised only by the older API's `CheckJobProgress`, which nothing calls, so the handler is modelled as a call. The model takes the SDK's default `JobState` to be Queued, its first member.
- `Legacy.StateChanged`: the media's own `MediaProcessStatusChanged` event has no subscriber in the modelled files. Raising it with no subscriber would throw a null reference inside the SDK's callback; the model returns the notice instead.
- `Text.ToLower`: `ToLower` is culture-sensitive in .NET; the model maps ASCII letters only. `StartsWith` and `EndsWith` are modelled as ordinal comparisons, although the source's calls use the current culture.
- `Publication.AppendToPath`, `Publication.BuildFileSasUrl`, `Publication.LegacyBuildFileSasUrl`, `Publication.CreateAssetUrl`, `Publication.CreateAssetSasUrl`, `Publication.AppendToPathInverse`: `UriBuilder` escaping and `AbsoluteUri` normalisation are not modelled. URLs are plain concatenation, exact for names that need no escaping.
- `Driver.BeginEncoding`: an empty processor field binds to null in the source. The model stores "", which names no processor either.
- `Text.FileName`, `Text.Extension`, `Text.FileNameWithoutExtension`: these unchecked forms do not throw on the characters the .NET Framework refuses in a path. They are used where the names come from a finished upload, which already passed `Text.GetFileName` (see `Text.GetFileNameIdempotent`), or from blob URIs, whose `AbsolutePath` escapes those characters. The upload handler uses the checked forms.
- `TableStore.InsertOrReplace`: the table's 1 KiB limit on a key's size is not modelled, and neither is the 400 answer of a merge on a refused key. No refused key is ever stored, so such a merge finds no record and answers 404.
- `Uploads.Hash`: file names are never null in the model. A model with a null `FileName` would throw a null reference, and that case is not modelled.
