/** Chunked uploads (`FileUploaderController`) and the upload model with its
    name-based equality (`FileUploadModel`, `FileUploadModelComparer`). */
module Uploads {
  import opened Wrappers
  import opened Text
  import Base64
  import opened Runtime

  // ---------------------------------------------------------------------------
  // 32-bit integers
  // ---------------------------------------------------------------------------

  const Int32Min: int := -0x8000_0000
  const Int32Max: int := 0x7fff_ffff
  type int32 = x: int | Int32Min <= x <= Int32Max

  /** The unchecked 32-bit result of an integer computation: the value in range
      that is congruent modulo 2^32. */
  function Wrap32(x: int): (r: int32)
    ensures (r - x) % 0x1_0000_0000 == 0
    ensures Int32Min <= x <= Int32Max ==> r == x
  {
    var m := x % 0x1_0000_0000;
    if m > Int32Max then m - 0x1_0000_0000 else m
  }

  // ---------------------------------------------------------------------------
  // The upload model and its comparer
  // ---------------------------------------------------------------------------

  /** `UploadStatusMessage`: empty, or the `FailedToUploadFileMessage` resource
      formatted with a storage error or with the `SessonExpired` resource. */
  datatype UploadMessage = NoMessage | StorageFailure(reason: string) | SessionExpired

  /** `FileUploadModel` without the blob reference and the start time; the blob
      is the one named `fileName` in the upload container. */
  datatype FileUploadModel = FileUploadModel(
    fileName: string,
    blockCount: int,
    fileSize: int,
    isUploadCompleted: bool,
    message: UploadMessage)

  /** `FileUploadModelComparer.Equals`. */
  predicate SameName(x: FileUploadModel, y: FileUploadModel) {
    x.fileName == y.fileName
  }

  /** `FileUploadModel.Equals(object)`: another model is equal iff it has the same
      FileName; null is never equal. */
  function ModelEquals(self: FileUploadModel, other: Option<FileUploadModel>): (r: bool)
    ensures r <==> other.Some? && other.value.fileName == self.fileName
  {
    match other
    case None => false
    case Some(o) => SameName(self, o)
  }

  /** `Equals` is an equivalence on models: reflexive, symmetric, transitive. */
  lemma ModelEqualsIsEquivalence(x: FileUploadModel, y: FileUploadModel, z: FileUploadModel)
    ensures ModelEquals(x, Some(x))
    ensures ModelEquals(x, Some(y)) == ModelEquals(y, Some(x))
    ensures ModelEquals(x, Some(y)) && ModelEquals(y, Some(z)) ==> ModelEquals(x, Some(z))
    ensures ModelEquals(x, Some(y)) <==> SameName(x, y)
  {
  }

  /** `FileUploadModelComparer.GetHashCode`: 0 for a null model or an empty name,
      otherwise 89 * (first + length) + last + length in unchecked 32-bit
      arithmetic, characters being taken as their code. */
  function Hash(obj: Option<FileUploadModel>): (h: int32)
    ensures obj.None? || |obj.value.fileName| == 0 ==> h == 0
    ensures obj.Some? && |obj.value.fileName| > 0 ==>
      var s := obj.value.fileName;
      (h - (89 * (s[0] as int + |s|) + s[|s| - 1] as int + |s|)) % 0x1_0000_0000 == 0
  {
    match obj
    case None => 0
    case Some(m) =>
      var s := m.fileName;
      if |s| == 0 then 0 else Wrap32(89 * (s[0] as int + |s|) + s[|s| - 1] as int + |s|)
  }

  /** The comparer is consistent: models it calls equal get equal hashes. */
  lemma ComparerConsistent(x: FileUploadModel, y: FileUploadModel)
    requires SameName(x, y)
    ensures Hash(Some(x)) == Hash(Some(y))
  {
  }

  /** For names of UTF-16 code units up to twenty million characters long the
      hash never wraps: it is exactly 89 * (first + length) + last + length. */
  lemma HashWithoutOverflow(m: FileUploadModel)
    requires 0 < |m.fileName| <= 20_000_000
    requires forall k :: 0 <= k < |m.fileName| ==> m.fileName[k] as int <= 0xFFFF
    ensures var s := m.fileName;
      Hash(Some(m)) == 89 * (s[0] as int + |s|) + s[|s| - 1] as int + |s|
  {
    var s := m.fileName;
    assert s[0] as int <= 0xFFFF && s[|s| - 1] as int <= 0xFFFF;
    assert 89 * (s[0] as int + |s|) + s[|s| - 1] as int + |s| <= Int32Max;
  }

  /** `FileAssets.Contains(model, new FileUploadModelComparer())`. */
  predicate HasName(files: seq<FileUploadModel>, name: string) {
    exists i :: 0 <= i < |files| && files[i].fileName == name
  }

  /** No two entries share a FileName. */
  predicate UniqueNames(files: seq<FileUploadModel>) {
    forall i, j :: 0 <= i < j < |files| ==> files[i].fileName != files[j].fileName
  }

  /** The guarded `FileAssets.Add`: the model is appended only when no entry has
      its name. */
  function AddIfNew(files: seq<FileUploadModel>, m: FileUploadModel): (r: seq<FileUploadModel>)
    ensures HasName(files, m.fileName) ==> r == files
    ensures !HasName(files, m.fileName) ==> r == files + [m]
    ensures HasName(r, m.fileName)
    ensures UniqueNames(files) ==> UniqueNames(r)
  {
    if HasName(files, m.fileName) then files
    else
      assert (files + [m])[|files|] == m;
      files + [m]
  }

  // ---------------------------------------------------------------------------
  // Block ids
  // ---------------------------------------------------------------------------

  /** `string.Format("{0:D4}", n)`: a '-' for negative values, then the digits of
      the magnitude zero-padded to four. */
  function FormatD4(n: int): (r: string)
    ensures n >= 0 ==> r == PadDigits(n, 4)
    ensures n < 0 ==> r == "-" + PadDigits(-n, 4)
  {
    if n < 0 then "-" + PadDigits(-n, 4) else PadDigits(n, 4)
  }

  /** `Encoding.UTF8.GetBytes` of one character. */
  function Utf8Char(c: char): (r: seq<Base64.byte>)
    ensures 1 <= |r| <= 4
    ensures c as int < 0x80 ==> r == [c as int]
  {
    var n := c as int;
    if n < 0x80 then [n]
    else if n < 0x800 then [0xC0 + n / 64, 0x80 + n % 64]
    else if n < 0x1_0000 then [0xE0 + n / 4096, 0x80 + (n / 64) % 64, 0x80 + n % 64]
    else [0xF0 + n / 0x4_0000, 0x80 + (n / 4096) % 64, 0x80 + (n / 64) % 64, 0x80 + n % 64]
  }

  /** `Encoding.UTF8.GetBytes`. */
  function Utf8(s: string): (r: seq<Base64.byte>)
    ensures |r| >= |s|
  {
    if |s| == 0 then [] else Utf8Char(s[0]) + Utf8(s[1..])
  }

  predicate IsAscii(s: string) {
    forall i :: 0 <= i < |s| ==> s[i] as int < 0x80
  }

  /** On ASCII text UTF-8 is one byte per character, the character's code. */
  lemma {:induction false} Utf8Ascii(s: string)
    requires IsAscii(s)
    ensures |Utf8(s)| == |s|
    ensures forall i :: 0 <= i < |s| ==> Utf8(s)[i] == s[i] as int
    decreases |s|
  {
    if |s| > 0 {
      Utf8Ascii(s[1..]);
      assert Utf8(s) == [s[0] as int] + Utf8(s[1..]);
    }
  }

  /** Two ASCII strings with the same UTF-8 bytes are equal. */
  lemma Utf8AsciiInjective(s: string, t: string)
    requires IsAscii(s) && IsAscii(t) && Utf8(s) == Utf8(t)
    ensures s == t
  {
    Utf8Ascii(s);
    Utf8Ascii(t);
    assert |s| == |t|;
    forall i | 0 <= i < |s| ensures s[i] == t[i] {
      assert Utf8(s)[i] == Utf8(t)[i];
    }
  }

  /** The block id of chunk `n`: Base64 of the UTF-8 bytes of `{0:D4}`. */
  function BlockId(n: int32): (r: string)
    ensures |r| % 4 == 0 && |r| >= 8
  {
    var b := Utf8(FormatD4(n));
    assert |b| >= 4;
    Base64.Encode(b)
  }

  lemma FormatD4IsAscii(n: int)
    ensures IsAscii(FormatD4(n))
  {
    var r := FormatD4(n);
    var d := PadDigits(if n < 0 then -n else n, 4);
    forall i | 0 <= i < |r| ensures r[i] as int < 0x80 {
      if n < 0 && i > 0 {
        assert r[i] == d[i - 1] && IsDigit(d[i - 1]);
      } else if n >= 0 {
        assert IsDigit(d[i]);
      }
    }
  }

  /** The rendering starts with '-' exactly for negative values. */
  lemma FormatD4Sign(n: int)
    ensures FormatD4(n)[0] == '-' <==> n < 0
  {
    if n >= 0 {
      assert IsDigit(PadDigits(n, 4)[0]);
    }
  }

  lemma FormatD4Injective(m: int, n: int)
    requires FormatD4(m) == FormatD4(n)
    ensures m == n
  {
    FormatD4Sign(m);
    FormatD4Sign(n);
    if m < 0 {
      assert FormatD4(m)[1..] == PadDigits(-m, 4);
      assert FormatD4(n)[1..] == PadDigits(-n, 4);
      PadDigitsInjective(-m, -n, 4);
    } else {
      PadDigitsInjective(m, n, 4);
    }
  }

  /** Distinct chunk numbers have distinct block ids. */
  lemma BlockIdInjective(m: int32, n: int32)
    requires BlockId(m) == BlockId(n)
    ensures m == n
  {
    Base64.EncodeInjective(Utf8(FormatD4(m)), Utf8(FormatD4(n)));
    FormatD4IsAscii(m);
    FormatD4IsAscii(n);
    Utf8AsciiInjective(FormatD4(m), FormatD4(n));
    FormatD4Injective(m, n);
  }

  /** The block id decodes back to the padded chunk number. */
  lemma BlockIdDecodes(n: int32)
    ensures Base64.Decode(BlockId(n)) == Some(Utf8(FormatD4(n)))
  {
    Base64.DecodeEncode(Utf8(FormatD4(n)));
  }


  /** `Enumerable.Range(1, count)` mapped to block ids: the commit list. A
      negative count makes `Range` throw. */
  function BlockList(count: int32): (r: Result<seq<string>>)
    ensures r.Err? <==> count < 0
    ensures r.Ok? ==> |r.value| == count
    ensures r.Ok? ==> forall i :: 0 <= i < |r.value| ==> r.value[i] == BlockId(i + 1)
  {
    if count < 0 then Err(ArgumentOutOfRange) else Ok(seq(count, i requires 0 <= i < count => BlockId(i + 1)))
  }

  /** The ids in a commit list are pairwise distinct. */
  lemma BlockListDistinct(count: int32)
    requires count >= 0
    ensures var l := BlockList(count).value;
      forall i, j :: 0 <= i < j < |l| ==> l[i] != l[j]
  {
    var l := BlockList(count).value;
    forall i, j | 0 <= i < j < |l| ensures l[i] != l[j] {
      if l[i] == l[j] {
        BlockIdInjective(i + 1, j + 1);
      }
    }
  }

  // ---------------------------------------------------------------------------
  // The upload handler
  // ---------------------------------------------------------------------------

  /** The session and storage state the handler reads and writes. */
  datatype UploadState = UploadState(
    fileExist: Option<bool>,                      // Session["FileExist"]
    models: map<string, FileUploadModel>,         // Session["{FileAttributesSession}_{name}"], by name
    fileAssets: Option<seq<FileUploadModel>>,     // FileAssets of the session's MediaController, if any
    staged: map<string, seq<string>>,             // block ids put to each blob, in order
    committed: map<string, seq<string>>)          // committed block list of each existing blob

  /** The posted file: the name the browser sent and the chunk length. */
  datatype PostedFile = PostedFile(fileName: string, contentLength: int)

  /** The storage service's answers for this request: an error for `PutBlock`
      and one for `PutBlockList`, if they fail. */
  datatype StorageAnswers = StorageAnswers(putBlockError: Option<string>, putListError: Option<string>)

  /** `FileUploadStatus` as `UploadFileBlob` builds it. */
  datatype UploadStatus = UploadStatus(error: bool, isLastBlock: bool, message: UploadMessage)

  /** What a request leaves behind: the state, the text content returned, and
      the status `UploadFileBlob` computed (none when it was not called). */
  datatype UploadReply = UploadReply(state: UploadState, content: string, status: Option<UploadStatus>)

  const ZeroLength := "File Length cannot be zero!"
  const Success := "Success"

  function Stage(staged: map<string, seq<string>>, blob: string, id: string): map<string, seq<string>> {
    staged[blob := (if blob in staged then staged[blob] else []) + [id]]
  }

  /** `PrepareMetadata`: an existing blob marks the file as present and adds it
      to FileAssets (once per name); otherwise the new model is stored in the
      session under its name. Returns whether the blob exists. */
  function PrepareMetadata(st: UploadState, blockCount: int, fileName: string, fileSize: int): (r: (UploadState, bool))
    ensures r.1 <==> fileName in st.committed
    ensures r.1 ==> r.0.fileExist == Some(true) && r.0.models == st.models
    ensures !r.1 ==> r.0.fileExist == Some(false) && r.0.models == st.models[fileName := FileUploadModel(fileName, blockCount, fileSize, false, NoMessage)]
    ensures r.0.staged == st.staged && r.0.committed == st.committed
    ensures r.1 && st.fileAssets.Some? ==> r.0.fileAssets.Some? && HasName(r.0.fileAssets.value, fileName)
    ensures !r.1 ==> r.0.fileAssets == st.fileAssets
    ensures st.fileAssets.Some? && UniqueNames(st.fileAssets.value) ==> UniqueNames(r.0.fileAssets.value)
  {
    var m := FileUploadModel(fileName, blockCount, fileSize, false, NoMessage);
    if fileName in st.committed then
      var done := m.(isUploadCompleted := true);
      var assets := match st.fileAssets
        case None => None
        case Some(fa) => Some(AddIfNew(fa, done));
      (st.(fileExist := Some(true), fileAssets := assets), true)
    else
      (st.(models := st.models[fileName := m], fileExist := Some(false)), false)
  }

  /** `UploadFileBlob`: puts one block under the id of `chunkCount`; the chunk
      equal to the model's BlockCount commits ids 1..BlockCount and adds the
      model to FileAssets. A missing session model is reported as expired. */
  function UploadFileBlob(st: UploadState, f: PostedFile, chunkCount: int32, io: StorageAnswers): (r: Result<(UploadState, UploadStatus)>)
    ensures f.fileName !in st.models ==> r == Ok((st, UploadStatus(true, false, SessionExpired)))
    ensures r.Ok? && r.value.0.committed != st.committed ==>
      f.fileName in st.models && chunkCount == st.models[f.fileName].blockCount && chunkCount >= 0 &&
      r.value.0.committed == st.committed[st.models[f.fileName].fileName := BlockList(chunkCount).value]
    ensures r.Err? ==> f.fileName in st.models && chunkCount == st.models[f.fileName].blockCount && chunkCount < 0
    ensures r.Ok? && r.value.1.isLastBlock ==> f.fileName in st.models && chunkCount == st.models[f.fileName].blockCount
    ensures r.Ok? && st.fileAssets.Some? ==> r.value.0.fileAssets.Some?
    ensures r.Ok? && st.fileAssets.Some? && UniqueNames(st.fileAssets.value) ==> UniqueNames(r.value.0.fileAssets.value)
    ensures r.Ok? && st.fileAssets.None? ==> r.value.0.fileAssets.None?
  {
    if f.fileName !in st.models then Ok((st, UploadStatus(true, false, SessionExpired)))
    else
      var model := st.models[f.fileName];
      var id := BlockId(chunkCount);
      match io.putBlockError
      case Some(e) =>
        var failed := model.(isUploadCompleted := true, message := StorageFailure(e));
        Ok((st.(models := st.models[f.fileName := failed]), UploadStatus(true, false, failed.message)))
      case None =>
        var st1 := st.(staged := Stage(st.staged, model.fileName, id));
        if chunkCount != model.blockCount then Ok((st1, UploadStatus(false, false, NoMessage)))
        else
          var done := model.(isUploadCompleted := true);
          var list :- BlockList(chunkCount);
          match io.putListError
          case Some(e) =>
            var failed := done.(message := StorageFailure(e));
            Ok((st1.(models := st.models[f.fileName := failed]), UploadStatus(true, true, failed.message)))
          case None =>
            var assets := match st.fileAssets
              case None => None
              case Some(fa) => Some(AddIfNew(fa, done));
            Ok((st1.(models := st.models[f.fileName := done], committed := st.committed[model.fileName := list],
                     fileAssets := assets),
                UploadStatus(false, true, NoMessage)))
  }

  /** `Upload(chunk, chunks)`: rejects an empty chunk; takes the file name
      (a name with a character the .NET Framework refuses in a path throws);
      on the first chunk forgets whether the file exists; skips the upload
      when the blob already exists; otherwise uploads chunk number
      `chunk + 1` (32-bit). The reply content is "Success" whatever
      `UploadFileBlob` reported. */
  function Upload(st: UploadState, chunk: int32, chunks: int, file: Option<PostedFile>, io: StorageAnswers): (r: Result<UploadReply>)
    ensures file.Some? && file.value.contentLength == 0 ==> r == Ok(UploadReply(st, ZeroLength, None))
    ensures r.Err? ==> file.None? || file.value.contentLength != 0
    ensures file.Some? && file.value.contentLength != 0 && HasInvalidPathChars(file.value.fileName) ==>
      r == Err(IllegalPathChars)
    ensures r.Ok? && r.value.content != ZeroLength ==> r.value.content == Success
    ensures r.Ok? && st.fileAssets.Some? && UniqueNames(st.fileAssets.value) ==>
      r.value.state.fileAssets.Some? && UniqueNames(r.value.state.fileAssets.value)
    ensures r.Ok? && r.value.state.committed != st.committed ==>
      file.Some? && Wrap32(chunk + 1) >= 0 &&
      (exists name :: name in r.value.state.committed &&
        r.value.state.committed == st.committed[name := BlockList(Wrap32(chunk + 1)).value])
  {
    match file
    case Some(f) =>
      if f.contentLength == 0 then Ok(UploadReply(st, ZeroLength, None))
      else
        var name :- GetFileName(f.fileName);
        var st1 := if chunk == 0 then st.(fileExist := None) else st;
        if st1.fileExist.GetOr(false) then Ok(UploadReply(st1, Success, None))
        else
          var (st2, exists_) := PrepareMetadata(st1, chunks, name, f.contentLength * chunks);
          if exists_ then Ok(UploadReply(st2, Success, None))
          else
            var (st3, status) :- UploadFileBlob(st2, f, Wrap32(chunk + 1), io);
            Ok(UploadReply(st3, Success, Some(status)))
    case None => Err(NullReference)
  }

  /** A plain file name (no directory part) finds the model that the same
      request stored, so its first chunk is uploaded rather than reported as
      expired; and the id put is that of chunk + 1. */
  lemma FirstChunkOfNewFileIsStaged(st: UploadState, chunks: int, f: PostedFile, io: StorageAnswers)
    requires f.contentLength != 0 && io.putBlockError.None? && io.putListError.None?
    requires forall k :: 0 <= k < |f.fileName| ==> !IsPathSeparator(f.fileName[k])
    requires f.fileName !in st.committed
    ensures var r := Upload(st, 0, chunks, Some(f), io);
      r.Ok? ==> (r.value.status.Some? && !r.value.status.value.error &&
        r.value.state.staged == Stage(st.staged, f.fileName, BlockId(1)))
  {
    if !HasInvalidPathChars(f.fileName) {
      FileNameOfPlainName(f.fileName);
      FirstChunkUploads(st, chunks, f, io, f.fileName);
      StagedFirst(FirstChunkPrepared(st, chunks, f, f.fileName), f, io);
    }
  }

  /** The state after the first chunk's metadata step for a new file stored
      under `name`. */
  function FirstChunkPrepared(st: UploadState, chunks: int, f: PostedFile, name: string): (st2: UploadState)
    ensures name in st2.models && st2.models[name].fileName == name
    ensures st2.staged == st.staged
  {
    st.(models := st.models[name := FileUploadModel(name, chunks, f.contentLength * chunks, false, NoMessage)],
        fileExist := Some(false))
  }

  /** The reply of an upload that reached `UploadFileBlob`. */
  function Replied(u: Result<(UploadState, UploadStatus)>): Result<UploadReply> {
    match u
    case Err(e) => Err(e)
    case Ok((st, status)) => Ok(UploadReply(st, Success, Some(status)))
  }

  /** The first chunk of a new file goes straight to `UploadFileBlob` with
      block id 1, after its model is stored under the file name. */
  lemma FirstChunkUploads(st: UploadState, chunks: int, f: PostedFile, io: StorageAnswers, name: string)
    requires f.contentLength != 0 && GetFileName(f.fileName) == Ok(name)
    requires name !in st.committed
    ensures Upload(st, 0, chunks, Some(f), io) == Replied(UploadFileBlob(FirstChunkPrepared(st, chunks, f, name), f, 1, io))
  {
    var st1 := st.(fileExist := None);
    assert PrepareMetadata(st1, chunks, name, f.contentLength * chunks) == (FirstChunkPrepared(st, chunks, f, name), false);
    assert Wrap32(0 + 1) == 1;
  }

  lemma StagedFirst(st2: UploadState, f: PostedFile, io: StorageAnswers)
    requires io.putBlockError.None? && io.putListError.None? && f.fileName in st2.models && st2.models[f.fileName].fileName == f.fileName
    ensures var r := UploadFileBlob(st2, f, 1, io);
      r.Ok? ==> (!r.value.1.error && r.value.0.staged == Stage(st2.staged, f.fileName, BlockId(1)))
  {
  }

  /** A name with a directory part is stored under its file name but looked up
      under the name as sent, so the chunk is reported as expired and nothing
      is put; unless the name holds a character refused in a path, which
      throws before anything is stored. */
  lemma PathNameIsReportedExpired(st: UploadState, chunks: int, f: PostedFile, io: StorageAnswers)
    requires f.contentLength != 0
    requires FileName(f.fileName) != f.fileName && f.fileName !in st.models
    requires FileName(f.fileName) !in st.committed
    ensures var r := Upload(st, 0, chunks, Some(f), io);
      !HasInvalidPathChars(f.fileName) ==>
        r.Ok? && r.value.status == Some(UploadStatus(true, false, SessionExpired)) &&
        r.value.state.staged == st.staged && r.value.state.committed == st.committed
    ensures HasInvalidPathChars(f.fileName) ==> Upload(st, 0, chunks, Some(f), io) == Err(IllegalPathChars)
  {
  }
}
