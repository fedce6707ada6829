/** What the browser sends to `HomeController.BeginEncoding` and how the server
    reads it back: the preset list serialised by `presetToString` (main.js) and
    split by `GetEncodingPresets`, and the protection code shown by
    `displaySelectedProtection` and read by `SetProtectionLevel`. */
module ClientProtocol {
  import opened Wrappers
  import opened Text
  import opened Remote
  import Records
  import Runtime

  // ---------------------------------------------------------------------------
  // Presets
  // ---------------------------------------------------------------------------

  /** Each id followed by the delimiter. */
  function ConcatWithDelimiter(ids: seq<string>, del: string): string
    decreases |ids|
  {
    if |ids| == 0 then "" else ids[0] + del + ConcatWithDelimiter(ids[1..], del)
  }

  /** JavaScript's `s.substring(start, end)`: both ends clamped to [0, |s|],
      swapped when the start is past the end. */
  function JsSubstring(s: string, start: int, end: int): (r: string)
    ensures 0 <= start <= end <= |s| ==> r == s[start..end]
    ensures end <= 0 && start <= 0 ==> r == ""
  {
    var a := if start < 0 then 0 else if start > |s| then |s| else start;
    var b := if end < 0 then 0 else if end > |s| then |s| else end;
    if a <= b then s[a..b] else s[b..a]
  }

  /** `presetToString(arr, del)`: the ids each followed by `del`, without the
      final character. */
  function PresetToString(ids: seq<string>, del: string): (r: string)
    ensures |ids| == 0 ==> r == ""
  {
    var s := ConcatWithDelimiter(ids, del);
    JsSubstring(s, 0, |s| - 1)
  }

  /** With a one-character delimiter, the serialisation is the ids joined by it. */
  lemma {:induction false} PresetToStringIsJoin(ids: seq<string>, c: char)
    requires |ids| >= 1
    ensures PresetToString(ids, [c]) == Join(ids, c)
    decreases |ids|
  {
    ConcatIsJoinPlusDelimiter(ids, c);
    var s := ConcatWithDelimiter(ids, [c]);
    assert s[..|s| - 1] == Join(ids, c);
  }

  lemma {:induction false} ConcatIsJoinPlusDelimiter(ids: seq<string>, c: char)
    requires |ids| >= 1
    ensures ConcatWithDelimiter(ids, [c]) == Join(ids, c) + [c]
    decreases |ids|
  {
    if |ids| == 1 {
      assert ConcatWithDelimiter(ids[1..], [c]) == "";
    } else {
      ConcatIsJoinPlusDelimiter(ids[1..], c);
    }
  }

  /** How the MVC model binder fills a string property of the posted form:
      an empty field (or a missing one) becomes null. */
  function Bound(posted: string): (r: Option<string>)
    ensures r.None? <==> posted == ""
    ensures r.Some? ==> r.value == posted
  {
    if posted == "" then None else Some(posted)
  }

  /** `GetEncodingPresets(presets, delimiter)`: `presets.Split(delimiter[0])`.
      The argument is evaluated before the call, so a null or empty delimiter
      throws first; a null `presets` throws when `Split` is called on it. */
  function GetEncodingPresets(presets: Option<string>, delimiter: Option<string>): (r: Result<seq<string>>)
    ensures r.Ok? <==> presets.Some? && delimiter.Some? && |delimiter.value| > 0
    ensures r.Err? ==> r.msg == (if delimiter.Some? && |delimiter.value| == 0 then Runtime.IndexOutOfRange else Runtime.NullReference)
    ensures r.Ok? ==> |r.value| >= 1 && Join(r.value, delimiter.value[0]) == presets.value
  {
    if delimiter.None? then Err(Runtime.NullReference)
    else if |delimiter.value| == 0 then Err(Runtime.IndexOutOfRange)
    else if presets.None? then Err(Runtime.NullReference)
    else
      JoinSplit(presets.value, delimiter.value[0]);
      Ok(Split(presets.value, delimiter.value[0]))
  }

  /** What the server's split makes of a posted form. */
  function ServerPresets(p: ServerParams): Result<seq<string>> {
    GetEncodingPresets(Bound(p.presets), Bound(p.presetDelimiter))
  }

  /** Posted through the binder, the delimiter is never empty, so the
      indexing never runs past the end: every failure is a null reference,
      and it happens exactly when a field is empty. */
  lemma PostedPresetsFailOnlyOnNull(p: ServerParams)
    ensures ServerPresets(p).Err? <==> p.presets == "" || p.presetDelimiter == ""
    ensures ServerPresets(p).Err? ==> ServerPresets(p).msg == Runtime.NullReference
  {
  }

  /** The form `getServerData` posts (`ServerParamModel`). */
  datatype ServerParams = ServerParams(
    mediaProcessor: string,
    presets: string,
    protection: string,
    expireOn: string,
    presetDelimiter: string)

  const ClientDelimiter := ";"

  /** `getServerData`: the checked preset ids serialised with ";", which is also
      sent as the delimiter. */
  function GetServerData(processor: string, ids: seq<string>, protection: string, expire: string): (p: ServerParams)
    ensures p.presetDelimiter == ClientDelimiter
    ensures p.mediaProcessor == processor && p.protection == protection && p.expireOn == expire
    ensures |ids| >= 1 ==> p.presets == Join(ids, ';')
  {
    SerialisedIsJoin(ids);
    ServerParams(processor, PresetToString(ids, ClientDelimiter), protection, expire, ClientDelimiter)
  }

  lemma SerialisedIsJoin(ids: seq<string>)
    ensures |ids| >= 1 ==> PresetToString(ids, ClientDelimiter) == Join(ids, ';')
  {
    if |ids| >= 1 {
      PresetToStringIsJoin(ids, ';');
    }
  }

  /** The server reads back exactly the ids the client selected, provided
      there is at least one, none contains ';' and the selection is not the
      single empty id (which would post an empty field). */
  lemma PresetsRoundTrip(processor: string, ids: seq<string>, protection: string, expire: string)
    requires |ids| >= 1 && NoneContain(ids, ';') && ids != [""]
    ensures ServerPresets(GetServerData(processor, ids, protection, expire)) == Ok(ids)
  {
    SplitJoin(ids, ';');
    JoinOfSeveralIsNotEmpty(ids, ';');
  }

  lemma JoinOfSeveralIsNotEmpty(ids: seq<string>, c: char)
    requires |ids| >= 1 && ids != [""]
    ensures Join(ids, c) != ""
  {
    if |ids| == 1 {
      assert ids == [ids[0]];
    } else {
      assert |Join(ids, c)| >= 1;
    }
  }

  /** An empty selection posts an empty preset field, which the binder turns
      into null: the server's split throws a null reference. */
  lemma EmptySelectionIsNull(processor: string, protection: string, expire: string)
    ensures ServerPresets(GetServerData(processor, [], protection, expire)) == Err(Runtime.NullReference)
  {
  }

  /** An id containing the delimiter is split apart: the server sees more
      presets than were selected. */
  lemma DelimiterInIdSplitsIt(a: string, b: string)
    requires ';' !in a && ';' !in b
    ensures ServerPresets(GetServerData("", [a + ";" + b], "", "")) == Ok([a, b])
  {
    var id := a + ";" + b;
    SerialisedIsJoin([id]);
    assert Join([id], ';') == id;
    assert id == a + [';'] + b;
    SplitAtFirst(a, b, ';');
    SplitNoSeparator(b, ';');
    var p := GetServerData("", [id], "", "");
    assert p.presets == id;
    assert p.presetDelimiter[0] == ';';
    assert Split(id, ';') == [a, b];
  }

  // ---------------------------------------------------------------------------
  // Protection codes
  // ---------------------------------------------------------------------------

  /** `displaySelectedProtection(protectionMode)`: the label of modes 0..3, ""
      for anything else. */
  function DisplaySelectedProtection(mode: int): (r: string)
    ensures 0 <= mode <= 3 <==> r != ""
  {
    if mode == 0 then "HTTPS & SAS"
    else if mode == 1 then "Storage Encryption"
    else if mode == 2 then "UltraViolet DRM"
    else if mode == 3 then "PlayReady DRM"
    else ""
  }

  /** The choice `SetProtectionLevel` makes for the posted code: "1", "2" and "3"
      select storage, common and envelope encryption; anything else, the empty
      string included, selects none. */
  function ProtectionLevel(code: string): (p: Protection)
    ensures p == StorageEncrypted <==> code == "1"
    ensures p == CommonEncryptionProtected <==> code == "2"
    ensures p == EnvelopeEncryptionProtected <==> code == "3"
  {
    if code == "" then Unencrypted
    else if code == "1" then StorageEncrypted
    else if code == "2" then CommonEncryptionProtected
    else if code == "3" then EnvelopeEncryptionProtected
    else Unencrypted
  }

  /** The label the browser shows for a mode and the server's choice for the
      same mode's decimal code describe the same protection: the server's
      record description is the one paired with the browser's label. */
  lemma LabelsAgreeWithServerChoice(mode: nat)
    requires mode <= 3
    ensures var p := ProtectionLevel(NatToString(mode));
      (DisplaySelectedProtection(mode), AssetCreationDescription(p)) in
        {("HTTPS & SAS", "HTTPS & SAS"), ("Storage Encryption", "Storage Encrypted"),
         ("UltraViolet DRM", "Ultra-Violet DRM"), ("PlayReady DRM", "PlayReady DRM")}
  {
    assert NatToString(mode) == [DigitChar(mode)];
  }

  /** Distinct modes show distinct labels. */
  lemma DisplayLabelsDistinct(m: int, n: int)
    requires 0 <= m <= 3 && 0 <= n <= 3 && m != n
    ensures DisplaySelectedProtection(m) != DisplaySelectedProtection(n)
  {
  }
}
