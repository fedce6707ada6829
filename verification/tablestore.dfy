/** The Azure table `MediaAssets` as a map from (PartitionKey, RowKey) to entity,
    with the operations of `MediaAssetContext`. */
module TableStore {
  import opened Wrappers
  import opened Text
  import opened Records

  type Key = (string, string)
  type Table = map<Key, MediaAsset>

  function KeyOf(a: MediaAsset): Key {
    (a.partitionKey, a.rowKey)
  }

  /** Every entity is stored under its own keys. */
  predicate WellKeyed(t: Table) {
    forall k :: k in t ==> KeyOf(t[k]) == k
  }

  /** The keys of `a` now hold exactly `a`, and every other entry is untouched. */
  function Put(t: Table, a: MediaAsset): (r: Table)
    ensures KeyOf(a) in r && r[KeyOf(a)] == a
    ensures forall k :: k != KeyOf(a) ==> (k in r <==> k in t)
    ensures forall k :: k != KeyOf(a) && k in t ==> r[k] == t[k]
    ensures WellKeyed(t) ==> WellKeyed(r)
  {
    t[KeyOf(a) := a]
  }

  /** A character the table service refuses in a PartitionKey or RowKey: '/',
      '\\', '#', '?', and the control characters U+0000 to U+001F and U+007F to
      U+009F. */
  predicate IsForbiddenKeyChar(ch: char) {
    ch == '/' || ch == '\\' || ch == '#' || ch == '?' || ch < ' ' || ('\U{7F}' <= ch <= '\U{9F}')
  }

  /** A key value the table service accepts. */
  predicate ValidKey(s: string) {
    forall i :: 0 <= i < |s| ==> !IsForbiddenKeyChar(s[i])
  }

  predicate ValidKeys(a: MediaAsset) {
    ValidKey(a.partitionKey) && ValidKey(a.rowKey)
  }

  /** The service's answer to an entity whose keys hold a forbidden character
      (HTTP 400). */
  const BadRequest := "The remote server returned an error: (400) Bad Request."

  /** `AddMediaAssets` (`TableOperation.InsertOrReplace`): refused when a key
      holds a forbidden character; otherwise the keys of `a` hold exactly `a`
      afterwards and every other entry is untouched. */
  function InsertOrReplace(t: Table, a: MediaAsset): (r: Result<Table>)
    ensures r.Ok? <==> ValidKeys(a)
    ensures r.Err? ==> r.msg == BadRequest
    ensures r.Ok? ==> KeyOf(a) in r.value && r.value[KeyOf(a)] == a
    ensures r.Ok? ==> forall k :: k != KeyOf(a) ==> (k in r.value <==> k in t) && (k in t ==> r.value[k] == t[k])
  {
    if ValidKeys(a) then Ok(Put(t, a)) else Err(BadRequest)
  }

  /** A row key built from the clock and a GUID never holds a forbidden
      character, so for the records the controllers write only the title
      decides whether the table accepts them. */
  lemma {:induction false} GuidRowKeyValid(now: Ticks, guid: string)
    requires IsGuidText(guid)
    ensures ValidKey(RowKey(now, guid))
  {
    var d := "1" + NatToString(MaxTicks - now);
    var rk := RowKey(now, guid);
    forall i | 0 <= i < |rk| ensures !IsForbiddenKeyChar(rk[i]) {
      if 0 < i < |d| {
        assert rk[i] == NatToString(MaxTicks - now)[i - 1];
        assert IsDigit(NatToString(MaxTicks - now)[i - 1]);
      } else if i > |d| {
        assert rk[i] == guid[i - |d| - 1];
      }
    }
  }

  /** The service's answer to a write on a missing entity (HTTP 404). */
  const NotFound := "The remote server returned an error: (404) Not Found."

  /** `UpdateMediaAsset` (`TableOperation.Merge`): fails when no entity has the keys
      of `a`; otherwise the entity takes the properties of `a`. */
  function Merge(t: Table, a: MediaAsset): (r: Result<Table>)
    ensures r.Err? <==> KeyOf(a) !in t
    ensures r.Ok? ==> r.value == Put(t, a) && r.value.Keys == t.Keys
  {
    if KeyOf(a) !in t then Err(NotFound) else Ok(Put(t, a))
  }

  /** `GetMediaAsset`: the entity with both keys, or null. */
  function Get(t: Table, pk: string, rk: string): (r: Option<MediaAsset>)
    ensures r.Some? <==> (pk, rk) in t
    ensures WellKeyed(t) && r.Some? ==> r.value.partitionKey == pk && r.value.rowKey == rk
  {
    if (pk, rk) in t then Some(t[(pk, rk)]) else None
  }

  /** A lookup after an insert-or-replace of the same keys yields exactly the
      inserted entity, whenever the service accepted it. */
  lemma GetAfterInsert(t: Table, a: MediaAsset)
    ensures InsertOrReplace(t, a).Ok? ==> Get(InsertOrReplace(t, a).value, a.partitionKey, a.rowKey) == Some(a)
  {
  }

  /** `GetAssetsInProgress`: every entity whose Status is not "Finished". */
  function InProgress(t: Table): (r: set<MediaAsset>)
    ensures forall a :: a in r ==> a.status != "Finished"
    ensures forall k :: k in t && t[k].status != "Finished" ==> t[k] in r
    ensures forall a :: a in r ==> exists k :: k in t && t[k] == a
  {
    set k | k in t && t[k].status != "Finished" :: t[k]
  }

  /** Writing a "Finished" status over an entity takes it out of the in-progress
      set, and writing any other status puts it in. */
  lemma InProgressAfterInsert(t: Table, a: MediaAsset)
    requires WellKeyed(t)
    ensures a in InProgress(Put(t, a)) <==> a.status != "Finished"
  {
    var r := Put(t, a);
    if a in InProgress(r) {
      var k :| k in r && r[k] == a && r[k].status != "Finished";
    }
  }

  /** The first '/'-separated segment that starts with "asset-". */
  function AssetContainer(segments: seq<string>): (r: Option<string>)
    ensures r.Some? ==> r.value in segments && StartsWith(r.value, "asset-")
    ensures r.None? ==> forall i :: 0 <= i < |segments| ==> !StartsWith(segments[i], "asset-")
  {
    if |segments| == 0 then None
    else if StartsWith(segments[0], "asset-") then Some(segments[0])
    else AssetContainer(segments[1..])
  }

  const DeleteError := "Error deleting an asset."

  /** The result of `DeleteAsset`: the table afterwards, the returned flag, and the
      blob container deleted along with the entity (if any). */
  datatype Deletion = Deletion(table: Table, deleted: bool, container: Option<string>)

  /** `DeleteAsset`: a non-empty Url names the asset's blob container (the first
      "asset-" path segment, which must exist); the entity is then deleted, and
      the method reports true only when the service answered with HTTP status 200.
      `httpStatus` is the service's answer to the delete. */
  function Delete(t: Table, a: MediaAsset, httpStatus: int): (r: Result<Deletion>)
    ensures r.Err? <==> KeyOf(a) !in t || (a.url != "" && AssetContainer(Split(a.url, '/')).None?)
    ensures r.Ok? ==> r.value.table == t - {KeyOf(a)}
    ensures r.Ok? ==> (r.value.deleted <==> httpStatus == 200)
    ensures r.Ok? ==> (r.value.container.Some? <==> a.url != "")
  {
    var container := if a.url == "" then None else AssetContainer(Split(a.url, '/'));
    if a.url != "" && container.None? then Err(DeleteError)
    else if KeyOf(a) !in t then Err(DeleteError)
    else Ok(Deletion(t - {KeyOf(a)}, httpStatus == 200, container))
  }
}
