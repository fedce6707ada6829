/** The SQL table behind `MediaAssetsDataContext` as a sequence of rows, with
    LINQ's `Single` semantics for the keyed operations. */
module SqlStore {
  import opened Wrappers
  import opened Records
  import opened Runtime

  type Rows = seq<SqlAsset>

  predicate Matches(r: SqlAsset, title: string, id: string) {
    r.title == title && r.id == id
  }

  /** The number of rows with the given Title and Id. */
  function MatchCount(rows: Rows, title: string, id: string): (n: nat)
    ensures n <= |rows|
    ensures n == 0 <==> forall i :: 0 <= i < |rows| ==> !Matches(rows[i], title, id)
  {
    if |rows| == 0 then 0
    else (if Matches(rows[0], title, id) then 1 else 0) + MatchCount(rows[1..], title, id)
  }

  /** The position of the first matching row, if any. */
  function FirstMatch(rows: Rows, title: string, id: string): (r: Option<nat>)
    ensures r.Some? ==> r.value < |rows| && Matches(rows[r.value], title, id)
    ensures r.Some? ==> forall i :: 0 <= i < r.value ==> !Matches(rows[i], title, id)
    ensures r.None? <==> MatchCount(rows, title, id) == 0
  {
    if |rows| == 0 then None
    else if Matches(rows[0], title, id) then Some(0)
    else match FirstMatch(rows[1..], title, id)
      case None => None
      case Some(i) => Some(i + 1)
  }

  /** `Single(m => m.Title == title && m.Id == id)`: the position of the only
      matching row; an error when there is none or more than one. */
  function Single(rows: Rows, title: string, id: string): (r: Result<nat>)
    ensures r.Ok? <==> MatchCount(rows, title, id) == 1
    ensures r.Ok? ==> r.value < |rows| && Matches(rows[r.value], title, id)
    ensures r.Ok? ==> forall i :: 0 <= i < |rows| && i != r.value ==> !Matches(rows[i], title, id)
  {
    var n := MatchCount(rows, title, id);
    if n == 0 then Err(NoElements)
    else if n > 1 then Err(MoreThanOne)
    else
      var i := FirstMatch(rows, title, id).value;
      OnlyMatch(rows, title, id, i);
      Ok(i)
  }

  /** With exactly one match, the first match is the only one. */
  lemma {:induction false} OnlyMatch(rows: Rows, title: string, id: string, i: nat)
    requires MatchCount(rows, title, id) == 1
    requires FirstMatch(rows, title, id) == Some(i)
    ensures forall j :: 0 <= j < |rows| && j != i ==> !Matches(rows[j], title, id)
  {
    if Matches(rows[0], title, id) {
      assert MatchCount(rows[1..], title, id) == 0;
      forall j | 0 < j < |rows| ensures !Matches(rows[j], title, id) {
        assert rows[j] == rows[1..][j - 1];
      }
    } else {
      assert FirstMatch(rows[1..], title, id) == Some(i - 1);
      OnlyMatch(rows[1..], title, id, i - 1);
      forall j | 0 < j < |rows| && j != i ensures !Matches(rows[j], title, id) {
        assert rows[j] == rows[1..][j - 1];
      }
    }
  }

  /** `AddMediaAssets` (`InsertOnSubmit`): the row is appended. */
  function Add(rows: Rows, r: SqlAsset): (res: Rows)
    ensures |res| == |rows| + 1 && res[|rows|] == r
    ensures forall i :: 0 <= i < |rows| ==> res[i] == rows[i]
  {
    rows + [r]
  }

  /** `GetMediaAsset`: the only row with the keys. */
  function Get(rows: Rows, title: string, id: string): (r: Result<SqlAsset>)
    ensures r.Ok? <==> MatchCount(rows, title, id) == 1
    ensures r.Ok? ==> r.value in rows && Matches(r.value, title, id)
  {
    var i :- Single(rows, title, id);
    Ok(rows[i])
  }

  /** The row with Status, ProcessingTime, Url, Thumbnail and Size taken from `src`. */
  function WithStatusFields(row: SqlAsset, src: SqlAsset): SqlAsset {
    row.(status := src.status, processingTime := src.processingTime, url := src.url,
         thumbnail := src.thumbnail, size := src.size)
  }

  /** `UpdateStatus`: the only row with the keys of `src` takes its Status,
      ProcessingTime, Url, Thumbnail and Size; nothing else changes. */
  function UpdateStatus(rows: Rows, src: SqlAsset): (r: Result<Rows>)
    ensures r.Ok? <==> MatchCount(rows, src.title, src.id) == 1
    ensures r.Ok? ==> |r.value| == |rows|
    ensures r.Ok? ==> forall i :: 0 <= i < |rows| ==>
      if Matches(rows[i], src.title, src.id)
      then r.value[i] == WithStatusFields(rows[i], src)
      else r.value[i] == rows[i]
  {
    var i :- Single(rows, src.title, src.id);
    Ok(rows[i := WithStatusFields(rows[i], src)])
  }

  /** An update never touches the keys or the fields outside the five it copies. */
  lemma UpdateKeepsOtherFields(row: SqlAsset, src: SqlAsset)
    ensures var u := WithStatusFields(row, src);
      u.title == row.title && u.id == row.id && u.originalFile == row.originalFile &&
      u.encoding == row.encoding && u.protection == row.protection && u.renderer == row.renderer &&
      u.created == row.created && u.expireOn == row.expireOn
    ensures var u := WithStatusFields(row, src);
      u.status == src.status && u.processingTime == src.processingTime && u.url == src.url &&
      u.thumbnail == src.thumbnail && u.size == src.size
  {
  }

  /** `DeleteMediaAssetExt`: removes the only row with the keys of `a`. */
  function Delete(rows: Rows, a: SqlAsset): (r: Result<Rows>)
    ensures r.Ok? <==> MatchCount(rows, a.title, a.id) == 1
    ensures r.Ok? ==> |r.value| == |rows| - 1
    ensures r.Ok? ==> forall x :: x in r.value ==> x in rows && !Matches(x, a.title, a.id)
    ensures r.Ok? ==> forall x :: x in rows && !Matches(x, a.title, a.id) ==> x in r.value
  {
    var i :- Single(rows, a.title, a.id);
    var res := rows[..i] + rows[i + 1..];
    assert forall x :: x in rows && !Matches(x, a.title, a.id) ==> x in res by {
      forall x | x in rows && !Matches(x, a.title, a.id) ensures x in res {
        var j :| 0 <= j < |rows| && rows[j] == x;
        if j < i { assert res[j] == x; } else { assert j > i && res[j - 1] == x; }
      }
    }
    Ok(res)
  }

  /** The rows whose Status is not "Finished", in table order. */
  function Unfinished(rows: Rows): (r: Rows)
    ensures |r| <= |rows|
    ensures forall x :: x in r <==> x in rows && x.status != "Finished"
  {
    if |rows| == 0 then []
    else if rows[0].status != "Finished" then [rows[0]] + Unfinished(rows[1..])
    else Unfinished(rows[1..])
  }

  /** `GetAssetsInProgress`: `Where(Status != "Finished").Take(10)`. */
  function InProgress(rows: Rows): (r: Rows)
    ensures |r| <= 10
    ensures forall x :: x in r ==> x in rows && x.status != "Finished"
    ensures |r| < 10 ==> forall x :: x in rows && x.status != "Finished" ==> x in r
  {
    var u := Unfinished(rows);
    if |u| <= 10 then u else u[..10]
  }
}
