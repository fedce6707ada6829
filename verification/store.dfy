/** The record store as the orchestrator sees it (`MediaController`'s CRUD
    region): the Azure table when no database connection string is set,
    otherwise the SQL table; every failure is re-thrown with the
    "Unable to connect" prefix. */
module Store {
  import opened Wrappers
  import opened Records
  import TableStore
  import SqlStore

  /** `useSql` stands for a non-empty `DbConnectionString`. */
  datatype Store = Store(useSql: bool, table: TableStore.Table, rows: SqlStore.Rows)

  const ConnectError := "Unable to connect to the table storage server. Please check that the service is running."

  /** The prefix used by the reads and by `DeleteAsset`. */
  function ReadFailure(msg: string): string {
    ConnectError + " Error: " + msg
  }

  /** The prefix used by `AddMediaAsset` and `UpdateMediaAsset` (no separator). */
  function WriteFailure(msg: string): string {
    ConnectError + msg
  }

  /** What `AddMediaAsset` throws when the table refuses a key. */
  const KeyRefused := WriteFailure(TableStore.BadRequest)

  /** `AddMediaAsset`: insert-or-replace in the table, append in SQL. The
      table refuses keys with forbidden characters, and the refusal is
      re-thrown with the prefix. */
  function AddMediaAsset(st: Store, a: MediaAsset): (r: Result<Store>)
    ensures r.Ok? <==> st.useSql || TableStore.ValidKeys(a)
    ensures r.Err? ==> r.msg == KeyRefused
    ensures r.Ok? ==> r.value.useSql == st.useSql
    ensures r.Ok? && !st.useSql ==> r.value.rows == st.rows && r.value.table == TableStore.Put(st.table, a)
    ensures st.useSql ==> r == Ok(st.(rows := st.rows + [ToSql(a)]))
  {
    if st.useSql then Ok(st.(rows := SqlStore.Add(st.rows, ToSql(a))))
    else match TableStore.InsertOrReplace(st.table, a)
      case Ok(t) => Ok(st.(table := t))
      case Err(e) => Err(WriteFailure(e))
  }

  /** `GetAsset`: the table answers null for missing keys; SQL demands exactly
      one row. */
  function GetAsset(st: Store, pk: string, rk: string): (r: Result<Option<MediaAsset>>)
    ensures !st.useSql ==> r == Ok(TableStore.Get(st.table, pk, rk))
    ensures st.useSql ==> (r.Ok? <==> SqlStore.MatchCount(st.rows, pk, rk) == 1)
    ensures st.useSql && r.Ok? ==> r.value.Some? && ToSql(r.value.value) in st.rows
    ensures r.Ok? && r.value.Some? && (st.useSql || TableStore.WellKeyed(st.table)) ==>
      r.value.value.partitionKey == pk && r.value.value.rowKey == rk
  {
    if !st.useSql then Ok(TableStore.Get(st.table, pk, rk))
    else match SqlStore.Get(st.rows, pk, rk)
      case Ok(row) =>
        ConversionsRoundTrip(FromSql(row), row);
        Ok(Some(FromSql(row)))
      case Err(e) => Err(ReadFailure(e))
  }

  /** `UpdateMediaAsset`: a merge into the table entity, or the field-limited
      `UpdateStatus` of the SQL row. */
  function UpdateMediaAsset(st: Store, a: MediaAsset): (r: Result<Store>)
    ensures !st.useSql ==> (r.Ok? <==> TableStore.KeyOf(a) in st.table)
    ensures st.useSql ==> (r.Ok? <==> SqlStore.MatchCount(st.rows, a.partitionKey, a.rowKey) == 1)
    ensures r.Ok? ==> r.value.useSql == st.useSql
    ensures r.Ok? && !st.useSql ==> r.value.table == TableStore.Put(st.table, a)
    ensures r.Ok? && st.useSql ==> r.value.table == st.table
  {
    if !st.useSql then
      match TableStore.Merge(st.table, a)
      case Ok(t) => Ok(st.(table := t))
      case Err(e) => Err(WriteFailure(e))
    else
      match SqlStore.UpdateStatus(st.rows, ToSql(a))
      case Ok(rows) => Ok(st.(rows := rows))
      case Err(e) => Err(WriteFailure(e))
  }

  /** The number of records `GetAssetsInProgress()` returns. */
  function InProgressCount(st: Store): (n: nat)
    ensures !st.useSql ==> n == |set k | k in st.table && st.table[k].status != "Finished"|
    ensures st.useSql ==> n <= 10
  {
    if st.useSql then |SqlStore.InProgress(st.rows)|
    else |set k | k in st.table && st.table[k].status != "Finished"|
  }

  /** `DeleteAsset`: the table path reports whether the service answered 200;
      the SQL path reports true once the single row is gone. */
  function DeleteAsset(st: Store, a: MediaAsset, httpStatus: int): (r: Result<(Store, bool)>)
    ensures !st.useSql ==> (r.Ok? <==> TableStore.Delete(st.table, a, httpStatus).Ok?)
    ensures !st.useSql && r.Ok? ==> r.value.0.table == st.table - {TableStore.KeyOf(a)} && (r.value.1 <==> httpStatus == 200)
    ensures st.useSql ==> (r.Ok? <==> SqlStore.MatchCount(st.rows, a.partitionKey, a.rowKey) == 1)
    ensures st.useSql && r.Ok? ==> r.value.1 && |r.value.0.rows| == |st.rows| - 1
  {
    if !st.useSql then
      match TableStore.Delete(st.table, a, httpStatus)
      case Ok(d) => Ok((st.(table := d.table), d.deleted))
      case Err(e) => Err(ReadFailure(e))
    else
      match SqlStore.Delete(st.rows, ToSql(a))
      case Ok(rows) => Ok((st.(rows := rows), true))
      case Err(e) => Err(ReadFailure(e))
  }

  // ---------------------------------------------------------------------------
  // Read-after-write
  // ---------------------------------------------------------------------------

  lemma {:induction false} MatchCountAppend(rows: SqlStore.Rows, r: SqlAsset, title: string, id: string)
    ensures SqlStore.MatchCount(rows + [r], title, id) ==
      SqlStore.MatchCount(rows, title, id) + (if SqlStore.Matches(r, title, id) then 1 else 0)
    decreases |rows|
  {
    if |rows| == 0 {
      assert rows + [r] == [r];
      assert [r][1..] == [];
    } else {
      assert (rows + [r])[1..] == rows[1..] + [r];
      MatchCountAppend(rows[1..], r, title, id);
    }
  }

  /** A record just added reads back as itself: in the table whenever its keys
      are accepted, and in SQL when no row had its keys before. */
  lemma GetAfterAdd(st: Store, a: MediaAsset)
    requires st.useSql ==> SqlStore.MatchCount(st.rows, a.partitionKey, a.rowKey) == 0
    ensures AddMediaAsset(st, a).Ok? <==> st.useSql || TableStore.ValidKeys(a)
    ensures AddMediaAsset(st, a).Ok? ==> GetAsset(AddMediaAsset(st, a).value, a.partitionKey, a.rowKey) == Ok(Some(a))
  {
    if st.useSql {
      MatchCountAppend(st.rows, ToSql(a), a.partitionKey, a.rowKey);
      ConversionsRoundTrip(a, ToSql(a));
      var r := GetAsset(AddMediaAsset(st, a).value, a.partitionKey, a.rowKey);
      assert ToSql(r.value.value) !in st.rows by {
        forall i | 0 <= i < |st.rows| ensures st.rows[i] != ToSql(r.value.value) {
          assert !SqlStore.Matches(st.rows[i], a.partitionKey, a.rowKey);
        }
      }
      ConversionsRoundTrip(r.value.value, ToSql(a));
    }
  }

  /** An update that succeeds is visible to the next read: the record then has
      the Status (and Url) that was written. */
  lemma GetAfterUpdate(st: Store, a: MediaAsset)
    requires UpdateMediaAsset(st, a).Ok?
    ensures var r := GetAsset(UpdateMediaAsset(st, a).value, a.partitionKey, a.rowKey);
      r.Ok? && r.value.Some? && r.value.value.status == a.status && r.value.value.url == a.url
  {
    var st' := UpdateMediaAsset(st, a).value;
    if st.useSql {
      var i := SqlStore.Single(st.rows, a.partitionKey, a.rowKey).value;
      var rows' := st'.rows;
      assert rows' == st.rows[i := SqlStore.WithStatusFields(st.rows[i], ToSql(a))];
      SqlStore.UpdateKeepsOtherFields(st.rows[i], ToSql(a));
      MatchCountUpdate(st.rows, i, SqlStore.WithStatusFields(st.rows[i], ToSql(a)), a.partitionKey, a.rowKey);
      var r := GetAsset(st', a.partitionKey, a.rowKey);
      var row := ToSql(r.value.value);
      assert row == rows'[i] by {
        forall j | 0 <= j < |rows'| && j != i ensures rows'[j] != row {
          assert !SqlStore.Matches(st.rows[j], a.partitionKey, a.rowKey);
        }
      }
      ConversionsRoundTrip(r.value.value, row);
    }
  }

  /** Replacing one row by another with the same keys keeps every match count. */
  lemma {:induction false} MatchCountUpdate(rows: SqlStore.Rows, i: nat, x: SqlAsset, title: string, id: string)
    requires i < |rows| && x.title == rows[i].title && x.id == rows[i].id
    ensures SqlStore.MatchCount(rows[i := x], title, id) == SqlStore.MatchCount(rows, title, id)
    decreases |rows|
  {
    if i == 0 {
      assert rows[i := x][1..] == rows[1..];
    } else {
      assert rows[i := x][1..] == rows[1..][i - 1 := x];
      MatchCountUpdate(rows[1..], i - 1, x, title, id);
    }
  }
}
