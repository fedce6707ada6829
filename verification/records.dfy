/** The media record in its two shapes: the table entity `MediaAsset`, keyed by
    (PartitionKey, RowKey), and the SQL row `Models.MediaAsset`, keyed by
    (Title, Id); the conversions between them; and the key formats. */
module Records {
  import opened Wrappers
  import opened Text
  import opened Runtime

  /** `DateTime.MaxValue.Ticks`. */
  const MaxTicks: int := 3155378975999999999

  /** A `DateTime` as its tick count; the type's own range. */
  type Ticks = t: int | 0 <= t <= MaxTicks

  /** `TimeSpan.FromDays(1).Ticks`. */
  const TicksPerDay := 864000000000

  /** The table entity. Null strings are modelled as "" and `DateTime`s as ticks. */
  datatype MediaAsset = MediaAsset(
    partitionKey: string,
    rowKey: string,
    originalFile: string,
    url: string,
    encoding: string,
    protection: string,
    renderer: string,
    created: Ticks,
    processingTime: string,
    expireOn: Ticks,
    status: string,
    size: Option<int>,
    thumbnail: string)

  /** The SQL row; the same payload under the column names `Title` and `Id`. */
  datatype SqlAsset = SqlAsset(
    title: string,
    id: string,
    originalFile: string,
    url: string,
    encoding: string,
    protection: string,
    renderer: string,
    created: Ticks,
    processingTime: string,
    expireOn: Ticks,
    status: string,
    size: Option<int>,
    thumbnail: string)

  /** `new MediaAsset(Models.MediaAsset dbRecord)`: PartitionKey from Title, RowKey
      from Id, every other field copied. */
  function FromSql(r: SqlAsset): (a: MediaAsset)
    ensures a.partitionKey == r.title && a.rowKey == r.id
    ensures a.status == r.status && a.url == r.url && a.size == r.size
  {
    MediaAsset(r.title, r.id, r.originalFile, r.url, r.encoding, r.protection, r.renderer,
               r.created, r.processingTime, r.expireOn, r.status, r.size, r.thumbnail)
  }

  /** `new Models.MediaAsset(MediaAsset asset)`: Title from PartitionKey, Id from
      RowKey, every other field copied. */
  function ToSql(a: MediaAsset): (r: SqlAsset)
    ensures r.title == a.partitionKey && r.id == a.rowKey
    ensures r.status == a.status && r.url == a.url && r.size == a.size
  {
    SqlAsset(a.partitionKey, a.rowKey, a.originalFile, a.url, a.encoding, a.protection, a.renderer,
             a.created, a.processingTime, a.expireOn, a.status, a.size, a.thumbnail)
  }

  /** The two conversions are mutually inverse: no field is lost either way. */
  lemma ConversionsRoundTrip(a: MediaAsset, r: SqlAsset)
    ensures FromSql(ToSql(a)) == a
    ensures ToSql(FromSql(r)) == r
  {
  }

  /** `Models.MediaAsset.CopyFrom`: a field-by-field copy. */
  function CopyFrom(r: SqlAsset): (c: SqlAsset)
    ensures c == r
  {
    SqlAsset(r.title, r.id, r.originalFile, r.url, r.encoding, r.protection, r.renderer,
             r.created, r.processingTime, r.expireOn, r.status, r.size, r.thumbnail)
  }

  // ---------------------------------------------------------------------------
  // Keys
  // ---------------------------------------------------------------------------

  /** The characters of `Guid.ToString()`: hex digits and '-'. */
  predicate IsGuidText(g: string) {
    forall i :: 0 <= i < |g| ==> IsDigit(g[i]) || 'a' <= g[i] <= 'f' || g[i] == '-'
  }

  /** `SetKeys`' RowKey: the ticks left until `DateTime.MaxValue` formatted with
      the custom format "10" (a literal '1', then the digits), '_', a GUID. */
  function RowKey(now: Ticks, guid: string): (rk: string)
    ensures StartsWith(rk, "1" + NatToString(MaxTicks - now) + "_")
  {
    "1" + NatToString(MaxTicks - now) + "_" + guid
  }

  /** The tick component of a RowKey is a '1' followed by the remaining ticks,
      which read back exactly. */
  lemma RowKeyTicks(now: Ticks, guid: string)
    ensures |Before(RowKey(now, guid), '_')| > 0 && Before(RowKey(now, guid), '_')[0] == '1'
    ensures ParseNat(Before(RowKey(now, guid), '_')[1..]) == Some(MaxTicks - now)
  {
    var d := NatToString(MaxTicks - now);
    var rk := RowKey(now, guid);
    assert rk == ("1" + d) + ['_'] + guid;
    assert '_' !in "1" + d by {
      forall i | 0 <= i < |"1" + d| ensures ("1" + d)[i] != '_' {
        if i > 0 {
          assert ("1" + d)[i] == d[i - 1] && IsDigit(d[i - 1]);
        }
      }
    }
    SplitAtFirst("1" + d, guid, '_');
    SplitHeadIsBefore(rk, '_');
    assert ("1" + d)[1..] == d;
    ParseNatToString(MaxTicks - now);
  }

  /** A later creation time gives a strictly smaller tick count after the '1'. */
  lemma RowKeyTicksDecrease(earlier: Ticks, later: Ticks, g1: string, g2: string)
    requires earlier < later
    ensures ParseNat(Before(RowKey(later, g2), '_')[1..]).value < ParseNat(Before(RowKey(earlier, g1), '_')[1..]).value
  {
    RowKeyTicks(earlier, g1);
    RowKeyTicks(later, g2);
  }

  /** A RowKey built from a GUID never contains ';'. */
  lemma RowKeyHasNoSemicolon(now: Ticks, guid: string)
    requires IsGuidText(guid)
    ensures ';' !in RowKey(now, guid)
  {
    var d := "1" + NatToString(MaxTicks - now);
    var rk := RowKey(now, guid);
    forall i | 0 <= i < |rk| ensures rk[i] != ';' {
      if 0 < i < |d| {
        assert rk[i] == NatToString(MaxTicks - now)[i - 1];
        assert IsDigit(NatToString(MaxTicks - now)[i - 1]);
      } else if i > |d| {
        assert rk[i] == guid[i - |d| - 1];
      }
    }
  }

  /** `new MediaAsset(title)` / `new MediaAsset()` (title "Media"), with the fields
      the constructor leaves at their defaults. */
  function NewAsset(title: string, now: Ticks, guid: string): (a: MediaAsset)
    ensures a.partitionKey == title && a.rowKey == RowKey(now, guid)
  {
    MediaAsset(title, RowKey(now, guid), "", "", "", "", "", 0, "", 0, "", None, "")
  }

  const DefaultPartition := "Media"

  /** The composite key `"{pk};{rk}"` under which the orchestrators remember a record. */
  function CompositeKey(pk: string, rk: string): (k: string)
    ensures ';' in k
  {
    assert (pk + ";" + rk)[|pk|] == ';';
    pk + ";" + rk
  }

  /** `recordId.Split(';')` followed by `keys[0]`, `keys[1]`: fails with an index
      error when there is no ';'. */
  function SplitKey(k: string): (r: Result<(string, string)>)
    ensures r.Ok? <==> ';' in k
    ensures r.Ok? ==> r.value.0 == Before(k, ';')
  {
    var parts := Split(k, ';');
    if |parts| < 2 then
      assert ';' !in k by {
        if ';' in k {
          var i := IndexOf(k, ';').value;
          assert k == k[..i] + [';'] + k[i + 1..];
          SplitAtFirst(k[..i], k[i + 1..], ';');
        }
      }
      Err(IndexOutOfRange)
    else
      assert ';' in k by {
        if ';' !in k { SplitNoSeparator(k, ';'); }
      }
      SplitHeadIsBefore(k, ';');
      Ok((parts[0], parts[1]))
  }

  /** The composite key splits back into the two keys when neither contains ';'. */
  lemma SplitCompositeKey(pk: string, rk: string)
    requires ';' !in pk && ';' !in rk
    ensures SplitKey(CompositeKey(pk, rk)) == Ok((pk, rk))
  {
    assert CompositeKey(pk, rk) == pk + [';'] + rk;
    SplitAtFirst(pk, rk, ';');
    SplitNoSeparator(rk, ';');
  }

  /** The record keys written by `CreateMediaEntries` split back for every title
      without ';'. */
  lemma RecordKeyRoundTrip(title: string, now: Ticks, guid: string)
    requires ';' !in title && IsGuidText(guid)
    ensures SplitKey(CompositeKey(title, RowKey(now, guid))) == Ok((title, RowKey(now, guid)))
  {
    RowKeyHasNoSemicolon(now, guid);
    SplitCompositeKey(title, RowKey(now, guid));
  }
}
