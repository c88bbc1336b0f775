/**
 * Object naming: the date prefix `iso_date_prefix` puts in front of uploads,
 * the example application's `set_file_path_name` and `file_name`, and the
 * order in which its `delete` overrides remove the stored file and the row.
 * The current date is a parameter; reading the clock is left to the caller.
 */
module Naming {
  import opened Outcomes
  import opened Text
  import opened ObjectStore
  import opened Config
  import opened Storage

  const DELETED_OBJECT_TEXT := "[Deleted Object]"

  /** A calendar date as `datetime` reports it (UTC). */
  datatype Date = Date(year: nat, month: nat, day: nat)

  /**
   * `get_iso_date`: year, month and day as unpadded decimals joined by '-'.
   * Despite its name this is not the `YYYY-MM-DD` form of ISO 8601
   * (see `NotZeroPadded`).
   */
  function IsoDate(d: Date): string {
    Decimal(d.year) + "-" + Decimal(d.month) + "-" + Decimal(d.day)
  }

  /** Reads a date written as three decimal numbers joined by '-'. */
  function ParseIsoDate(s: string): Option<Date> {
    var parts := Split(s, '-');
    if |parts| != 3 then None
    else
      match (ParseDecimal(parts[0]), ParseDecimal(parts[1]), ParseDecimal(parts[2]))
      case (Some(y), Some(m), Some(d)) => Some(Date(y, m, d))
      case _ => None
  }

  /** The date text names the date it was made from. */
  lemma IsoDateRoundTrip(d: Date)
    ensures ParseIsoDate(IsoDate(d)) == Some(d)
  {
    var y, m, dd := Decimal(d.year), Decimal(d.month), Decimal(d.day);
    DecimalHasNo(d.year, '-');
    DecimalHasNo(d.month, '-');
    DecimalHasNo(d.day, '-');
    assert IsoDate(d) == y + ['-'] + (m + ['-'] + dd);
    SplitAround(y, m + ['-'] + dd, '-');
    SplitAround(m, dd, '-');
    SplitNoSeparator(dd, '-');
    assert Split(IsoDate(d), '-') == [y, m, dd];
    DecimalRoundTrip(d.year);
    DecimalRoundTrip(d.month);
    DecimalRoundTrip(d.day);
  }

  /**
   * A month before October is written with one digit, where the ISO 8601
   * extended calendar format (section 4.1.2.2 of ISO 8601:2004) needs two.
   */
  lemma NotZeroPadded(d: Date)
    requires 1 <= d.month <= 9
    ensures |Split(IsoDate(d), '-')| == 3
    ensures |Split(IsoDate(d), '-')[1]| == 1
  {
    var y, m, dd := Decimal(d.year), Decimal(d.month), Decimal(d.day);
    DecimalHasNo(d.year, '-');
    DecimalHasNo(d.month, '-');
    DecimalHasNo(d.day, '-');
    assert IsoDate(d) == y + ['-'] + (m + ['-'] + dd);
    SplitAround(y, m + ['-'] + dd, '-');
    SplitAround(m, dd, '-');
    SplitNoSeparator(dd, '-');
  }

  /** `iso_date_prefix`: the upload's name inside a folder named after the date. */
  function IsoDatePrefix(today: Date, fileNameExt: string): string {
    IsoDate(today) + "/" + fileNameExt
  }

  /**
   * The example application's `set_file_path_name`: date folder, then a
   * folder named after the attachment's content type. The content type is
   * optional on the model; without one the attribute access fails.
   */
  function SetFilePathName(today: Date, contentTypeName: Option<string>, fileNameExt: string): (r: Result<string>)
    ensures r.Err? <==> contentTypeName.None?
    ensures r.Err? ==> r.error == AttributeError
  {
    match contentTypeName
    case None => Err(AttributeError)
    case Some(t) => Ok(IsoDate(today) + "/" + t + "/" + fileNameExt)
  }

  /** `file_name`: the part of the stored name after its last '/'; a missing name reads as deleted. */
  function FileName(name: Option<string>): (r: string)
    ensures name.None? ==> r == DELETED_OBJECT_TEXT
    ensures name.Some? ==> '/' !in r
  {
    match name
    case None => DELETED_OBJECT_TEXT
    case Some(n) => LastSegmentFree(n, '/'); LastSegment(n, '/')
  }

  /** For names built by either naming function, `file_name` recovers the uploaded file's own name. */
  lemma FileNameRecoversUpload(today: Date, contentTypeName: string, f: string)
    requires '/' !in f
    ensures FileName(Some(IsoDatePrefix(today, f))) == f
    ensures SetFilePathName(today, Some(contentTypeName), f).Ok?
    ensures FileName(Some(SetFilePathName(today, Some(contentTypeName), f).value)) == f
  {
    LastSegmentAfter(IsoDate(today), f, '/');
    LastSegmentAfter(IsoDate(today) + "/" + contentTypeName, f, '/');
  }

  /** The date folder is the first component of every prefixed name. */
  lemma DatePrefixIsFirstFolder(today: Date, f: string)
    ensures Split(IsoDatePrefix(today, f), '/')[0] == IsoDate(today)
    ensures |Split(IsoDatePrefix(today, f), '/')| >= 2
  {
    DecimalHasNo(today.year, '/');
    DecimalHasNo(today.month, '/');
    DecimalHasNo(today.day, '/');
    SplitAround(IsoDate(today), f, '/');
  }

  /** An attachment row: its key and the name of the file field, `None` when there is no file. */
  type Table = map<int, Option<string>>

  /**
   * The example models' `delete` overrides: the stored object is removed
   * first (Django skips the call for an empty file field) and only then is
   * the row deleted. A failing removal propagates, so the row stays.
   */
  function DeleteAttachment(env: Env, b: Backend, st: Store, rows: Table, pk: int): (r: Result<(Store, Table)>)
    requires pk in rows
    ensures r.Ok? ==> r.value.1 == rows - {pk}
    ensures r.Ok? && rows[pk].Some? && rows[pk].value != "" ==>
              !r.value.0.Has(b.bucket, env.asPosix(rows[pk].value))
    ensures r.Err? <==> rows[pk].Some? && rows[pk].value != "" && Delete(env, b, st, rows[pk].value).Err?
  {
    var st' :- match rows[pk]
               case Some(name) => if name != "" then Delete(env, b, st, name) else Ok(st)
               case None => Ok(st);
    Ok((st', rows - {pk}))
  }

  /** After a successful delete no stored object is left behind for the removed row. */
  lemma DeleteLeavesNoOrphan(env: Env, b: Backend, st: Store, rows: Table, pk: int)
    requires pk in rows && rows[pk].Some? && rows[pk].value != ""
    requires DeleteAttachment(env, b, st, rows, pk).Ok?
    ensures var (st', rows') := DeleteAttachment(env, b, st, rows, pk).value;
            pk !in rows' && st'.ObjectAt(b.bucket, env.asPosix(rows[pk].value)).None? &&
            forall bk, k :: (bk, k) != (b.bucket, env.asPosix(rows[pk].value)) ==> st'.ObjectAt(bk, k) == st.ObjectAt(bk, k)
  {
  }
}
