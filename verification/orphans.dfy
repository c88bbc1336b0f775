/**
 * The `clean_orphaned_minio_files` management command. It deletes stored
 * objects that no database row references (or only reports them in a dry
 * run), and optionally counts rows that reference objects that are not
 * stored.
 *
 * The database is the list of rows of every file field of every model.
 * Which buckets are swept is the one point where the code
 * and its evident intent part ways: `HandleAsWritten` sweeps the single
 * bucket named in the code; `Handle` sweeps the configured buckets.
 */
module CleanOrphans {
  import opened Outcomes
  import opened Text
  import opened Options
  import opened ObjectStore
  import opened Config
  import opened Storage

  /** The bucket list `handle` sweeps, as the code has it. */
  const AS_WRITTEN_BUCKETS := ["docic"]

  /**
   * One row of one file field, as the command's loops over models, their
   * file fields and the rows visit them; `value` is `None` for SQL NULL.
   */
  datatype Row = Row(model: string, field: string, pk: int, value: Option<string>)

  /** A row that references a stored file. */
  datatype Reference = Reference(model: string, field: string, pk: int, path: string)

  /** A field value references a file when it is not NULL and not empty. */
  predicate IsReference(value: Option<string>) {
    value.Some? && value.value != ""
  }

  /** The rows that reference files (`db_files_by_model`, flattened in visiting order). */
  function References(rows: seq<Row>): (r: seq<Reference>)
    ensures |r| <= |rows|
    ensures forall x :: x in r <==> x.path != "" && Row(x.model, x.field, x.pk, Some(x.path)) in rows
    decreases |rows|
  {
    if rows == [] then []
    else
      var rest := References(rows[1..]);
      assert forall x :: x in rows <==> x == rows[0] || x in rows[1..];
      var row := rows[0];
      if IsReference(row.value) then [Reference(row.model, row.field, row.pk, row.value.value)] + rest else rest
  }

  /** The set of referenced paths (`db_files`). */
  function Referenced(rows: seq<Row>): (r: set<string>)
    ensures "" !in r
    ensures forall p :: p in r <==> exists x :: x in References(rows) && x.path == p
  {
    set x | x in References(rows) :: x.path
  }

  /** The listed objects no row references, in listing order. */
  function Orphans(listing: seq<string>, referenced: set<string>): (r: seq<string>)
    ensures |r| <= |listing|
    ensures forall k :: k in r <==> k in listing && k !in referenced
    ensures (forall i, j :: 0 <= i < j < |listing| ==> Below(listing[i], listing[j])) ==>
              forall i, j :: 0 <= i < j < |r| ==> Below(r[i], r[j])
    decreases |listing|
  {
    if listing == [] then []
    else
      var rest := Orphans(listing[1..], referenced);
      if listing[0] in referenced then rest
      else
        assert (forall i, j :: 0 <= i < j < |listing| ==> Below(listing[i], listing[j])) ==>
                 forall k :: k in rest ==> Below(listing[0], k) by {
          if forall i, j :: 0 <= i < j < |listing| ==> Below(listing[i], listing[j]) {
            forall k | k in rest
              ensures Below(listing[0], k)
            {
              var j :| 0 <= j < |listing[1..]| && listing[1..][j] == k;
              assert listing[j + 1] == k;
            }
          }
        }
        [listing[0]] + rest
  }

  /** What happened to one swept bucket. */
  datatype BucketOutcome =
    | ProcessingFailed(bucket: string, error: Error)
    | NoOrphans(bucket: string)
    | WouldDelete(bucket: string, orphans: seq<string>)
    | Deleted(bucket: string, orphans: seq<string>, errorCount: nat)
  {
    /** What the bucket adds to the reported total. */
    function Counted(): int {
      match this
      case WouldDelete(_, orphans) => |orphans|
      case Deleted(_, orphans, errorCount) => |orphans| - errorCount
      case _ => 0
    }
  }

  function SumCounted(outcomes: seq<BucketOutcome>): int
    decreases |outcomes|
  {
    if outcomes == [] then 0 else outcomes[0].Counted() + SumCounted(outcomes[1..])
  }

  /** The body of the per-bucket `try`: list, pick the orphans, then report or remove them. */
  function CleanBucket(st: Store, bucket: string, referenced: set<string>, dryRun: bool): (r: (Store, BucketOutcome))
    ensures r.1.bucket == bucket
    ensures r.1.Counted() >= 0
    ensures dryRun ==> r.0 == st && !r.1.Deleted?
    ensures !dryRun ==> !r.1.WouldDelete?
    ensures forall bk, k :: r.0.ObjectAt(bk, k) != st.ObjectAt(bk, k) ==>
              bk == bucket && k !in referenced && r.0.ObjectAt(bk, k).None? && (bk, k) !in st.locked
    ensures r.0.policies == st.policies && r.0.locked == st.locked && r.0.reachable == st.reachable
    ensures (r.1.WouldDelete? || r.1.Deleted?) ==>
              ListObjects(st, bucket).Ok? && r.1.orphans == Orphans(ListObjects(st, bucket).value, referenced) &&
              r.1.orphans != []
    ensures r.1.NoOrphans? ==> ListObjects(st, bucket).Ok? && Orphans(ListObjects(st, bucket).value, referenced) == []
    ensures r.1.Deleted? ==> forall k :: k in r.1.orphans && (bucket, k) !in st.locked ==> !r.0.Has(bucket, k)
    ensures r.1.Deleted? ==> r.1.errorCount == |Refused(st, bucket, r.1.orphans)|
    ensures r.1.Deleted? ==> r.1.Counted() == |set k | k in r.1.orphans && (bucket, k) !in st.locked|
  {
    match ListObjects(st, bucket)
    case Err(e) => (st, ProcessingFailed(bucket, e))
    case Ok(listing) =>
      var orphans := Orphans(listing, referenced);
      if orphans == [] then (st, NoOrphans(bucket))
      else if dryRun then (st, WouldDelete(bucket, orphans))
      else
        match RemoveObjects(st, bucket, orphans)
        case Err(e) => (st, ProcessingFailed(bucket, e))
        case Ok((st', refused)) =>
          RemoveObjectsEffect(st, bucket, orphans);
          assert forall i, j :: 0 <= i < j < |orphans| ==> orphans[i] != orphans[j] by {
            forall i, j | 0 <= i < j < |orphans|
              ensures orphans[i] != orphans[j]
            {
              BelowIrreflexive(orphans[i]);
            }
          }
          RefusedCount(st, bucket, orphans);
          (st', Deleted(bucket, orphans, |refused|))
  }

  /** `_clean_orphaned_files`: every bucket in turn; a failure in one is reported and the loop goes on. */
  function CleanOrphanedFiles(st: Store, buckets: seq<string>, referenced: set<string>, dryRun: bool)
    : (r: (Store, seq<BucketOutcome>, int))
    ensures |r.1| == |buckets| && forall i :: 0 <= i < |buckets| ==> r.1[i].bucket == buckets[i]
    ensures r.2 == SumCounted(r.1) && r.2 >= 0
    ensures dryRun ==> r.0 == st
    ensures forall bk, k :: r.0.ObjectAt(bk, k) != st.ObjectAt(bk, k) ==>
              bk in buckets && k !in referenced && r.0.ObjectAt(bk, k).None? && (bk, k) !in st.locked
    ensures r.0.policies == st.policies && r.0.locked == st.locked && r.0.reachable == st.reachable
    decreases |buckets|
  {
    if buckets == [] then (st, [], 0)
    else
      var (st1, outcome) := CleanBucket(st, buckets[0], referenced, dryRun);
      var (st2, outcomes, total) := CleanOrphanedFiles(st1, buckets[1..], referenced, dryRun);
      (st2, [outcome] + outcomes, outcome.Counted() + total)
  }

  /** No object that a row references is ever removed, whatever the run. */
  lemma ReferencedObjectsSurvive(st: Store, buckets: seq<string>, rows: seq<Row>, dryRun: bool, x: Reference)
    requires x in References(rows)
    ensures forall bk :: CleanOrphanedFiles(st, buckets, Referenced(rows), dryRun).0.ObjectAt(bk, x.path) ==
                         st.ObjectAt(bk, x.path)
  {
    assert x.path in Referenced(rows);
  }

  /**
   * The resolution of a referenced path in the missing-file pass: the first
   * configured bucket that occurs in the path. The object name is the path
   * without a leading "<bucket>/", or the whole path when it does not start
   * so. No match, or a match on an empty bucket name, reads an attribute the
   * backend does not have.
   */
  function ResolveLocation(buckets: seq<string>, path: string): (r: Result<(string, string)>)
    ensures r.Ok? ==> exists i :: 0 <= i < |buckets| && buckets[i] == r.value.0 && Contains(path, buckets[i]) &&
                        forall j :: 0 <= j < i ==> !Contains(path, buckets[j])
    ensures r.Ok? ==> r.value.0 != ""
    ensures r.Ok? && StartsWith(path, r.value.0 + "/") ==> r.value.0 + "/" + r.value.1 == path
    ensures r.Ok? && !StartsWith(path, r.value.0 + "/") ==> r.value.1 == path
    ensures r.Err? ==> r.error == AttributeError
    ensures (forall i :: 0 <= i < |buckets| ==> !Contains(path, buckets[i])) ==> r.Err?
    decreases |buckets|
  {
    if buckets == [] then Err(AttributeError)
    else if Contains(path, buckets[0]) then
      if buckets[0] == "" then Err(AttributeError)
      else
        var prefix := buckets[0] + "/";
        if StartsWith(path, prefix) then
          assert prefix + path[|prefix|..] == path;
          Ok((buckets[0], path[|prefix|..]))
        else Ok((buckets[0], path))
    else
      var r := ResolveLocation(buckets[1..], path);
      if r.Ok? then
        var i :| 0 <= i < |buckets[1..]| && buckets[1..][i] == r.value.0 && Contains(path, buckets[1..][i]) &&
                 forall j :: 0 <= j < i ==> !Contains(path, buckets[1..][j]);
        assert buckets[i + 1] == r.value.0;
        assert forall j :: 1 <= j < i + 1 ==> buckets[j] == buckets[1..][j - 1];
        r
      else r
  }

  /** A path is examined when splitting it at '/' gives more than one part. */
  predicate Examined(path: string) {
    |Split(path, '/')| > 1
  }

  lemma ExaminedIffSlash(path: string)
    ensures Examined(path) <==> '/' in path
  {
    SplitManyIffSeparator(path, '/');
  }

  /** The backend `stat` sees once the pass has pointed it at a bucket. */
  function AtBucket(b: Backend, bucket: string): Backend {
    b.(bucket := bucket)
  }

  /** An examined reference whose resolved object cannot be statted. */
  predicate IsMissing(env: Env, b: Backend, st: Store, x: Reference)
    requires Examined(x.path) && ResolveLocation(b.privateBuckets + b.publicBuckets, x.path).Ok?
  {
    var (bucket, name) := ResolveLocation(b.privateBuckets + b.publicBuckets, x.path).value;
    Stat(env, AtBucket(b, bucket), st, name).Err?
  }

  /** Some examined reference resolves to no bucket. */
  predicate Unresolvable(b: Backend, refs: seq<Reference>) {
    exists i :: 0 <= i < |refs| && Examined(refs[i].path) &&
                ResolveLocation(b.privateBuckets + b.publicBuckets, refs[i].path).Err?
  }

  /** The examined references that are missing, in order. */
  function MissingRefs(env: Env, b: Backend, st: Store, refs: seq<Reference>): (r: seq<Reference>)
    requires !Unresolvable(b, refs)
    ensures forall x :: x in r <==> x in refs && Examined(x.path) && IsMissing(env, b, st, x)
    decreases |refs|
  {
    if refs == [] then []
    else
      assert !Unresolvable(b, refs[1..]) by {
        forall i | 0 <= i < |refs[1..]| && Examined(refs[1..][i].path)
          ensures ResolveLocation(b.privateBuckets + b.publicBuckets, refs[1..][i].path).Ok?
        {
          assert refs[1..][i] == refs[i + 1];
        }
      }
      var rest := MissingRefs(env, b, st, refs[1..]);
      if Examined(refs[0].path) && IsMissing(env, b, st, refs[0]) then [refs[0]] + rest else rest
  }

  /**
   * `_check_missing_files`: counts the examined references whose object is
   * not stored. An examined reference that resolves to no bucket aborts the
   * pass with `AttributeError`.
   */
  function CheckMissing(env: Env, b: Backend, st: Store, refs: seq<Reference>): (r: Result<nat>)
    ensures r.Err? <==> Unresolvable(b, refs)
    ensures r.Err? ==> r.error == AttributeError
    ensures r.Ok? ==> r.value == |MissingRefs(env, b, st, refs)|
    ensures r.Ok? ==> (r.value == 0 <==> forall x :: x in refs && Examined(x.path) ==> !IsMissing(env, b, st, x))
    decreases |refs|
  {
    if refs == [] then Ok(0)
    else
      var rest := CheckMissing(env, b, st, refs[1..]);
      assert Unresolvable(b, refs) <==>
               (Examined(refs[0].path) && ResolveLocation(b.privateBuckets + b.publicBuckets, refs[0].path).Err?) ||
               Unresolvable(b, refs[1..]) by {
        if Unresolvable(b, refs[1..]) {
          var i :| 0 <= i < |refs[1..]| && Examined(refs[1..][i].path) &&
                   ResolveLocation(b.privateBuckets + b.publicBuckets, refs[1..][i].path).Err?;
          assert refs[i + 1] == refs[1..][i];
        }
        if Unresolvable(b, refs) {
          var i :| 0 <= i < |refs| && Examined(refs[i].path) &&
                   ResolveLocation(b.privateBuckets + b.publicBuckets, refs[i].path).Err?;
          if i > 0 {
            assert refs[1..][i - 1] == refs[i];
          }
        }
      }
      if !Examined(refs[0].path) then rest
      else
        match ResolveLocation(b.privateBuckets + b.publicBuckets, refs[0].path)
        case Err(e) => Err(e)
        case Ok((bucket, name)) =>
          var here: nat := if Stat(env, AtBucket(b, bucket), st, name).Ok? then 0 else 1;
          match rest
          case Err(e) => Err(e)
          case Ok(n) => Ok(here + n)
  }

  /** What one run of the command reports. */
  datatype Report = Report(
    store: Store,
    outcomes: seq<BucketOutcome>,
    total: int,
    missing: Option<Result<nat>>)

  /**
   * `handle` with a given list of buckets to sweep. `Err` is a default
   * backend that cannot be built, before anything is swept. The missing-file
   * pass runs after the sweep and outside any `try`: when it raises
   * `AttributeError` on an unresolvable reference the command fails with
   * the sweep's removals already done, so the report keeps the swept store
   * and records the exception as `missing == Some(Err(AttributeError))`.
   */
  function HandleWith(env: Env, reg: Registry, rows: seq<Row>, st: Store, dryRun: bool, checkMissing: bool,
                      sweep: Backend -> seq<string>): (r: Result<Report>)
    ensures r.Err? <==> Construct(reg, DEFAULT_STORAGE, None, map[]).Err?
    ensures r.Ok? ==> r.value.total >= 0 && (r.value.missing.Some? <==> checkMissing)
    ensures r.Ok? && checkMissing ==>
              && (r.value.missing.value.Err? <==>
                    Unresolvable(Construct(reg, DEFAULT_STORAGE, None, map[]).value, References(rows)))
              && (r.value.missing.value.Err? ==> r.value.missing.value.error == AttributeError)
    ensures r.Ok? ==> var b := Construct(reg, DEFAULT_STORAGE, None, map[]).value;
                      |r.value.outcomes| == |sweep(b)| &&
                      (forall i :: 0 <= i < |sweep(b)| ==> r.value.outcomes[i].bucket == sweep(b)[i]) &&
                      forall bk, k :: r.value.store.ObjectAt(bk, k) != st.ObjectAt(bk, k) ==>
                        bk in sweep(b) && k !in Referenced(rows)
  {
    var storage :- Construct(reg, DEFAULT_STORAGE, None, map[]);
    var (st', outcomes, total) := CleanOrphanedFiles(st, sweep(storage), Referenced(rows), dryRun);
    var missing := if checkMissing then Some(CheckMissing(env, storage, st', References(rows))) else None;
    Ok(Report(st', outcomes, total, missing))
  }

  /** `handle` as the code has it: only the bucket "docic" is swept. */
  function HandleAsWritten(env: Env, reg: Registry, rows: seq<Row>, st: Store, dryRun: bool, checkMissing: bool)
    : (r: Result<Report>)
    ensures r.Err? <==> Construct(reg, DEFAULT_STORAGE, None, map[]).Err?
    ensures r.Ok? ==> |r.value.outcomes| == 1 && r.value.outcomes[0].bucket == "docic"
  {
    HandleWith(env, reg, rows, st, dryRun, checkMissing, (b: Backend) => AS_WRITTEN_BUCKETS)
  }

  /** The buckets the backend is configured with, private first, as the missing-file pass reads them. */
  function ConfiguredBuckets(b: Backend): seq<string> {
    b.privateBuckets + b.publicBuckets
  }

  /** `handle` sweeping every configured bucket, as its "Get all buckets" comment intends. */
  function Handle(env: Env, reg: Registry, rows: seq<Row>, st: Store, dryRun: bool, checkMissing: bool)
    : (r: Result<Report>)
    ensures r.Err? <==> Construct(reg, DEFAULT_STORAGE, None, map[]).Err?
    ensures r.Ok? ==> var b := Construct(reg, DEFAULT_STORAGE, None, map[]).value;
                      |r.value.outcomes| == |ConfiguredBuckets(b)| &&
                      forall i :: 0 <= i < |ConfiguredBuckets(b)| ==> r.value.outcomes[i].bucket == ConfiguredBuckets(b)[i]
  {
    HandleWith(env, reg, rows, st, dryRun, checkMissing, ConfiguredBuckets)
  }

  /**
   * As written, a configuration that does not name a bucket "docic" never
   * has an orphan removed from any of its buckets: the one sweep lists a
   * bucket the configuration does not use.
   */
  lemma AsWrittenMissesConfiguredBuckets(env: Env, reg: Registry, rows: seq<Row>, st: Store, checkMissing: bool,
                                         bucket: string, key: string)
    requires Construct(reg, DEFAULT_STORAGE, None, map[]).Ok?
    requires bucket != "docic"
    ensures var r := HandleAsWritten(env, reg, rows, st, false, checkMissing);
            r.Ok? && r.value.store.ObjectAt(bucket, key) == st.ObjectAt(bucket, key)
  {
  }

  /**
   * The corrected sweep leaves no unreferenced, unlocked object in any
   * configured bucket that could be listed: each one was an orphan and was
   * removed.
   */
  lemma CorrectedSweepsConfiguredBuckets(env: Env, reg: Registry, rows: seq<Row>, st: Store, checkMissing: bool,
                                         bucket: string, key: string)
    requires Construct(reg, DEFAULT_STORAGE, None, map[]).Ok?
    requires bucket in ConfiguredBuckets(Construct(reg, DEFAULT_STORAGE, None, map[]).value)
    requires st.reachable && bucket in st.buckets
    requires key !in Referenced(rows) && (bucket, key) !in st.locked
    ensures var r := Handle(env, reg, rows, st, false, checkMissing);
            r.Ok? && !r.value.store.Has(bucket, key)
  {
    var b := Construct(reg, DEFAULT_STORAGE, None, map[]).value;
    SweepRemovesOrphan(st, ConfiguredBuckets(b), Referenced(rows), bucket, key);
  }

  /**
   * A real sweep over a reachable store removes every unreferenced,
   * unlocked object of every listed bucket that exists.
   */
  lemma {:induction false} SweepRemovesOrphan(st: Store, buckets: seq<string>, referenced: set<string>,
                                              bucket: string, key: string)
    requires bucket in buckets
    requires st.reachable && bucket in st.buckets
    requires key !in referenced && (bucket, key) !in st.locked
    ensures !CleanOrphanedFiles(st, buckets, referenced, false).0.Has(bucket, key)
    decreases |buckets|
  {
    var (st1, outcome) := CleanBucket(st, buckets[0], referenced, false);
    var st2 := CleanOrphanedFiles(st1, buckets[1..], referenced, false).0;
    if buckets[0] == bucket {
      if st.Has(bucket, key) {
        ListingComplete(st, bucket);
        var listing := ListObjects(st, bucket).value;
        assert key in Orphans(listing, referenced);
        assert outcome.Deleted?;
      }
      assert !st1.Has(bucket, key);
      assert st1.ObjectAt(bucket, key).None?;
      assert st2.ObjectAt(bucket, key).None?;
    } else {
      assert bucket in buckets[1..];
      assert st1.reachable && bucket in st1.buckets;
      SweepRemovesOrphan(st1, buckets[1..], referenced, bucket, key);
    }
  }

  /**
   * The worked example: of the listing a, b, c with only b referenced,
   * a and c are orphans, and a dry run reports two of them.
   */
  lemma WorkedExample(bucket: string)
    ensures Orphans(["a", "b", "c"], {"b"}) == ["a", "c"]
    ensures WouldDelete(bucket, ["a", "c"]).Counted() == 2
  {
  }
}
