# django-minio-backend, modelled in Dafny

This project models the core of django-minio-backend, a Django storage backend
that keeps uploaded and static files in MinIO (an S3-compatible object store).
It models these parts:

- **Backend configuration.** `MinioBackend.__init__`, `validate_settings` and
  `MinioBackendStatic` map a `STORAGES` registry plus keyword arguments to a
  backend record or to the exception the constructor raises (`Config`).
- **Storage operations.** Save, stat, exists, size, delete, open, URLs, bucket
  maintenance, the public-read policy and the availability probe (`Storage`,
  `Policy`, `ServerStatus`). They run over an in-memory object store
  (`ObjectStore`).
- **The two management commands.** `initialize_buckets` (`InitializeBuckets`)
  and `clean_orphaned_minio_files` (`CleanOrphans`).
- **The start-up checks** of `DjangoMinioBackendConfig.ready` (`AppStartup`).
- **Object naming** and the delete order of the example application
  (`Naming`).

Supporting modules:

- `Outcomes` holds `Result`, `Option` and the error kinds.
- `Options` models Python keyword dictionaries and truthiness.
- `Text` holds the string operations the code relies on (`split`, `join`,
  `startswith`, `in`, decimal rendering and the key order of listings). Each has
  an independent reference definition or inverse.

Each Python exception becomes an `Err` value:

- `ConfigurationError`, `PrivatePublicMixedError`, `KeyError`, `AttributeError`,
  `ValueError`, `NotImplementedError`, `ConnectionError`;
- store failures: `S3Error`, and urllib3's `MaxRetryError` for an unreachable
  server.

Operations that change the store return the new store.

Calls into libraries whose code is not part of this model are parameters of the
`Storage.Env` record, and no rule about them is assumed:

- `Path(name).as_posix()`
- `mimetypes.guess_type`
- the SDK client's base URL
- presigned URL generation, which gives a URL or raises; a connection failure
  (`MaxRetryError`) is told apart from any other exception

The following are parameters too:

- the current date
- the server's write time
- the outcome of the HTTP probe
- the random alternatives of Django's `get_available_name`

## Model

| member | source | states |
|---|---|---|
| Options.Merge | django_minio_backend/models.py:84-85 | explicitly passed keyword arguments win; `OPTIONS` only fill the keys that were not passed; the merged keys are the union |
| Config.ResolveBucket | django_minio_backend/models.py:87-92 | a truthy `bucket_name` is the bound bucket; otherwise `MINIO_DEFAULT_BUCKET`; otherwise "auto-generated-bucket-media-files" |
| Config.DefaultBucketPrecedence | django_minio_backend/models.py:84-92 | a `MINIO_DEFAULT_BUCKET` passed explicitly decides the bucket over the storage's `OPTIONS` when `bucket_name` is missing or empty |
| Config.BoundPrivateBuckets | django_minio_backend/models.py:114-122 | the declared private list is kept as a prefix; only the bound bucket is added; the default media bucket and an undeclared bucket always end up private |
| Config.ValidateSettings | django_minio_backend/models.py:439-459 | passes exactly when some bucket list is non-empty, endpoint, access key and secret key are truthy, and `MINIO_USE_HTTPS` is not `None`; it only ever raises `ConfigurationError` |
| Config.Construct | django_minio_backend/models.py:77-133 | a built backend has its bound bucket in PRIVATE or PUBLIC and disjoint lists, and passes `validate_settings`; an explicit `bucket_name` or PUBLIC list wins; errors are only `KeyError`, `ConfigurationError` or `PrivatePublicMixedError` |
| Config.BoundBucketClassification | django_minio_backend/models.py:114-122 | after construction, PUBLIC is the declared list and PRIVATE extends the declared list; a default or undeclared bucket is private and not public |
| Config.MixedErrorIff | django_minio_backend/models.py:114-132 | `PrivatePublicMixedError` is raised iff the declared lists overlap, or the bound bucket is the default media bucket and is declared public |
| Config.ConfigurationErrorIff | django_minio_backend/models.py:82-133 | construction raises `ConfigurationError` iff `OPTIONS` is missing or empty, or there is no list clash and a mandatory parameter is missing; the "no buckets" branch never decides it |
| Config.ConstructDefaults | django_minio_backend/models.py:101-112 | unset options default as documented: the external endpoint and its HTTPS flag follow the internal ones, the URL expiry is 604800 s, the region is "us-east-1", and replace-existing is off |
| Config.ConstructStatic | django_minio_backend/models.py:472-476 | the static backend binds to the static bucket, whose PUBLIC list is exactly that bucket; the bucket is public and not private |
| Config.StaticDefaultMediaClash | django_minio_backend/models.py:470-476 | a static bucket named like the default media bucket always fails with `PrivatePublicMixedError` on that one name |
| Policy.PublicReadGrantsReads | django_minio_backend/models.py:411-437 | the public document, version 2012-10-17, lets anyone get the bucket location, list the bucket and read every object in it |
| Policy.PublicReadIsReadOnly | django_minio_backend/models.py:413-436 | the public document allows no action except the three read actions |
| Policy.PublicReadConfinedToBucket | django_minio_backend/models.py:420-434 | the public document of one bucket grants nothing on another bucket or on that bucket's objects |
| ObjectStore.PutThenRead | django_minio_backend/models.py:161-170 | a written object reads back with the same bytes, size and content type; no other object changes |
| ObjectStore.RemoveObjectsEffect | django_minio_backend/management/commands/clean_orphaned_minio_files.py:114-124 | a bulk removal deletes exactly the requested keys that are not locked and reports exactly the locked ones |
| ObjectStore.RefusedCount | django_minio_backend/management/commands/clean_orphaned_minio_files.py:114-124 | for a request without repeated keys, the request size minus one per reported error is the number of keys the bulk removal deletes |
| ObjectStore.ListingComplete | django_minio_backend/management/commands/clean_orphaned_minio_files.py:94-96 | a recursive listing holds every key of the bucket exactly once, in ascending key order |
| ServerStatus.FromResponse | django_minio_backend/utils.py:22-41 | available iff there is a response with status 403; `data` is the body, or "No data available" when the body is empty; no response records the "no HTTP request" message; any other status records the available text and then the reason |
| ServerStatus.AddMessage | django_minio_backend/utils.py:46-47 | appends one message and changes neither availability, status nor data |
| ServerStatus.Repr | django_minio_backend/utils.py:57-60 | "MinIO is available" iff available; otherwise "MinIO is NOT available" |
| ServerStatus.DetailsAfterAddMessage | django_minio_backend/utils.py:46-55 | adding a message extends the details by a newline and that message, and keeps availability |
| ServerStatus.DetailsRoundTrip | django_minio_backend/utils.py:53-55 | messages without newlines can be read back from the details, in insertion order |
| ServerStatus.NoResponseNeverAvailable | django_minio_backend/utils.py:32-51 | a status built without a response stays unavailable whatever is added, and its first message is the "no HTTP request" text |
| ServerStatus.RefusalDetailsReadAvailable | django_minio_backend/utils.py:39-41 | a non-403 response is unavailable, yet its details are "MinIO is available", a newline, then "Reason: " and the data; their first line contradicts `__repr__` |
| Storage.ContentType | django_minio_backend/models.py:298-305 | a present `content_type` attribute is used as it is, `None` and "" included; only a missing attribute falls back to the guess from the name, else "application/octet-stream" |
| Storage.AttributeIgnoresGuess | django_minio_backend/models.py:299-301 | when the upload has the attribute, the name-based guess has no influence on the type |
| Storage.ContentTypeNoneIff | django_minio_backend/models.py:298-305 | the type handed to `put_object` is `None` exactly when the upload's attribute is present and `None` |
| Storage.EnsureBucket | django_minio_backend/models.py:396-399 | a reachable store gets the bucket if absent; existing buckets and their objects are untouched; an unreachable store gives `MaxRetryError` |
| Storage.CheckBucketExistenceIdempotent | django_minio_backend/models.py:396-399 | ensuring the bucket twice does what ensuring it once does |
| Storage.EnsureBuckets | django_minio_backend/models.py:401-405 | the buckets afterwards are the old ones plus exactly the listed ones; existing contents and policies are untouched |
| Storage.CheckBucketExistencesIdempotent | django_minio_backend/models.py:401-405 | after `check_bucket_existences` every public and private bucket exists, and a second run changes nothing |
| Storage.SetPolicy | django_minio_backend/models.py:407-409 | the bucket's policy is replaced by the document; buckets and objects are untouched; a missing bucket or unreachable server fails |
| Storage.SetBucketToPublicGrantsReads | django_minio_backend/models.py:411-437 | after `set_bucket_to_public` the bucket's policy has three statements, anyone may list the bucket and read each object, and nothing else is allowed |
| Storage.Stat | django_minio_backend/models.py:200-207 | succeeds iff the normalised name is stored; then it reports that name and the stored length; every failure is one `AttributeError` |
| Storage.Exists | django_minio_backend/models.py:220-229 | true iff the twice-normalised name is stored in a reachable store; never raises |
| Storage.ExistsIffStat | django_minio_backend/models.py:220-229 | `exists(n)` holds iff `stat(n)` succeeds, whenever normalisation is idempotent on `n` |
| Storage.Size | django_minio_backend/models.py:236-243 | the stored length of the object, or 0 when the stat fails |
| Storage.Delete | django_minio_backend/models.py:209-218 | removes exactly the normalised name and nothing else; removing an absent key succeeds; store errors reach the caller |
| Storage.DeleteIdempotent | django_minio_backend/models.py:209-218 | deleting twice leaves the store as deleting once |
| Storage.Open | django_minio_backend/models.py:182-198 | any mode but "rb" is a `ValueError`; otherwise the file under the given name with the stored bytes, if stored |
| Storage.GetModifiedTime | django_minio_backend/models.py:289-296 | succeeds iff the stat succeeds, otherwise `AttributeError` |
| Storage.AlwaysFailing | django_minio_backend/models.py:271-287 | `path`, `get_accessed_time` and `get_created_time` always raise `NotImplementedError` |
| Storage.Save | django_minio_backend/models.py:138-171 | returns the normalised name and stores the upload's bytes, content type and time under it; no other object changes; it fails exactly when the store is unreachable, the bucket is missing and not checked on save, or the existing object to replace is locked |
| Storage.SaveThenRead | django_minio_backend/models.py:156-171 | after a save, stat reports the content length, type and write time, and opening the returned name yields the uploaded bytes |
| Storage.SaveThenExists | django_minio_backend/models.py:161-171 | a saved name exists afterwards |
| Storage.AvailableName | django_minio_backend/models.py:173-180 | with replace-existing the name is kept; otherwise the result is the name or one of its alternatives, and it does not exist yet |
| Storage.AvailableNameNoOverwrite | django_minio_backend/models.py:173-180 | without replace-existing, saving under the chosen name never changes an object that was already stored |
| Storage.UrlClient | django_minio_backend/models.py:372-393 | the URL client always points at the external endpoint; with equal endpoints it takes the internal HTTPS flag |
| Storage.Url | django_minio_backend/models.py:245-269 | a public bucket gets base URL + bucket + "/" + name; a private bucket gets the presigned URL with the configured expiry; only a presigner connection failure (`MaxRetryError`) becomes `ConnectionError`, and any other exception the presigner raises is passed through unchanged |
| Storage.PublicUrlUnsigned | django_minio_backend/models.py:255-258 | a public URL does not depend on the presigner and always succeeds |
| Storage.UrlUsesRawName | django_minio_backend/models.py:256-264 | the URL uses the name as passed; when normalisation changes the name, the public URL names a different key than the one saved |
| Storage.IsMinioAvailable | django_minio_backend/models.py:328-347 | an empty endpoint is unavailable with the "not configured" message; otherwise available iff the probe answered 403; connection and other failures record their reason |
| Storage.ConstructedProbeDecides | django_minio_backend/models.py:328-338 | for a backend the constructor accepted, only the probe's answer decides availability |
| Text.DecimalRoundTrip | django_minio_backend/models.py:38-41 | the unpadded decimal rendering of a number parses back to that number |
| Naming.IsoDateRoundTrip | django_minio_backend/models.py:38-41 | the date text splits at '-' into year, month and day, which parse back to the date |
| Naming.NotZeroPadded | django_minio_backend/models.py:38-41 | a month before October is written with one digit, unlike the ISO 8601 extended format |
| Naming.DatePrefixIsFirstFolder | django_minio_backend/models.py:44-49 | the date is the first '/'-separated component of every prefixed name |
| Naming.SetFilePathName | DjangoExampleApplication/models.py:108-114 | with a content type the path is date + "/" + type + "/" + name; without one the attribute access fails |
| Naming.FileName | DjangoExampleApplication/models.py:123-128 | "[Deleted Object]" for a missing name; otherwise a text without '/' |
| Naming.FileNameRecoversUpload | DjangoExampleApplication/models.py:71-76 | for names built by `iso_date_prefix` or `set_file_path_name`, `file_name` gives back the uploaded file's own name |
| Text.LastSegmentAfter | DjangoExampleApplication/models.py:74-74 | the last '/'-segment of `a + "/" + f` is `f` when `f` has no '/' |
| Naming.DeleteAttachment | DjangoExampleApplication/models.py:116-121 | the row goes only if the object removal succeeded; after success, the row's normalised object is gone |
| Naming.DeleteLeavesNoOrphan | DjangoExampleApplication/models.py:27-33 | after a successful delete the row is gone, its object is gone, and every other object is unchanged |
| InitializeBuckets.EntryPlan | django_minio_backend/management/commands/initialize_buckets.py:20-51 | entries not backed by this package contribute nothing |
| InitializeBuckets.ForeignEntrySkipped | django_minio_backend/management/commands/initialize_buckets.py:20-22 | a foreign entry neither adds effects nor stops the walk |
| InitializeBuckets.StaticEntryPlan | django_minio_backend/management/commands/initialize_buckets.py:24-29 | a static entry does exactly two things: ensure its bucket, then make it public |
| InitializeBuckets.BucketList | django_minio_backend/management/commands/initialize_buckets.py:32-36 | the list is public ++ private, plus `MINIO_DEFAULT_BUCKET` (possibly `None`) exactly when it is not declared |
| InitializeBuckets.BucketBoundPublic | django_minio_backend/management/commands/initialize_buckets.py:38-42 | the backend built for a listed bucket binds to it, and is public iff the options declare it public; the `None` entry appended for an unset default bucket binds to the default media bucket |
| InitializeBuckets.BucketsPlanPublicIff | django_minio_backend/management/commands/initialize_buckets.py:37-42 | the public policy is written for exactly the buckets declared public, and every listed bucket is ensured |
| InitializeBuckets.BucketsPlanCounts | django_minio_backend/management/commands/initialize_buckets.py:37-47 | each listed bucket is ensured once and there are |buckets| x |hooks| hook calls |
| InitializeBuckets.HookedBucketLastWrite | django_minio_backend/management/commands/initialize_buckets.py:41-47 | the last policy written on a hooked bucket is that of the last hook naming it |
| InitializeBuckets.ExecuteLastWrite | django_minio_backend/management/commands/initialize_buckets.py:41-47 | after the calls run, a bucket's policy is its last policy write, and is unchanged when nothing wrote it |
| InitializeBuckets.ExecuteBucketsExist | django_minio_backend/management/commands/initialize_buckets.py:37-39 | after the calls run, every bucket a call named exists |
| InitializeBuckets.BackendEntryBucketsExist | django_minio_backend/management/commands/initialize_buckets.py:32-39 | after a successful run of a `MinioBackend` entry, every bucket of its list exists |
| InitializeBuckets.BackendEntryHookPolicy | django_minio_backend/management/commands/initialize_buckets.py:41-47 | after a successful run of a `MinioBackend` entry, a hooked bucket carries the policy of its last hook |
| InitializeBuckets.RunBucketsExist | django_minio_backend/management/commands/initialize_buckets.py:16-53 | a successful command built every backend it needed, and every bucket it touched exists |
| CleanOrphans.References | django_minio_backend/management/commands/clean_orphaned_minio_files.py:56-69 | a reference is a row with a non-NULL, non-empty path, and every such row gives one |
| CleanOrphans.Referenced | django_minio_backend/management/commands/clean_orphaned_minio_files.py:62-70 | the referenced set is exactly the referenced paths and never holds "" |
| CleanOrphans.Orphans | django_minio_backend/management/commands/clean_orphaned_minio_files.py:101-106 | the orphans are exactly the listed keys not referenced, in listing order |
| CleanOrphans.CleanBucket | django_minio_backend/management/commands/clean_orphaned_minio_files.py:93-157 | a dry run changes nothing; a real run removes only unreferenced, unlocked keys of that bucket; the reported orphans are the computed ones; a listing failure is reported, not raised; a real run's error count is the number of refused orphans, so the bucket's contribution to the total is exactly the number of orphans removed |
| CleanOrphans.CleanOrphanedFiles | django_minio_backend/management/commands/clean_orphaned_minio_files.py:84-157 | one outcome per bucket in order; the total is the sum of the counts and is never negative; only unreferenced objects of swept buckets ever disappear |
| CleanOrphans.ReferencedObjectsSurvive | django_minio_backend/management/commands/clean_orphaned_minio_files.py:101-116 | no referenced object is removed from any bucket |
| CleanOrphans.SweepRemovesOrphan | django_minio_backend/management/commands/clean_orphaned_minio_files.py:88-127 | a real sweep of a reachable store removes every unreferenced, unlocked object of every swept bucket |
| CleanOrphans.WorkedExample | django_minio_backend/management/commands/clean_orphaned_minio_files.py:101-146 | for the listing a, b, c with only b referenced, the orphans are a and c and a dry run counts 2 |
| CleanOrphans.ExaminedIffSlash | django_minio_backend/management/commands/clean_orphaned_minio_files.py:188-189 | a reference is examined iff its path contains '/' |
| CleanOrphans.ResolveLocation | django_minio_backend/management/commands/clean_orphaned_minio_files.py:192-206 | the bucket is the first configured one occurring in the path; the object name loses a leading "bucket/" and is otherwise the path; no match is `AttributeError` |
| CleanOrphans.MissingRefs | django_minio_backend/management/commands/clean_orphaned_minio_files.py:184-216 | exactly the examined references whose object cannot be statted |
| CleanOrphans.CheckMissing | django_minio_backend/management/commands/clean_orphaned_minio_files.py:172-236 | the count is the number of missing examined references; it is 0 iff none is missing; an unresolvable reference aborts with `AttributeError` |
| CleanOrphans.HandleWith | django_minio_backend/management/commands/clean_orphaned_minio_files.py:29-82 | `Err` only when the default backend cannot be built, before any sweep; one outcome per swept bucket; only unreferenced objects of swept buckets change; the missing pass runs iff requested, and the `AttributeError` the command raises after the sweep for an unresolvable reference (lines 204-206) is reported as `missing == Some(Err(AttributeError))`, exactly when some examined reference resolves to no bucket |
| CleanOrphans.HandleAsWritten | django_minio_backend/management/commands/clean_orphaned_minio_files.py:36-37 | the only bucket swept is "docic" |
| CleanOrphans.AsWrittenMissesConfiguredBuckets | django_minio_backend/management/commands/clean_orphaned_minio_files.py:36-37 | as written, no object of any bucket other than "docic" is ever removed |
| CleanOrphans.Handle | django_minio_backend/management/commands/clean_orphaned_minio_files.py:36-37 | the swept buckets are the configured private and public buckets, in order |
| CleanOrphans.CorrectedSweepsConfiguredBuckets | django_minio_backend/management/commands/clean_orphaned_minio_files.py:84-127 | with the configured buckets swept, every unreferenced, unlocked object of a configured bucket is removed |
| AppStartup.ExternalPairingCases | django_minio_backend/apps.py:27-35 | an endpoint with a `None` flag fails; a truthy flag without an endpoint fails; neither set passes; an endpoint with any explicit flag, `False` included, passes |
| AppStartup.ReadyWith | django_minio_backend/apps.py:14-41 | a default backend that cannot be built is the error, with the store untouched; without the consistency check the store changes only through the static bucket check |
| AppStartup.Ready | django_minio_backend/apps.py:14-41 | validation errors of the default backend come first and leave the store untouched |
| AppStartup.InitialisationBeforeExternalCheck | django_minio_backend/apps.py:18-35 | bucket initialisation runs iff the consistency setting is truthy, before the external-endpoint check; its failure wins, and otherwise a bad pairing fails after it |
| AppStartup.MissingStaticSettingFails | django_minio_backend/apps.py:37-39 | an unset `STATICFILES_STORAGE` raises `AttributeError` once the earlier checks pass |
| AppStartup.ReadyAsWritten | django_minio_backend/apps.py:37-41 | validation errors of the default backend come first and leave the store untouched |
| AppStartup.AsWrittenChecksDefaultStaticBucket | django_minio_backend/apps.py:39-41 | as written, the default static bucket is ensured, while the bucket the "staticfiles" storage names stays missing |
| AppStartup.StaticBucketEnsured | django_minio_backend/apps.py:39-41 | with the static backend built from its `OPTIONS`, start-up succeeds iff the store is reachable, and the storage's bucket then exists |
| Text.SplitJoin | django_minio_backend/utils.py:53-55 | splitting the newline-joined messages gives the messages back when none contains a newline |
| Text.ContainsIffOccurs | django_minio_backend/management/commands/clean_orphaned_minio_files.py:197-197 | the substring test agrees with the positional definition of an occurrence |
| Text.SortedKeys | django_minio_backend/management/commands/clean_orphaned_minio_files.py:94-96 | each key of the set occurs once, and the keys are in ascending order |

## Left out

- SDK and HTTP calls: the MinIO SDK, urllib3 and the HTTP probe are replaced by
  the in-memory `ObjectStore.Store`. It has two failure inputs: `reachable`
  (the server can be reached) and `locked` (objects the server refuses to
  delete). Presigned and base URLs are opaque functions of `Storage.Env`.
- Library behaviour: `Path.as_posix`, `mimetypes.guess_type` and `json.dumps`
  are uninterpreted. The policy is kept as a structured document, not as its
  JSON text.
- Time: clocks and time zones (`datetime.now`, `USE_TZ` in
  `get_modified_time`). The date and the write time are parameters.
- Mistyped options: an option whose value has an unexpected Python type is read
  as absent. This includes an explicit `None` for `MINIO_DEFAULT_BUCKET`, which
  Python would keep as the bucket name.
- Shared lists: when `OPTIONS` declares `MINIO_PRIVATE_BUCKETS`, the
  constructor (`models.py:117-122`) and `initialize_buckets`
  (`initialize_buckets.py:35-36`) append to that very list object, and the
  appended names stay there for the life of the process. The model gives
  every construction a fresh copy of the declared lists, so these effects of
  one call on later ones are not modelled:
  - a media default or undeclared bucket that one `MinioBackend(bucket_name=...)`
    appended is private for every later backend of that storage, and the
    missing-file pass of `clean_orphaned_minio_files` then also resolves paths
    against it;
  - after one `PrivatePublicMixedError` on a media default bucket declared
    public, every later construction of that storage raises it as well;
  - `initialize_buckets` also walks the names that the start-up
    `MinioBackend()` in `apps.py` appended, and the `MINIO_DEFAULT_BUCKET`
    (possibly `None`) it appends itself stays in the settings.
- The `S3File` re-open handle, and the `metadata`, `sse` and `progress`
  arguments of `put_object`.
- `listdir`: not part of the modelled operations.
- Output: console messages, logging, `file_fields_count` and the message texts
  of the management commands.
- Storage.AvailableName: Django's `max_length` truncation is not modelled. The
  randomised alternatives are a finite sequence given by the caller, so the
  result is `None` when all of them are taken.
- Client objects: clients are not cached, and one store serves every backend
  instance. Lazy listings and bulk removals are taken as atomic.
- Naming.DeleteAttachment: requires the row to exist. The ORM lookup that
  produces the instance is not modelled, and neither is `bulk_delete`, which
  the source says skips the override.
- Registry keys: `STORAGES` is a sequence of pairs, and storage names are taken
  to be distinct, as the keys of a Python dict are. With a repeated name,
  `Config.Lookup` finds the first entry.

## Findings

| source | as written | input that shows it | evidently intended | confidence | as-written member | corrected member |
|---|---|---|---|---|---|---|
| django_minio_backend/management/commands/clean_orphaned_minio_files.py:36-37 | the bucket list to sweep is the literal `["docic"]`, under the comment "Get all buckets" | any configuration without a bucket "docic", where a configured bucket holds an object no row references: the object is never removed | sweep the configured buckets (private, then public) | medium; not executed | CleanOrphans.HandleAsWritten (with CleanOrphans.AsWrittenMissesConfiguredBuckets) | CleanOrphans.Handle (with CleanOrphans.CorrectedSweepsConfiguredBuckets) |
| django_minio_backend/apps.py:39-41 | `ready` builds `MinioBackendStatic()` with no keyword arguments, so the static bucket is always the default name; Django builds the "staticfiles" storage from its `OPTIONS` | the "staticfiles" `OPTIONS` set `MINIO_STATIC_FILES_BUCKET` to "assets": `ready` creates "auto-generated-bucket-static-files" and leaves "assets" missing | check the bucket of the storage Django actually uses, built from the "staticfiles" `OPTIONS` | medium; not executed | AppStartup.ReadyAsWritten (with AppStartup.AsWrittenChecksDefaultStaticBucket) | AppStartup.Ready (with AppStartup.StaticBucketEnsured) |
