/**
 * The storage operations of `MinioBackend` over the abstract object store:
 * saving, statting, existence, size, deletion, opening, URLs, bucket
 * maintenance and the availability probe.
 *
 * Library behaviour the backend delegates to is passed in as an `Env`:
 * `Path(name).as_posix()`, `mimetypes.guess_type`, the SDK client's base URL
 * and presigned-URL generation. No rule about them is assumed beyond what a
 * lemma states in its own `requires`.
 */
module Storage {
  import opened Outcomes
  import opened Policy
  import opened Options
  import opened ObjectStore
  import opened Config
  import opened ServerStatus

  const OCTET_STREAM := "application/octet-stream"
  const READ_BINARY := "rb"
  const NOT_CONFIGURED_TEXT := "MINIO_ENDPOINT is not configured in Django settings"
  const PROBE_PATH := "/minio/index.html"

  /** Library functions the backend calls but does not define. */
  datatype Env = Env(
    asPosix: string -> string,
    guessType: string -> Option<string>,
    baseUrl: Client -> string,
    presign: (Client, string, string, int) -> Result<string>)

  /**
   * The `content_type` attribute of an uploaded file: missing altogether,
   * or present with a value that may be Python's `None`.
   */
  datatype TypeAttribute = NoAttribute | Attribute(value: Option<string>)

  /** An uploaded file: its bytes and its `content_type` attribute. */
  datatype Upload = Upload(data: seq<byte>, contentType: TypeAttribute)

  /** What `_open` hands back: the requested name and the object's bytes. */
  datatype File = File(name: string, data: seq<byte>)

  /**
   * `_guess_content_type`: whenever the upload has a `content_type`
   * attribute its value is used as it is, `None` and "" included; only
   * without the attribute is the type guessed from the name, falling back
   * to octet-stream.
   */
  function ContentType(env: Env, name: string, upload: Upload): (r: Option<string>)
    ensures upload.contentType.Attribute? ==> r == upload.contentType.value
    ensures upload.contentType.NoAttribute? && env.guessType(name).Some? ==> r == env.guessType(name)
    ensures upload.contentType.NoAttribute? && env.guessType(name).None? ==> r == Some(OCTET_STREAM)
  {
    match upload.contentType
    case Attribute(t) => t
    case NoAttribute =>
      match env.guessType(name)
      case Some(g) => Some(g)
      case None => Some(OCTET_STREAM)
  }

  /** The name-based guess is consulted only when the attribute is missing. */
  lemma AttributeIgnoresGuess(env: Env, name: string, upload: Upload, guess: string -> Option<string>)
    requires upload.contentType.Attribute?
    ensures ContentType(env.(guessType := guess), name, upload) == ContentType(env, name, upload)
  {
  }

  /** The type handed to `put_object` is `None` exactly when the upload carries a `None` attribute. */
  lemma ContentTypeNoneIff(env: Env, name: string, upload: Upload)
    ensures ContentType(env, name, upload).None? <==> upload.contentType == Attribute(None)
  {
  }

  /**
   * Create-if-absent: `bucket_exists` followed by `make_bucket` when it
   * reports false. Buckets that already exist are left as they are.
   */
  function EnsureBucket(st: Store, bucket: string): (r: Result<Store>)
    ensures r.Ok? <==> st.reachable
    ensures r.Err? ==> r.error == MaxRetryError
    ensures r.Ok? ==> r.value.buckets.Keys == st.buckets.Keys + {bucket}
    ensures r.Ok? ==> forall bk :: bk in st.buckets ==> r.value.buckets[bk] == st.buckets[bk]
    ensures r.Ok? && bucket !in st.buckets ==> r.value.buckets[bucket] == map[]
    ensures r.Ok? ==> r.value.policies == st.policies && r.value.reachable && r.value.locked == st.locked
  {
    var present :- BucketExists(st, bucket);
    if present then Ok(st) else MakeBucket(st, bucket)
  }

  /** `check_bucket_existence`: ensures the backend's own bucket exists. */
  function CheckBucketExistence(b: Backend, st: Store): Result<Store> {
    EnsureBucket(st, b.bucket)
  }

  /** Ensures each listed bucket in turn; the first failure stops the run. */
  function EnsureBuckets(st: Store, buckets: seq<string>): (r: Result<Store>)
    ensures r.Ok? <==> st.reachable || buckets == []
    ensures r.Err? ==> r.error == MaxRetryError
    ensures r.Ok? ==> r.value.buckets.Keys == st.buckets.Keys + (set x | x in buckets)
    ensures r.Ok? ==> forall bk :: bk in st.buckets ==> r.value.buckets[bk] == st.buckets[bk]
    ensures r.Ok? ==> r.value.policies == st.policies && r.value.reachable == st.reachable && r.value.locked == st.locked
    decreases |buckets|
  {
    if buckets == [] then Ok(st)
    else
      var st1 :- EnsureBucket(st, buckets[0]);
      EnsureBuckets(st1, buckets[1..])
  }

  /** `check_bucket_existences`: every public, then every private bucket. */
  function CheckBucketExistences(b: Backend, st: Store): Result<Store> {
    EnsureBuckets(st, b.publicBuckets + b.privateBuckets)
  }

  /** Ensuring a bucket twice does what ensuring it once does. */
  lemma CheckBucketExistenceIdempotent(b: Backend, st: Store)
    requires CheckBucketExistence(b, st).Ok?
    ensures CheckBucketExistence(b, CheckBucketExistence(b, st).value) == CheckBucketExistence(b, st)
  {
  }

  /** Ensuring a list of buckets that all exist already changes nothing. */
  lemma {:induction false} EnsureBucketsNoop(st: Store, buckets: seq<string>)
    requires st.reachable || buckets == []
    requires forall x :: x in buckets ==> x in st.buckets
    ensures EnsureBuckets(st, buckets) == Ok(st)
    decreases |buckets|
  {
    if buckets != [] {
      assert buckets[0] in buckets;
      forall x | x in buckets[1..]
        ensures x in st.buckets
      {
        assert x in buckets;
      }
      EnsureBucketsNoop(st, buckets[1..]);
    }
  }

  /**
   * After `check_bucket_existences` every configured bucket exists, and a
   * second run leaves the store as the first one left it.
   */
  lemma CheckBucketExistencesIdempotent(b: Backend, st: Store)
    requires CheckBucketExistences(b, st).Ok?
    ensures var st' := CheckBucketExistences(b, st).value;
            && (forall x :: x in b.publicBuckets || x in b.privateBuckets ==> x in st'.buckets)
            && CheckBucketExistences(b, st') == Ok(st')
  {
    var st' := CheckBucketExistences(b, st).value;
    var all := b.publicBuckets + b.privateBuckets;
    forall x | x in all
      ensures x in st'.buckets
    {
      assert x in (set y | y in all);
    }
    EnsureBucketsNoop(st', all);
  }

  /** `set_bucket_policy`. */
  function SetPolicy(st: Store, bucket: string, policy: PolicyDocument): (r: Result<Store>)
    ensures r.Ok? <==> st.reachable && bucket in st.buckets
    ensures r.Ok? ==> r.value.policies == st.policies[bucket := policy]
    ensures r.Ok? ==> r.value.buckets == st.buckets && r.value.locked == st.locked && r.value.reachable
  {
    SetBucketPolicy(st, bucket, policy)
  }

  /** `set_bucket_to_public`: installs the public-read document on the backend's bucket. */
  function SetBucketToPublic(b: Backend, st: Store): Result<Store> {
    SetPolicy(st, b.bucket, PublicReadPolicy(b.bucket))
  }

  /**
   * Once the bucket is public, anyone may read any object in it, and may do
   * nothing but locate, list and read.
   */
  lemma SetBucketToPublicGrantsReads(b: Backend, st: Store, key: string)
    requires SetBucketToPublic(b, st).Ok?
    ensures var p := SetBucketToPublic(b, st).value.policies[b.bucket];
            && |p.statements| == 3
            && AllowsAnonymous(p, GET_OBJECT, ObjectArn(b.bucket, key))
            && AllowsAnonymous(p, LIST_BUCKET, BucketArn(b.bucket))
            && (forall action, resource :: AllowsAnonymous(p, action, resource) ==>
                  action == GET_BUCKET_LOCATION || action == LIST_BUCKET || action == GET_OBJECT)
  {
    PublicReadGrantsReads(b.bucket, key);
    forall action, resource | AllowsAnonymous(PublicReadPolicy(b.bucket), action, resource)
      ensures action == GET_BUCKET_LOCATION || action == LIST_BUCKET || action == GET_OBJECT
    {
      PublicReadIsReadOnly(b.bucket, action, resource);
    }
  }

  /** `stat`: every failure of `stat_object` becomes the one `AttributeError`. */
  function Stat(env: Env, b: Backend, st: Store, name: string): (r: Result<ObjectInfo>)
    ensures r.Ok? <==> st.reachable && st.Has(b.bucket, env.asPosix(name))
    ensures r.Err? ==> r.error == AttributeError
    ensures r.Ok? ==> r.value.objectName == env.asPosix(name) &&
                      r.value.size == |st.buckets[b.bucket][env.asPosix(name)].data|
  {
    match StatObject(st, b.bucket, env.asPosix(name))
    case Ok(info) => Ok(info)
    case Err(_) => Err(AttributeError)
  }

  /** `exists`: normalises the name, then stats it (which normalises it again). */
  function Exists(env: Env, b: Backend, st: Store, name: string): (r: bool)
    ensures r <==> st.reachable && st.Has(b.bucket, env.asPosix(env.asPosix(name)))
  {
    Stat(env, b, st, env.asPosix(name)).Ok?
  }

  /** `exists(n)` agrees with `stat(n)` whenever normalising `n` twice equals doing it once. */
  lemma ExistsIffStat(env: Env, b: Backend, st: Store, name: string)
    requires env.asPosix(env.asPosix(name)) == env.asPosix(name)
    ensures Exists(env, b, st, name) <==> Stat(env, b, st, name).Ok?
  {
  }

  /** `size`: the stat size, or 0 when the stat fails. */
  function Size(env: Env, b: Backend, st: Store, name: string): (r: nat)
    ensures var key := env.asPosix(env.asPosix(name));
            r == if st.reachable && st.Has(b.bucket, key) then |st.buckets[b.bucket][key].data| else 0
  {
    match Stat(env, b, st, env.asPosix(name))
    case Ok(info) => info.size
    case Err(_) => 0
  }

  /** `delete`: removes the normalised name; store errors reach the caller. */
  function Delete(env: Env, b: Backend, st: Store, name: string): (r: Result<Store>)
    ensures r.Ok? <==> st.reachable && b.bucket in st.buckets && (b.bucket, env.asPosix(name)) !in st.locked
    ensures r.Ok? ==> forall bk, k :: r.value.ObjectAt(bk, k) ==
                        if (bk, k) == (b.bucket, env.asPosix(name)) then None else st.ObjectAt(bk, k)
    ensures r.Ok? ==> r.value.policies == st.policies && r.value.locked == st.locked && r.value.reachable
  {
    RemoveObject(st, b.bucket, env.asPosix(name))
  }

  /** Deleting twice is deleting once. */
  lemma DeleteIdempotent(env: Env, b: Backend, st: Store, name: string)
    requires Delete(env, b, st, name).Ok?
    ensures Delete(env, b, Delete(env, b, st, name).value, name) == Delete(env, b, st, name)
  {
    var st1 := Delete(env, b, st, name).value;
    var st2 := Delete(env, b, st1, name).value;
    assert st2.buckets[b.bucket] == st1.buckets[b.bucket];
    assert st2.buckets == st1.buckets;
  }

  /** `_open`: read-only; the object is fetched under the name as given, not normalised. */
  function Open(b: Backend, st: Store, name: string, mode: string): (r: Result<File>)
    ensures mode != READ_BINARY ==> r == Err(ValueError)
    ensures mode == READ_BINARY ==> (r.Ok? <==> st.reachable && st.Has(b.bucket, name))
    ensures r.Ok? ==> r.value == File(name, st.buckets[b.bucket][name].data)
  {
    if mode != READ_BINARY then Err(ValueError)
    else
      var data :- GetObject(st, b.bucket, name);
      Ok(File(name, data))
  }

  /** `path`: the object store has no filesystem paths. */
  function PathOf(name: string): Result<string> {
    Err(NotImplementedError)
  }

  /** `get_accessed_time`: not recorded by the object store. */
  function GetAccessedTime(name: string): Result<int> {
    Err(NotImplementedError)
  }

  /** `get_created_time`: not recorded by the object store. */
  function GetCreatedTime(name: string): Result<int> {
    Err(NotImplementedError)
  }

  /** `get_modified_time`: the stat's last-modified time. */
  function GetModifiedTime(env: Env, b: Backend, st: Store, name: string): (r: Result<int>)
    ensures r.Ok? <==> Stat(env, b, st, name).Ok?
    ensures r.Err? ==> r.error == AttributeError
  {
    var info :- Stat(env, b, st, name);
    Ok(info.lastModified)
  }

  /** The operations that fail whatever the store holds. */
  lemma AlwaysFailing(b: Backend, st: Store, name: string, mode: string)
    ensures PathOf(name) == Err(NotImplementedError)
    ensures GetAccessedTime(name) == Err(NotImplementedError)
    ensures GetCreatedTime(name) == Err(NotImplementedError)
    ensures mode != READ_BINARY ==> Open(b, st, name, mode) == Err(ValueError)
  {
  }

  /**
   * `_save`: optionally ensures the bucket, deletes an existing object
   * first when replacing (a failed stat is ignored), then writes the
   * object under the normalised name and returns that name. `now` is the
   * server's clock at the write.
   */
  function Save(env: Env, b: Backend, st: Store, name: string, upload: Upload, now: int): (r: Result<(Store, string)>)
    ensures r.Ok? ==> r.value.1 == env.asPosix(name)
    ensures r.Ok? ==> r.value.0.ObjectAt(b.bucket, r.value.1) ==
                        Some(StoredObject(upload.data, ContentType(env, name, upload), now))
    ensures r.Ok? ==> forall bk, k :: (bk, k) != (b.bucket, env.asPosix(name)) ==>
                        r.value.0.ObjectAt(bk, k) == st.ObjectAt(bk, k)
    ensures r.Ok? ==> r.value.0.policies == st.policies && r.value.0.locked == st.locked
    ensures r.Ok? <==>
              && st.reachable
              && (b.bucketCheckOnSave || b.bucket in st.buckets)
              && !(b.replaceExisting && st.Has(b.bucket, env.asPosix(name)) && (b.bucket, env.asPosix(name)) in st.locked)
    ensures r.Err? ==> r.error in {MaxRetryError, S3Error(NoSuchBucket), S3Error(AccessDenied)}
  {
    var st1 :- if b.bucketCheckOnSave then CheckBucketExistence(b, st) else Ok(st);
    var st2 :- if b.replaceExisting && Stat(env, b, st1, name).Ok? then Delete(env, b, st1, name) else Ok(st1);
    var key := env.asPosix(name);
    var st3 :- PutObject(st2, b.bucket, key, StoredObject(upload.data, ContentType(env, name, upload), now));
    Ok((st3, key))
  }

  /**
   * What was saved can be read back: stat reports the content length and
   * write time, and opening the returned name yields the uploaded bytes.
   */
  lemma SaveThenRead(env: Env, b: Backend, st: Store, name: string, upload: Upload, now: int)
    requires Save(env, b, st, name, upload, now).Ok?
    ensures var (st', key) := Save(env, b, st, name, upload, now).value;
            && Stat(env, b, st', name).Ok?
            && Stat(env, b, st', name).value.size == |upload.data|
            && Stat(env, b, st', name).value.contentType == ContentType(env, name, upload)
            && GetModifiedTime(env, b, st', name) == Ok(now)
            && Open(b, st', key, READ_BINARY) == Ok(File(key, upload.data))
  {
    var (st', key) := Save(env, b, st, name, upload, now).value;
    assert st'.ObjectAt(b.bucket, key).Some?;
  }

  /** A saved name exists afterwards, when normalising it is idempotent. */
  lemma SaveThenExists(env: Env, b: Backend, st: Store, name: string, upload: Upload, now: int)
    requires Save(env, b, st, name, upload, now).Ok?
    requires env.asPosix(env.asPosix(name)) == env.asPosix(name)
    ensures Exists(env, b, Save(env, b, st, name, upload, now).value.0, name)
  {
    var (st', key) := Save(env, b, st, name, upload, now).value;
    assert st'.ObjectAt(b.bucket, key).Some?;
  }

  /** The first candidate name that does not exist yet; `AvailableName` and `AvailableNameNoOverwrite` rest on it. */
  function FirstFree(env: Env, b: Backend, st: Store, candidates: seq<string>): (r: Option<string>)
    ensures r.Some? ==> r.value in candidates && !Exists(env, b, st, r.value)
    ensures r.None? ==> forall c :: c in candidates ==> Exists(env, b, st, c)
    decreases |candidates|
  {
    if candidates == [] then None
    else if !Exists(env, b, st, candidates[0]) then Some(candidates[0])
    else FirstFree(env, b, st, candidates[1..])
  }

  /**
   * `get_available_name`: with `replace_existing` the name is kept as is;
   * otherwise Django's search tries the name and then its randomised
   * alternatives, given here as a finite sequence, until one is free.
   */
  function AvailableName(env: Env, b: Backend, st: Store, name: string, alternatives: seq<string>): (r: Option<string>)
    ensures b.replaceExisting ==> r == Some(name)
    ensures !b.replaceExisting && r.Some? ==> !Exists(env, b, st, r.value) && (r.value == name || r.value in alternatives)
    ensures !b.replaceExisting && !Exists(env, b, st, name) ==> r == Some(name)
  {
    if b.replaceExisting then Some(name) else FirstFree(env, b, st, [name] + alternatives)
  }

  /**
   * Without `replace_existing`, saving under the name `get_available_name`
   * chose never overwrites or removes an object that was already stored.
   */
  lemma AvailableNameNoOverwrite(env: Env, b: Backend, st: Store, name: string, alternatives: seq<string>,
                                 upload: Upload, now: int)
    requires !b.replaceExisting
    requires AvailableName(env, b, st, name, alternatives).Some?
    requires var n := AvailableName(env, b, st, name, alternatives).value;
             env.asPosix(env.asPosix(n)) == env.asPosix(n) && Save(env, b, st, n, upload, now).Ok?
    ensures var n := AvailableName(env, b, st, name, alternatives).value;
            var st' := Save(env, b, st, n, upload, now).value.0;
            forall bk, k :: st.ObjectAt(bk, k).Some? ==> st'.ObjectAt(bk, k) == st.ObjectAt(bk, k)
  {
    var n := AvailableName(env, b, st, name, alternatives).value;
    assert !st.Has(b.bucket, env.asPosix(n));
  }

  /**
   * The client a URL is made with: the internal client when both
   * endpoints are equal, the external one otherwise. Either way the URL
   * points at the external endpoint; when the endpoints are equal the
   * internal HTTPS flag is used even if the external flag differs.
   */
  function UrlClient(b: Backend): (c: Client)
    ensures c.endpoint == b.externalEndpoint
    ensures c.secure == if b.SameEndpoints() then b.useHttps else b.externalUseHttps
    ensures c.accessKey == b.accessKey && c.secretKey == b.secretKey && c.region == b.region
    ensures c.httpClient == b.httpClient
  {
    if b.SameEndpoints() then b.InternalClient() else b.ExternalClient()
  }

  /**
   * `url`: a public bucket gets a direct, unsigned link built from the
   * client's base URL; a private one gets a presigned link that expires
   * after the configured time. Only a presigning failure to connect
   * (`MaxRetryError`) becomes `ConnectionError`; any other exception the
   * presigner raises reaches the caller unchanged. The name is used as
   * given, not normalised.
   */
  function Url(env: Env, b: Backend, name: string): (r: Result<string>)
    ensures b.IsBucketPublic() ==> r == Ok(env.baseUrl(UrlClient(b)) + b.bucket + "/" + name)
    ensures !b.IsBucketPublic() && env.presign(UrlClient(b), b.bucket, name, b.urlExpiry).Ok? ==>
              r == env.presign(UrlClient(b), b.bucket, name, b.urlExpiry)
    ensures !b.IsBucketPublic() && env.presign(UrlClient(b), b.bucket, name, b.urlExpiry) == Err(MaxRetryError) ==>
              r == Err(ConnectionError)
    ensures !b.IsBucketPublic() && env.presign(UrlClient(b), b.bucket, name, b.urlExpiry).Err? &&
            env.presign(UrlClient(b), b.bucket, name, b.urlExpiry).error != MaxRetryError ==>
              r == env.presign(UrlClient(b), b.bucket, name, b.urlExpiry)
  {
    var client := UrlClient(b);
    if b.IsBucketPublic() then Ok(env.baseUrl(client) + b.bucket + "/" + name)
    else
      match env.presign(client, b.bucket, name, b.urlExpiry)
      case Ok(u) => Ok(u)
      case Err(MaxRetryError) => Err(ConnectionError)
      case Err(e) => Err(e)
  }

  /** A public URL never involves signing: any presigner gives the same URL. */
  lemma PublicUrlUnsigned(env: Env, b: Backend, name: string, presign: (Client, string, string, int) -> Result<string>)
    requires b.IsBucketPublic()
    ensures Url(env.(presign := presign), b, name) == Url(env, b, name)
    ensures Url(env, b, name).Ok?
  {
  }

  /**
   * The URL of a saved file is built from the name the caller passes in,
   * not from the key `_save` stored: when normalisation changes a name,
   * the public URL names a different object than the one stored.
   */
  lemma UrlUsesRawName(env: Env, b: Backend, st: Store, name: string, upload: Upload, now: int)
    requires b.IsBucketPublic()
    requires Save(env, b, st, name, upload, now).Ok?
    ensures var key := Save(env, b, st, name, upload, now).value.1;
            var u := Url(env, b, name).value;
            && u == env.baseUrl(UrlClient(b)) + b.bucket + "/" + name
            && (env.asPosix(name) != name ==> u != env.baseUrl(UrlClient(b)) + b.bucket + "/" + key)
  {
    var key := Save(env, b, st, name, upload, now).value.1;
    var prefix := env.baseUrl(UrlClient(b)) + b.bucket + "/";
    if key != name {
      assert (prefix + name)[|prefix|..] == name;
      assert (prefix + key)[|prefix|..] == key;
    }
  }

  /** How the availability probe went, when the endpoint is configured. */
  datatype Probe =
    | Answered(resp: Response)
    | ConnectionFailed(reason: string)   // urllib3's MaxRetryError
    | Raised(repr: string)               // any other exception, by its repr

  /** `is_minio_available`. */
  function IsMinioAvailable(b: Backend, probe: Probe): (s: Status)
    ensures b.endpoint == "" ==> !s.available && s.messages == [NO_REQUEST_TEXT, NOT_CONFIGURED_TEXT]
    ensures s.available <==> b.endpoint != "" && probe.Answered? && probe.resp.status == FORBIDDEN
    ensures b.endpoint != "" && probe.ConnectionFailed? ==>
              s.messages == [NO_REQUEST_TEXT,
                             "Could not open connection to " + b.BaseUrl() + PROBE_PATH + "\n" + "Reason: " + probe.reason]
    ensures b.endpoint != "" && probe.Raised? ==> s.messages == [NO_REQUEST_TEXT, probe.repr]
  {
    if b.endpoint == "" then AddMessage(FromResponse(None), NOT_CONFIGURED_TEXT)
    else
      match probe
      case Answered(resp) => FromResponse(Some(resp))
      case ConnectionFailed(reason) =>
        AddMessage(FromResponse(None), "Could not open connection to " + b.BaseUrl() + PROBE_PATH + "\n" + "Reason: " + reason)
      case Raised(repr) => AddMessage(FromResponse(None), repr)
  }

  /** A backend the constructor accepted has an endpoint, so only the probe decides availability. */
  lemma ConstructedProbeDecides(reg: Registry, storageName: string, bucketName: Option<string>, kwargs: Dict, probe: Probe)
    requires Construct(reg, storageName, bucketName, kwargs).Ok?
    ensures var b := Construct(reg, storageName, bucketName, kwargs).value;
            IsMinioAvailable(b, probe).available <==> probe.Answered? && probe.resp.status == FORBIDDEN
  {
  }
}
