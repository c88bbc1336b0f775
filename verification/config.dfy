/**
 * Backend configuration: what `MinioBackend.__init__` computes from its
 * arguments and the storage's `OPTIONS`, `validate_settings`, and the
 * static-files variant `MinioBackendStatic`.
 *
 * Construction is a pure function from (the `STORAGES` registry, the storage
 * name, the `bucket_name` argument, explicit keyword arguments) to either a
 * `Backend` record or the exception the constructor raises.
 */
module Config {
  import opened Outcomes
  import opened Options

  const DEFAULT_MEDIA_FILES_BUCKET := "auto-generated-bucket-media-files"
  const DEFAULT_STATIC_FILES_BUCKET := "auto-generated-bucket-static-files"
  const DEFAULT_REGION := "us-east-1"
  /** `datetime.timedelta(days=7)` in seconds. */
  const DEFAULT_URL_EXPIRY_SECONDS := 7 * 24 * 60 * 60
  const DEFAULT_STORAGE := "default"
  const STATICFILES_STORAGE := "staticfiles"

  /** One entry of Django's `STORAGES` setting: the backend's dotted path and its `OPTIONS`. */
  datatype StorageEntry = StorageEntry(backend: string, options: Option<Dict>)

  /** `STORAGES` in declaration order. */
  type Registry = seq<(string, StorageEntry)>

  /** `storages.backends[name]`, or `None` where Python raises `KeyError`. */
  function Lookup(reg: Registry, name: string): Option<StorageEntry> {
    if reg == [] then None
    else if reg[0].0 == name then Some(reg[0].1)
    else Lookup(reg[1..], name)
  }

  /** `storages.backends[name].get("OPTIONS")` is truthy: present and not empty. */
  predicate HasOptions(e: StorageEntry) {
    e.options.Some? && e.options.value != map[]
  }

  /** The parameters a `minio.Minio` client is built from. */
  datatype Client = Client(
    endpoint: string,
    accessKey: Value,
    secretKey: Value,
    secure: Value,
    httpClient: Value,
    region: string)

  /** The state a constructed `MinioBackend` holds. */
  datatype Backend = Backend(
    bucket: string,
    privateBuckets: seq<string>,
    publicBuckets: seq<string>,
    replaceExisting: bool,
    endpoint: string,
    externalEndpoint: string,
    accessKey: Value,
    secretKey: Value,
    useHttps: Value,
    region: string,
    externalUseHttps: Value,
    bucketCheckOnSave: bool,
    urlExpiry: int,
    httpClient: Value)
  {
    predicate SameEndpoints() {
      endpoint == externalEndpoint
    }

    predicate IsBucketPublic() {
      bucket in publicBuckets
    }

    function BaseUrl(): string {
      (if Truthy(useHttps) then "https://" else "http://") + endpoint
    }

    function BaseUrlExternal(): string {
      (if Truthy(externalUseHttps) then "https://" else "http://") + externalEndpoint
    }

    function InternalClient(): Client {
      Client(endpoint, accessKey, secretKey, useHttps, httpClient, region)
    }

    function ExternalClient(): Client {
      Client(externalEndpoint, accessKey, secretKey, externalUseHttps, httpClient, region)
    }
  }

  function Overlap(a: seq<string>, b: seq<string>): set<string> {
    set x | x in a && x in b
  }

  lemma NoOverlapDisjoint(a: seq<string>, b: seq<string>)
    requires Overlap(a, b) == {}
    ensures forall x :: x in b ==> x !in a
  {
    forall x | x in b
      ensures x !in a
    {
      assert x in a ==> x in Overlap(a, b);
    }
  }

  /**
   * The bucket the backend binds to: the `bucket_name` argument when it is
   * truthy, else `MINIO_DEFAULT_BUCKET`, else the default media bucket.
   */
  function ResolveBucket(bucketName: Option<string>, kwargs: Dict): (r: string)
    ensures bucketName.Some? && bucketName.value != "" ==> r == bucketName.value
    ensures (bucketName.None? || bucketName.value == "") && MINIO_DEFAULT_BUCKET !in kwargs ==>
              r == DEFAULT_MEDIA_FILES_BUCKET
    ensures forall s :: (bucketName.None? || bucketName.value == "") && Get(kwargs, MINIO_DEFAULT_BUCKET, NoneV) == StrV(s) ==>
              r == s
  {
    if bucketName.None? || bucketName.value == "" then GetStr(kwargs, MINIO_DEFAULT_BUCKET, DEFAULT_MEDIA_FILES_BUCKET)
    else bucketName.value
  }

  /**
   * `PRIVATE_BUCKETS` after construction: the declared private buckets, then
   * the default media bucket when it is the bound bucket, then the bound
   * bucket when it was declared nowhere.
   */
  function BoundPrivateBuckets(bucket: string, declaredPrivate: seq<string>, declaredPublic: seq<string>): (r: seq<string>)
    ensures bucket in r || bucket in declaredPublic
    ensures |r| >= |declaredPrivate| && r[..|declaredPrivate|] == declaredPrivate
    ensures forall x :: x in r ==> x in declaredPrivate || x == bucket
    ensures bucket == DEFAULT_MEDIA_FILES_BUCKET ==> bucket in r
    ensures bucket !in declaredPrivate && bucket !in declaredPublic ==> bucket in r
    ensures bucket != DEFAULT_MEDIA_FILES_BUCKET && (bucket in declaredPrivate || bucket in declaredPublic) ==>
              r == declaredPrivate
  {
    var withDefault := if bucket == DEFAULT_MEDIA_FILES_BUCKET then declaredPrivate + [DEFAULT_MEDIA_FILES_BUCKET]
                       else declaredPrivate;
    if bucket !in withDefault + declaredPublic then withDefault + [bucket] else withDefault
  }

  /**
   * `validate_settings`: at least one bucket list is non-empty, endpoint,
   * access key and secret key are truthy, and `MINIO_USE_HTTPS` is not `None`.
   */
  function ValidateSettings(b: Backend): (r: Outcome)
    ensures r.Fail? ==> r.error == ConfigurationError
    ensures r.Pass? <==>
              && (b.privateBuckets != [] || b.publicBuckets != [])
              && b.endpoint != "" && Truthy(b.accessKey) && Truthy(b.secretKey)
              && !b.useHttps.NoneV?
  {
    if b.privateBuckets == [] && b.publicBuckets == [] then Fail(ConfigurationError)
    else if b.endpoint == "" || !Truthy(b.accessKey) || !Truthy(b.secretKey) || b.useHttps.NoneV? then
      Fail(ConfigurationError)
    else Pass
  }

  /** The mandatory-parameter test of `validate_settings`, read off the merged options. */
  predicate MandatoryMissing(kw: Dict) {
    || GetStr(kw, MINIO_ENDPOINT, "") == ""
    || !Truthy(Get(kw, MINIO_ACCESS_KEY, NoneV))
    || !Truthy(Get(kw, MINIO_SECRET_KEY, NoneV))
    || Get(kw, MINIO_USE_HTTPS, NoneV).NoneV?
  }

  /** The fields of the backend, computed from the merged options (constructor lines 89-127). */
  function Fields(bucketName: Option<string>, kw: Dict): Backend {
    var bucket := ResolveBucket(bucketName, kw);
    var endpoint := GetStr(kw, MINIO_ENDPOINT, "");
    var useHttps := Get(kw, MINIO_USE_HTTPS, NoneV);
    var httpKwarg := Get(kw, HTTP_CLIENT_KWARG, NoneV);
    var declaredPublic := GetList(kw, MINIO_PUBLIC_BUCKETS);
    Backend(
      bucket := bucket,
      privateBuckets := BoundPrivateBuckets(bucket, GetList(kw, MINIO_PRIVATE_BUCKETS), declaredPublic),
      publicBuckets := declaredPublic,
      replaceExisting := Truthy(Get(kw, REPLACE_EXISTING, BoolV(false))),
      endpoint := endpoint,
      externalEndpoint := GetStr(kw, MINIO_EXTERNAL_ENDPOINT, endpoint),
      accessKey := Get(kw, MINIO_ACCESS_KEY, NoneV),
      secretKey := Get(kw, MINIO_SECRET_KEY, NoneV),
      useHttps := useHttps,
      region := GetStr(kw, MINIO_REGION, DEFAULT_REGION),
      externalUseHttps := Get(kw, MINIO_EXTERNAL_ENDPOINT_USE_HTTPS, useHttps),
      bucketCheckOnSave := Truthy(Get(kw, MINIO_BUCKET_CHECK_ON_SAVE, BoolV(false))),
      urlExpiry := GetDuration(kw, MINIO_URL_EXPIRY_HOURS, DEFAULT_URL_EXPIRY_SECONDS),
      httpClient := if Truthy(httpKwarg) then httpKwarg else Get(kw, MINIO_HTTP_CLIENT, NoneV))
  }

  /** `MinioBackend(bucket_name, storage_name, **kwargs)`. */
  function Construct(reg: Registry, storageName: string, bucketName: Option<string>, kwargs: Dict): (r: Result<Backend>)
    ensures r.Ok? ==> r.value.bucket in r.value.privateBuckets || r.value.IsBucketPublic()
    ensures r.Ok? ==> Overlap(r.value.privateBuckets, r.value.publicBuckets) == {}
    ensures r.Ok? ==> forall x :: x in r.value.publicBuckets ==> x !in r.value.privateBuckets
    ensures r.Ok? && bucketName.Some? && bucketName.value != "" ==> r.value.bucket == bucketName.value
    ensures r.Ok? && MINIO_PUBLIC_BUCKETS in kwargs ==> r.value.publicBuckets == GetList(kwargs, MINIO_PUBLIC_BUCKETS)
    ensures r.Ok? ==> ValidateSettings(r.value).Pass?
    ensures r.Err? ==> r.error == KeyError(storageName) || r.error == ConfigurationError || r.error.PrivatePublicMixedError?
  {
    match Lookup(reg, storageName)
    case None => Err(KeyError(storageName))
    case Some(entry) =>
      if !HasOptions(entry) then Err(ConfigurationError)
      else
        var b := Fields(bucketName, Merge(kwargs, entry.options.value));
        var overlap := Overlap(b.privateBuckets, b.publicBuckets);
        if overlap != {} then Err(PrivatePublicMixedError(overlap))
        else
          match ValidateSettings(b)
          case Fail(e) => Err(e)
          case Pass => NoOverlapDisjoint(b.privateBuckets, b.publicBuckets); Ok(b)
  }

  /** The options the constructor works from once explicit keyword arguments are merged in. */
  function Effective(reg: Registry, storageName: string, kwargs: Dict): Dict
    requires Lookup(reg, storageName).Some? && HasOptions(Lookup(reg, storageName).value)
  {
    Merge(kwargs, Lookup(reg, storageName).value.options.value)
  }

  /**
   * An explicitly passed `MINIO_DEFAULT_BUCKET` decides the bound bucket
   * over the storage's `OPTIONS` when no `bucket_name` is given.
   */
  lemma DefaultBucketPrecedence(reg: Registry, storageName: string, kwargs: Dict, s: string)
    requires Lookup(reg, storageName).Some? && HasOptions(Lookup(reg, storageName).value)
    requires MINIO_DEFAULT_BUCKET in kwargs && kwargs[MINIO_DEFAULT_BUCKET] == StrV(s)
    ensures Fields(None, Effective(reg, storageName, kwargs)).bucket == s
    ensures Fields(Some(""), Effective(reg, storageName, kwargs)).bucket == s
  {
    var kw := Effective(reg, storageName, kwargs);
    assert Get(kw, MINIO_DEFAULT_BUCKET, NoneV) == StrV(s);
  }

  /**
   * How the constructor classifies the bound bucket: the declared lists are
   * kept (public as is, private as a prefix), and a default or undeclared
   * bucket is private and never public.
   */
  lemma BoundBucketClassification(reg: Registry, storageName: string, bucketName: Option<string>, kwargs: Dict)
    requires Construct(reg, storageName, bucketName, kwargs).Ok?
    ensures Lookup(reg, storageName).Some? && HasOptions(Lookup(reg, storageName).value)
    ensures var b := Construct(reg, storageName, bucketName, kwargs).value;
            var kw := Effective(reg, storageName, kwargs);
            var declaredPrivate := GetList(kw, MINIO_PRIVATE_BUCKETS);
            var declaredPublic := GetList(kw, MINIO_PUBLIC_BUCKETS);
            && b.publicBuckets == declaredPublic
            && b.privateBuckets[..|declaredPrivate|] == declaredPrivate
            && (b.bucket !in declaredPrivate && b.bucket !in declaredPublic ==>
                  b.bucket in b.privateBuckets && !b.IsBucketPublic())
            && (b.bucket == DEFAULT_MEDIA_FILES_BUCKET ==> b.bucket in b.privateBuckets && !b.IsBucketPublic())
  {
  }

  /**
   * Construction fails with `PrivatePublicMixedError` exactly when the
   * declared lists overlap, or the bound bucket is the default media bucket
   * and that bucket is declared public (it is then also made private). The
   * error carries the overlap of the final lists.
   */
  lemma MixedErrorIff(reg: Registry, storageName: string, bucketName: Option<string>, kwargs: Dict)
    requires Lookup(reg, storageName).Some? && HasOptions(Lookup(reg, storageName).value)
    ensures var r := Construct(reg, storageName, bucketName, kwargs);
            var kw := Effective(reg, storageName, kwargs);
            var bucket := ResolveBucket(bucketName, kw);
            var declaredPrivate := GetList(kw, MINIO_PRIVATE_BUCKETS);
            var declaredPublic := GetList(kw, MINIO_PUBLIC_BUCKETS);
            (r.Err? && r.error.PrivatePublicMixedError?) <==>
              (Overlap(declaredPrivate, declaredPublic) != {} ||
               (bucket == DEFAULT_MEDIA_FILES_BUCKET && bucket in declaredPublic))
  {
    var kw := Effective(reg, storageName, kwargs);
    var b := Fields(bucketName, kw);
    var declaredPrivate := GetList(kw, MINIO_PRIVATE_BUCKETS);
    var declaredPublic := GetList(kw, MINIO_PUBLIC_BUCKETS);
    var bound := b.privateBuckets;
    assert bound == BoundPrivateBuckets(b.bucket, declaredPrivate, declaredPublic);
    forall x | x in declaredPrivate
      ensures x in bound
    {
      var i :| 0 <= i < |declaredPrivate| && declaredPrivate[i] == x;
      assert bound[..|declaredPrivate|][i] == x;
    }
    if Overlap(declaredPrivate, declaredPublic) != {} {
      var x :| x in Overlap(declaredPrivate, declaredPublic);
      assert x in Overlap(bound, declaredPublic);
    } else if b.bucket == DEFAULT_MEDIA_FILES_BUCKET && b.bucket in declaredPublic {
      assert b.bucket in Overlap(bound, declaredPublic);
    } else {
      assert Overlap(bound, declaredPublic) == {};
    }
  }

  /**
   * Construction fails with `ConfigurationError` exactly when the storage has
   * no `OPTIONS`, or there is no bucket clash and a mandatory parameter is
   * missing. The "no buckets declared" test of `validate_settings` never
   * decides it: the bound bucket is always declared by then.
   */
  lemma ConfigurationErrorIff(reg: Registry, storageName: string, bucketName: Option<string>, kwargs: Dict)
    ensures var r := Construct(reg, storageName, bucketName, kwargs);
            r == Err(ConfigurationError) <==>
              Lookup(reg, storageName).Some? &&
              (!HasOptions(Lookup(reg, storageName).value) ||
               (var kw := Effective(reg, storageName, kwargs);
                var b := Fields(bucketName, kw);
                Overlap(b.privateBuckets, b.publicBuckets) == {} && MandatoryMissing(kw)))
  {
    if Lookup(reg, storageName).Some? && HasOptions(Lookup(reg, storageName).value) {
      var kw := Effective(reg, storageName, kwargs);
      var b := Fields(bucketName, kw);
      assert b.privateBuckets != [] || b.publicBuckets != [];
      assert MandatoryMissing(kw) <==> !(b.endpoint != "" && Truthy(b.accessKey) && Truthy(b.secretKey) && !b.useHttps.NoneV?);
    }
  }

  /**
   * Options left unset take their documented defaults: the external
   * endpoint and its HTTPS flag follow the internal ones, URLs expire
   * after seven days, and the region is "us-east-1".
   */
  lemma ConstructDefaults(reg: Registry, storageName: string, bucketName: Option<string>, kwargs: Dict)
    requires Construct(reg, storageName, bucketName, kwargs).Ok?
    ensures Lookup(reg, storageName).Some? && HasOptions(Lookup(reg, storageName).value)
    ensures var b := Construct(reg, storageName, bucketName, kwargs).value;
            var kw := Effective(reg, storageName, kwargs);
            && (MINIO_EXTERNAL_ENDPOINT !in kw ==> b.SameEndpoints())
            && (MINIO_EXTERNAL_ENDPOINT_USE_HTTPS !in kw ==> b.externalUseHttps == b.useHttps)
            && (MINIO_EXTERNAL_ENDPOINT !in kw && MINIO_EXTERNAL_ENDPOINT_USE_HTTPS !in kw ==>
                  b.BaseUrlExternal() == b.BaseUrl() && b.ExternalClient() == b.InternalClient())
            && (MINIO_URL_EXPIRY_HOURS !in kw ==> b.urlExpiry == 604800)
            && (MINIO_REGION !in kw ==> b.region == "us-east-1")
            && (REPLACE_EXISTING !in kw ==> !b.replaceExisting)
  {
  }

  /** The static bucket name: `MINIO_STATIC_FILES_BUCKET` from the keyword arguments only. */
  function StaticBucketName(kwargs: Dict): string {
    GetStr(kwargs, MINIO_STATIC_FILES_BUCKET, DEFAULT_STATIC_FILES_BUCKET)
  }

  /**
   * `MinioBackendStatic(**kwargs)`: the public list is forced to the static
   * bucket alone and the options come from the "staticfiles" storage.
   */
  function ConstructStatic(reg: Registry, kwargs: Dict): (r: Result<Backend>)
    ensures r.Ok? && StaticBucketName(kwargs) != "" ==>
              && r.value.bucket == StaticBucketName(kwargs)
              && r.value.publicBuckets == [StaticBucketName(kwargs)]
              && r.value.IsBucketPublic()
              && StaticBucketName(kwargs) !in r.value.privateBuckets
  {
    var staticBucket := StaticBucketName(kwargs);
    Construct(reg, STATICFILES_STORAGE, Some(staticBucket), kwargs[MINIO_PUBLIC_BUCKETS := StrListV([staticBucket])])
  }

  /**
   * A static bucket named like the default media bucket cannot be built:
   * the constructor also files it as private, so the lists clash.
   */
  lemma StaticDefaultMediaClash(reg: Registry, kwargs: Dict)
    requires StaticBucketName(kwargs) == DEFAULT_MEDIA_FILES_BUCKET
    requires Lookup(reg, STATICFILES_STORAGE).Some? && HasOptions(Lookup(reg, STATICFILES_STORAGE).value)
    ensures ConstructStatic(reg, kwargs) == Err(PrivatePublicMixedError({DEFAULT_MEDIA_FILES_BUCKET}))
  {
    var kw2 := kwargs[MINIO_PUBLIC_BUCKETS := StrListV([DEFAULT_MEDIA_FILES_BUCKET])];
    var kw := Effective(reg, STATICFILES_STORAGE, kw2);
    var b := Fields(Some(DEFAULT_MEDIA_FILES_BUCKET), kw);
    assert b.publicBuckets == [DEFAULT_MEDIA_FILES_BUCKET];
    assert DEFAULT_MEDIA_FILES_BUCKET in b.privateBuckets;
    assert Overlap(b.privateBuckets, b.publicBuckets) == {DEFAULT_MEDIA_FILES_BUCKET};
  }
}
