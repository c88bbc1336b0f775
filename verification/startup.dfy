/**
 * `DjangoMinioBackendConfig.ready`: the checks Django runs once the
 * application is loaded. The default backend is built and validated first;
 * bucket initialisation runs when enabled; the external endpoint and its
 * HTTPS flag are checked as a pair; a static-files backend gets its bucket.
 */
module AppStartup {
  import opened Outcomes
  import opened Text
  import opened Options
  import opened ObjectStore
  import opened Config
  import opened Storage
  import InitializeBuckets

  const STATIC_CLASS := "MinioBackendStatic"

  /** The top-level Django settings `ready` reads; an unset setting is `NoneV` (or `None`). */
  datatype Settings = Settings(
    consistencyCheckOnStart: Value,
    externalEndpoint: Value,
    externalUseHttps: Value,
    staticfilesStorage: Option<string>)

  /**
   * The external endpoint and its HTTPS flag must come together: an
   * endpoint needs a flag that is not `None`, and a true flag needs an
   * endpoint.
   */
  predicate ExternalPairingValid(endpoint: Value, useHttps: Value) {
    !((Truthy(endpoint) && useHttps.NoneV?) || (!Truthy(endpoint) && Truthy(useHttps)))
  }

  /** The four readings of the external-endpoint check. */
  lemma ExternalPairingCases(endpoint: Value, useHttps: Value)
    ensures Truthy(endpoint) && useHttps.NoneV? ==> !ExternalPairingValid(endpoint, useHttps)
    ensures !Truthy(endpoint) && Truthy(useHttps) ==> !ExternalPairingValid(endpoint, useHttps)
    ensures !Truthy(endpoint) && !Truthy(useHttps) ==> ExternalPairingValid(endpoint, useHttps)
    ensures Truthy(endpoint) && !useHttps.NoneV? ==> ExternalPairingValid(endpoint, useHttps)
    ensures ExternalPairingValid(StrV("minio.example.com"), BoolV(false))
    ensures ExternalPairingValid(NoneV, NoneV)
  {
  }

  /**
   * The keyword arguments Django builds the "staticfiles" storage with:
   * its `OPTIONS`, or nothing when the entry is missing (construction then
   * fails on the lookup).
   */
  function StaticOptions(reg: Registry): Dict {
    match Lookup(reg, STATICFILES_STORAGE)
    case Some(entry) => InitializeBuckets.OptionsOf(entry)
    case None => map[]
  }

  /**
   * `ready`, with the store as it is when the application starts, and the
   * keyword arguments the static backend of the last step is built with.
   */
  function ReadyWith(reg: Registry, settings: Settings, st: Store, staticKwargs: Dict): (r: (Store, Outcome))
    ensures Construct(reg, DEFAULT_STORAGE, None, map[]).Err? ==>
              r == (st, Fail(Construct(reg, DEFAULT_STORAGE, None, map[]).error))
    ensures !Truthy(settings.consistencyCheckOnStart) && r.0 != st ==>
              settings.staticfilesStorage.Some? && EndsWith(settings.staticfilesStorage.value, STATIC_CLASS)
  {
    match Construct(reg, DEFAULT_STORAGE, None, map[])
    case Err(e) => (st, Fail(e))
    case Ok(mb) =>
      match ValidateSettings(mb)
      case Fail(e) => (st, Fail(e))
      case Pass =>
        var (st1, init) := if Truthy(settings.consistencyCheckOnStart) then InitializeBuckets.Run(reg, st) else (st, Pass);
        if init.Fail? then (st1, init)
        else if !ExternalPairingValid(settings.externalEndpoint, settings.externalUseHttps) then
          (st1, Fail(ConfigurationError))
        else
          match settings.staticfilesStorage
          case None => (st1, Fail(AttributeError))       // `None.endswith`
          case Some(path) =>
            if !EndsWith(path, STATIC_CLASS) then (st1, Pass)
            else
              match ConstructStatic(reg, staticKwargs)
              case Err(e) => (st1, Fail(e))
              case Ok(b) =>
                match CheckBucketExistence(b, st1)
                case Err(e) => (st1, Fail(e))
                case Ok(st2) => (st2, Pass)
  }

  /** `ready` as written: the static backend is built with no keyword arguments. */
  function ReadyAsWritten(reg: Registry, settings: Settings, st: Store): (r: (Store, Outcome))
    ensures Construct(reg, DEFAULT_STORAGE, None, map[]).Err? ==>
              r == (st, Fail(Construct(reg, DEFAULT_STORAGE, None, map[]).error))
  {
    ReadyWith(reg, settings, st, map[])
  }

  /**
   * `ready` with the static backend built the way Django builds the
   * "staticfiles" storage, from that entry's `OPTIONS`, so the bucket it
   * checks is the bucket static files are stored in.
   */
  function Ready(reg: Registry, settings: Settings, st: Store): (r: (Store, Outcome))
    ensures Construct(reg, DEFAULT_STORAGE, None, map[]).Err? ==>
              r == (st, Fail(Construct(reg, DEFAULT_STORAGE, None, map[]).error))
    ensures !Truthy(settings.consistencyCheckOnStart) && r.0 != st ==>
              settings.staticfilesStorage.Some? && EndsWith(settings.staticfilesStorage.value, STATIC_CLASS)
  {
    ReadyWith(reg, settings, st, StaticOptions(reg))
  }

  /**
   * Initialisation runs exactly when the setting is truthy, and before the
   * external-endpoint check: with a bad pairing the run still fails with
   * `ConfigurationError`, but only after the buckets were initialised.
   */
  lemma InitialisationBeforeExternalCheck(reg: Registry, settings: Settings, st: Store, staticKwargs: Dict)
    requires Construct(reg, DEFAULT_STORAGE, None, map[]).Ok?
    requires !ExternalPairingValid(settings.externalEndpoint, settings.externalUseHttps)
    ensures !Truthy(settings.consistencyCheckOnStart) ==>
              ReadyWith(reg, settings, st, staticKwargs) == (st, Fail(ConfigurationError))
    ensures Truthy(settings.consistencyCheckOnStart) && InitializeBuckets.Run(reg, st).1.Pass? ==>
              ReadyWith(reg, settings, st, staticKwargs) == (InitializeBuckets.Run(reg, st).0, Fail(ConfigurationError))
    ensures Truthy(settings.consistencyCheckOnStart) && InitializeBuckets.Run(reg, st).1.Fail? ==>
              ReadyWith(reg, settings, st, staticKwargs) == InitializeBuckets.Run(reg, st)
  {
  }

  /** A missing `STATICFILES_STORAGE` setting fails once the earlier checks pass. */
  lemma MissingStaticSettingFails(reg: Registry, settings: Settings, st: Store, staticKwargs: Dict)
    requires Construct(reg, DEFAULT_STORAGE, None, map[]).Ok?
    requires !Truthy(settings.consistencyCheckOnStart)
    requires ExternalPairingValid(settings.externalEndpoint, settings.externalUseHttps)
    requires settings.staticfilesStorage.None?
    ensures ReadyWith(reg, settings, st, staticKwargs) == (st, Fail(AttributeError))
  {
  }

  /**
   * As written, `ready` ensures the default static bucket even when the
   * "staticfiles" storage names another one: that bucket is left missing
   * while the storage that uses it is built without complaint.
   */
  lemma AsWrittenChecksDefaultStaticBucket(reg: Registry, settings: Settings, st: Store, s: string)
    requires Construct(reg, DEFAULT_STORAGE, None, map[]).Ok?
    requires !Truthy(settings.consistencyCheckOnStart)
    requires ExternalPairingValid(settings.externalEndpoint, settings.externalUseHttps)
    requires settings.staticfilesStorage.Some? && EndsWith(settings.staticfilesStorage.value, STATIC_CLASS)
    requires Get(StaticOptions(reg), MINIO_STATIC_FILES_BUCKET, NoneV) == StrV(s)
    requires s != "" && s != DEFAULT_STATIC_FILES_BUCKET && s !in st.buckets
    requires ConstructStatic(reg, map[]).Ok? && ConstructStatic(reg, StaticOptions(reg)).Ok?
    ensures ConstructStatic(reg, StaticOptions(reg)).value.bucket == s
    ensures ReadyAsWritten(reg, settings, st).1.Pass? <==> st.reachable
    ensures ReadyAsWritten(reg, settings, st).1.Pass? ==>
              DEFAULT_STATIC_FILES_BUCKET in ReadyAsWritten(reg, settings, st).0.buckets &&
              s !in ReadyAsWritten(reg, settings, st).0.buckets
  {
    assert StaticBucketName(map[]) == DEFAULT_STATIC_FILES_BUCKET;
    assert StaticBucketName(StaticOptions(reg)) == s;
  }

  /**
   * When every earlier check passes and a static backend is configured,
   * `ready` succeeds exactly when the store is reachable, and the bucket
   * the "staticfiles" storage binds to exists afterwards.
   */
  lemma StaticBucketEnsured(reg: Registry, settings: Settings, st: Store)
    requires Construct(reg, DEFAULT_STORAGE, None, map[]).Ok?
    requires !Truthy(settings.consistencyCheckOnStart)
    requires ExternalPairingValid(settings.externalEndpoint, settings.externalUseHttps)
    requires settings.staticfilesStorage.Some? && EndsWith(settings.staticfilesStorage.value, STATIC_CLASS)
    requires ConstructStatic(reg, StaticOptions(reg)).Ok?
    ensures Ready(reg, settings, st).1.Pass? <==> st.reachable
    ensures Ready(reg, settings, st).1.Pass? ==>
              ConstructStatic(reg, StaticOptions(reg)).value.bucket in Ready(reg, settings, st).0.buckets
  {
  }
}
