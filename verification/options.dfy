/**
 * Keyword arguments and storage `OPTIONS` as the backend sees them: a
 * dictionary from option name to a Python value. `Value` covers the Python
 * types the backend's options take; `Truthy` is Python's `bool()` on them.
 */
module Options {
  import opened Outcomes
  import opened Policy

  /** A `(bucket, policy)` pair from `MINIO_POLICY_HOOKS`. */
  datatype Hook = Hook(bucket: string, policy: PolicyDocument)

  datatype Value =
    | NoneV
    | BoolV(b: bool)
    | StrV(s: string)
    | StrListV(items: seq<string>)
    | DurationV(seconds: int)
    | HooksV(hooks: seq<Hook>)
    | OpaqueV(id: nat)          // an object the backend only passes along (an HTTP client)

  /** Python truthiness: `None`, `False`, `""`, `[]` and a zero duration are false. */
  predicate Truthy(v: Value) {
    match v
    case NoneV => false
    case BoolV(b) => b
    case StrV(s) => s != ""
    case StrListV(items) => items != []
    case DurationV(seconds) => seconds != 0
    case HooksV(hooks) => hooks != []
    case OpaqueV(_) => true
  }

  type Dict = map<string, Value>

  const MINIO_ENDPOINT := "MINIO_ENDPOINT"
  const MINIO_EXTERNAL_ENDPOINT := "MINIO_EXTERNAL_ENDPOINT"
  const MINIO_ACCESS_KEY := "MINIO_ACCESS_KEY"
  const MINIO_SECRET_KEY := "MINIO_SECRET_KEY"
  const MINIO_USE_HTTPS := "MINIO_USE_HTTPS"
  const MINIO_REGION := "MINIO_REGION"
  const MINIO_EXTERNAL_ENDPOINT_USE_HTTPS := "MINIO_EXTERNAL_ENDPOINT_USE_HTTPS"
  const MINIO_BUCKET_CHECK_ON_SAVE := "MINIO_BUCKET_CHECK_ON_SAVE"
  const MINIO_URL_EXPIRY_HOURS := "MINIO_URL_EXPIRY_HOURS"
  const MINIO_PRIVATE_BUCKETS := "MINIO_PRIVATE_BUCKETS"
  const MINIO_PUBLIC_BUCKETS := "MINIO_PUBLIC_BUCKETS"
  const MINIO_DEFAULT_BUCKET := "MINIO_DEFAULT_BUCKET"
  const MINIO_STATIC_FILES_BUCKET := "MINIO_STATIC_FILES_BUCKET"
  const MINIO_POLICY_HOOKS := "MINIO_POLICY_HOOKS"
  const MINIO_HTTP_CLIENT := "MINIO_HTTP_CLIENT"
  const HTTP_CLIENT_KWARG := "http_client"
  const REPLACE_EXISTING := "replace_existing"

  /** Python's `d.get(key, default)`. */
  function Get(d: Dict, key: string, default: Value): Value {
    if key in d then d[key] else default
  }

  /**
   * The constructor's `{**kwargs, **{k: v for k, v in OPTIONS.items() if k not in kwargs}}`:
   * explicitly passed keyword arguments win, and `OPTIONS` only fill in
   * the keys that were not passed.
   */
  function Merge(kwargs: Dict, options: Dict): (r: Dict)
    ensures r.Keys == kwargs.Keys + options.Keys
    ensures forall k, d :: k in kwargs ==> Get(r, k, d) == kwargs[k]
    ensures forall k, d :: k !in kwargs ==> Get(r, k, d) == Get(options, k, d)
  {
    kwargs + map k | k in options && k !in kwargs :: options[k]
  }

  /** A string option; a value of another type is read as absent. */
  function GetStr(d: Dict, key: string, default: string): string {
    match Get(d, key, StrV(default))
    case StrV(s) => s
    case _ => default
  }

  /** A list-of-bucket-names option, `[]` when absent. */
  function GetList(d: Dict, key: string): seq<string> {
    match Get(d, key, StrListV([]))
    case StrListV(items) => items
    case _ => []
  }

  /** A duration option in seconds. */
  function GetDuration(d: Dict, key: string, default: int): int {
    match Get(d, key, DurationV(default))
    case DurationV(seconds) => seconds
    case _ => default
  }

  /** The `MINIO_POLICY_HOOKS` list, `[]` when absent. */
  function GetHooks(d: Dict, key: string): seq<Hook> {
    match Get(d, key, HooksV([]))
    case HooksV(hooks) => hooks
    case _ => []
  }

  /** An option that may be absent or `None`, such as `MINIO_DEFAULT_BUCKET` read without a default. */
  function GetOptionalStr(d: Dict, key: string): Option<string> {
    match Get(d, key, NoneV)
    case StrV(s) => Some(s)
    case _ => None
  }
}
