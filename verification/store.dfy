/**
 * The object store the SDK talks to, as an in-memory value: buckets mapping
 * keys to stored objects, one policy document per bucket, whether the server
 * can be reached at all, and the objects the server refuses to delete.
 * Each operation is the store-side meaning of one SDK call; a call that the
 * real server would answer with an error returns `Err`.
 */
module ObjectStore {
  import opened Outcomes
  import opened Policy
  import opened Text

  newtype byte = x: int | 0 <= x < 256

  /**
   * A stored object. `contentType` is the value `put_object` was given,
   * `None` for Python's `None`; what the SDK sends for `None` is not part of
   * this model.
   */
  datatype StoredObject = StoredObject(data: seq<byte>, contentType: Option<string>, lastModified: int)

  /** What `stat_object` reports. */
  datatype ObjectInfo = ObjectInfo(objectName: string, size: nat, contentType: Option<string>, lastModified: int)

  type Bucket = map<string, StoredObject>

  datatype Store = Store(
    buckets: map<string, Bucket>,
    policies: map<string, PolicyDocument>,
    reachable: bool,
    locked: set<(string, string)>)
  {
    predicate Has(bucket: string, key: string) {
      bucket in buckets && key in buckets[bucket]
    }

    /** The object stored under `key` in `bucket`, if any. */
    function ObjectAt(bucket: string, key: string): Option<StoredObject> {
      if Has(bucket, key) then Some(buckets[bucket][key]) else None
    }
  }

  function BucketExists(st: Store, bucket: string): Result<bool> {
    if !st.reachable then Err(MaxRetryError)
    else Ok(bucket in st.buckets)
  }

  function MakeBucket(st: Store, bucket: string): Result<Store> {
    if !st.reachable then Err(MaxRetryError)
    else if bucket in st.buckets then Err(S3Error(BucketAlreadyOwnedByYou))
    else Ok(st.(buckets := st.buckets[bucket := map[]]))
  }

  /** `put_object`: stores `obj` under `key`, replacing any object already there. */
  function PutObject(st: Store, bucket: string, key: string, obj: StoredObject): Result<Store> {
    if !st.reachable then Err(MaxRetryError)
    else if bucket !in st.buckets then Err(S3Error(NoSuchBucket))
    else Ok(st.(buckets := st.buckets[bucket := st.buckets[bucket][key := obj]]))
  }

  function StatObject(st: Store, bucket: string, key: string): Result<ObjectInfo> {
    if !st.reachable then Err(MaxRetryError)
    else if bucket !in st.buckets then Err(S3Error(NoSuchBucket))
    else if key !in st.buckets[bucket] then Err(S3Error(NoSuchKey))
    else
      var obj := st.buckets[bucket][key];
      Ok(ObjectInfo(key, |obj.data|, obj.contentType, obj.lastModified))
  }

  function GetObject(st: Store, bucket: string, key: string): Result<seq<byte>> {
    if !st.reachable then Err(MaxRetryError)
    else if bucket !in st.buckets then Err(S3Error(NoSuchBucket))
    else if key !in st.buckets[bucket] then Err(S3Error(NoSuchKey))
    else Ok(st.buckets[bucket][key].data)
  }

  /** `remove_object`: removing an absent key succeeds; a locked object is refused. */
  function RemoveObject(st: Store, bucket: string, key: string): Result<Store> {
    if !st.reachable then Err(MaxRetryError)
    else if bucket !in st.buckets then Err(S3Error(NoSuchBucket))
    else if (bucket, key) in st.locked then Err(S3Error(AccessDenied))
    else Ok(st.(buckets := st.buckets[bucket := st.buckets[bucket] - {key}]))
  }

  /** The keys of a bulk removal that the server refuses, in request order. */
  function Refused(st: Store, bucket: string, keys: seq<string>): (r: seq<string>)
    ensures |r| <= |keys|
    ensures forall k :: k in r <==> k in keys && (bucket, k) in st.locked
  {
    if keys == [] then []
    else (if (bucket, keys[0]) in st.locked then [keys[0]] else []) + Refused(st, bucket, keys[1..])
  }

  /**
   * For a request without repeated keys, the keys that are not refused are
   * exactly the keys the removal deletes, so subtracting one per reported
   * error from the request size counts the removed objects.
   */
  lemma {:induction false} RefusedCount(st: Store, bucket: string, keys: seq<string>)
    requires forall i, j :: 0 <= i < j < |keys| ==> keys[i] != keys[j]
    ensures |keys| - |Refused(st, bucket, keys)| == |set k | k in keys && (bucket, k) !in st.locked|
    decreases |keys|
  {
    if keys != [] {
      var rest := keys[1..];
      RefusedCount(st, bucket, rest);
      var all := set k | k in keys && (bucket, k) !in st.locked;
      var tail := set k | k in rest && (bucket, k) !in st.locked;
      assert keys[0] !in rest by {
        forall j | 0 <= j < |rest|
          ensures rest[j] != keys[0]
        {
          assert rest[j] == keys[j + 1];
        }
      }
      if (bucket, keys[0]) in st.locked {
        assert all == tail;
      } else {
        assert all == tail + {keys[0]};
      }
    }
  }

  /**
   * `remove_objects`: removes every requested key the server does not
   * refuse, and reports one error per refused key.
   */
  function RemoveObjects(st: Store, bucket: string, keys: seq<string>): Result<(Store, seq<string>)> {
    if !st.reachable then Err(MaxRetryError)
    else if bucket !in st.buckets then Err(S3Error(NoSuchBucket))
    else
      var removed := set k | k in keys && (bucket, k) !in st.locked;
      Ok((st.(buckets := st.buckets[bucket := st.buckets[bucket] - removed]), Refused(st, bucket, keys)))
  }

  /** `list_objects(recursive=True)`: every key of the bucket once, in key order. */
  function ListObjects(st: Store, bucket: string): Result<seq<string>> {
    if !st.reachable then Err(MaxRetryError)
    else if bucket !in st.buckets then Err(S3Error(NoSuchBucket))
    else Ok(SortedKeys(st.buckets[bucket].Keys))
  }

  function SetBucketPolicy(st: Store, bucket: string, policy: PolicyDocument): Result<Store> {
    if !st.reachable then Err(MaxRetryError)
    else if bucket !in st.buckets then Err(S3Error(NoSuchBucket))
    else Ok(st.(policies := st.policies[bucket := policy]))
  }

  // The three lemmas below describe this in-memory stand-in for the MinIO
  // server, so that readers of the storage lemmas know what the stand-in
  // guarantees; they are not properties of the backend itself.

  /** Writing an object and reading it back gives the same bytes, size and type. */
  lemma PutThenRead(st: Store, bucket: string, key: string, obj: StoredObject)
    requires PutObject(st, bucket, key, obj).Ok?
    ensures var st' := PutObject(st, bucket, key, obj).value;
            && GetObject(st', bucket, key) == Ok(obj.data)
            && StatObject(st', bucket, key) == Ok(ObjectInfo(key, |obj.data|, obj.contentType, obj.lastModified))
            && forall b, k :: (b, k) != (bucket, key) ==> st'.ObjectAt(b, k) == st.ObjectAt(b, k)
  {
  }

  /**
   * A bulk removal deletes exactly the requested keys that are not locked,
   * leaves every other object in place, and reports the locked ones.
   */
  lemma RemoveObjectsEffect(st: Store, bucket: string, keys: seq<string>)
    requires RemoveObjects(st, bucket, keys).Ok?
    ensures var (st', refused) := RemoveObjects(st, bucket, keys).value;
            && (forall b, k :: st'.ObjectAt(b, k) ==
                  if b == bucket && k in keys && (b, k) !in st.locked then None else st.ObjectAt(b, k))
            && (forall k :: k in refused <==> k in keys && (bucket, k) in st.locked)
  {
  }

  /** A listing holds every key of the bucket exactly once, in ascending order. */
  lemma ListingComplete(st: Store, bucket: string)
    requires ListObjects(st, bucket).Ok?
    ensures var keys := ListObjects(st, bucket).value;
            && (forall k :: k in keys <==> st.Has(bucket, k))
            && |keys| == |st.buckets[bucket].Keys|
            && (forall i, j :: 0 <= i < j < |keys| ==> Below(keys[i], keys[j]))
  {
  }
}
