/**
 * The `initialize_buckets` management command. It walks the `STORAGES`
 * registry and, for every entry backed by this package, makes sure its
 * buckets exist and carry the configured policies.
 *
 * The walk is split in two. `PlanEntries` is a fold over the registry that
 * yields the store calls in order (the effects), and stops at the first
 * backend that cannot be constructed. `Execute` applies the effects to the
 * store and stops at the first call that fails.
 */
module InitializeBuckets {
  import opened Outcomes
  import opened Text
  import opened Policy
  import opened Options
  import opened ObjectStore
  import opened Config
  import opened Storage

  const MODULE_PREFIX := "django_minio_backend.models"
  const STATIC_CLASS := "MinioBackendStatic"
  const BACKEND_CLASS := "MinioBackend"

  /** One store call the command makes. */
  datatype Effect =
    | Ensure(bucket: string)                                 // check_bucket_existence
    | MakePublic(bucket: string)                             // set_bucket_to_public
    | ApplyHook(bucket: string, policy: PolicyDocument)      // set_bucket_policy from a hook
  {
    predicate WritesPolicy(x: string) {
      !Ensure? && bucket == x
    }

    function Written(): PolicyDocument
      requires !Ensure?
    {
      if MakePublic? then PublicReadPolicy(bucket) else policy
    }
  }

  /** The effects up to a failure, and the construction error that stopped the walk, if any. */
  datatype Plan = Plan(effects: seq<Effect>, failure: Option<Error>)

  /** The `OPTIONS` a static entry is created with; a missing `OPTIONS` is an empty dict. */
  function OptionsOf(entry: StorageEntry): Dict {
    if entry.options.Some? then entry.options.value else map[]
  }

  function Somes(xs: seq<string>): (r: seq<Option<string>>)
    ensures |r| == |xs| && forall i :: 0 <= i < |xs| ==> r[i] == Some(xs[i])
  {
    seq(|xs|, i requires 0 <= i < |xs| => Some(xs[i]))
  }

  /**
   * The buckets of a `MinioBackend` entry: public, then private, then the
   * `MINIO_DEFAULT_BUCKET` option when it is not declared in either list.
   * An unset default bucket is `None`, which is never declared, so it is
   * always appended, and the backend built for it binds to the default
   * media bucket (`BucketBoundPublic`).
   */
  function BucketList(options: Dict): (r: seq<Option<string>>)
    ensures var pub := GetList(options, MINIO_PUBLIC_BUCKETS);
            var priv := GetList(options, MINIO_PRIVATE_BUCKETS);
            var d := GetOptionalStr(options, MINIO_DEFAULT_BUCKET);
            && |r| >= |pub| + |priv|
            && r[..|pub| + |priv|] == Somes(pub + priv)
            && (d in r)
            && (|r| == |pub| + |priv| <==> d.Some? && d.value in pub + priv)
            && (|r| == |pub| + |priv| + 1 <==> !(d.Some? && d.value in pub + priv))
  {
    var pub := GetList(options, MINIO_PUBLIC_BUCKETS);
    var priv := GetList(options, MINIO_PRIVATE_BUCKETS);
    var d := GetOptionalStr(options, MINIO_DEFAULT_BUCKET);
    var declared := Somes(pub) + Somes(priv);
    assert declared == Somes(pub + priv);
    if d.Some? && d.value in pub + priv then
      assert Somes(pub + priv)[..|pub| + |priv|] == Somes(pub + priv);
      var i :| 0 <= i < |pub + priv| && (pub + priv)[i] == d.value;
      assert declared[i] == d;
      declared
    else
      assert (declared + [d])[..|pub| + |priv|] == declared;
      declared + [d]
  }

  function HookEffects(hooks: seq<Hook>): (r: seq<Effect>)
    ensures |r| == |hooks|
    ensures forall i :: 0 <= i < |hooks| ==> r[i] == ApplyHook(hooks[i].bucket, hooks[i].policy)
  {
    seq(|hooks|, i requires 0 <= i < |hooks| => ApplyHook(hooks[i].bucket, hooks[i].policy))
  }

  /** The calls made for one bound bucket: ensure it, make it public if declared so, run every hook. */
  function BucketBlock(b: Backend, hooks: seq<Hook>): seq<Effect> {
    [Ensure(b.bucket)] + (if b.IsBucketPublic() then [MakePublic(b.bucket)] else []) + HookEffects(hooks)
  }

  /** The loop over the bucket list: one backend per bucket, built from the entry's own options. */
  function BucketsPlan(reg: Registry, name: string, hooks: seq<Hook>, buckets: seq<Option<string>>): (p: Plan)
    decreases |buckets|
  {
    if buckets == [] then Plan([], None)
    else
      match Construct(reg, name, buckets[0], map[])
      case Err(e) => Plan([], Some(e))
      case Ok(b) =>
        var rest := BucketsPlan(reg, name, hooks, buckets[1..]);
        Plan(BucketBlock(b, hooks) + rest.effects, rest.failure)
  }

  /** The effects of one registry entry. */
  function EntryPlan(reg: Registry, name: string, entry: StorageEntry): (p: Plan)
    ensures !StartsWith(entry.backend, MODULE_PREFIX) ==> p == Plan([], None)
  {
    if !StartsWith(entry.backend, MODULE_PREFIX) then Plan([], None)
    else if EndsWith(entry.backend, STATIC_CLASS) then
      match ConstructStatic(reg, OptionsOf(entry))
      case Err(e) => Plan([], Some(e))
      case Ok(b) => Plan([Ensure(b.bucket), MakePublic(b.bucket)], None)
    else if EndsWith(entry.backend, BACKEND_CLASS) then
      match entry.options
      case None => Plan([], Some(KeyError("OPTIONS")))
      case Some(options) => BucketsPlan(reg, name, GetHooks(options, MINIO_POLICY_HOOKS), BucketList(options))
    else Plan([], None)
  }

  /** `handle`: the entries in registry order; the first construction error ends the walk. */
  function PlanEntries(reg: Registry, entries: Registry): (p: Plan)
    decreases |entries|
  {
    if entries == [] then Plan([], None)
    else
      var first := EntryPlan(reg, entries[0].0, entries[0].1);
      if first.failure.Some? then first
      else
        var rest := PlanEntries(reg, entries[1..]);
        Plan(first.effects + rest.effects, rest.failure)
  }

  function Apply(st: Store, e: Effect): Result<Store> {
    match e
    case Ensure(bucket) => EnsureBucket(st, bucket)
    case MakePublic(bucket) => SetPolicy(st, bucket, PublicReadPolicy(bucket))
    case ApplyHook(bucket, policy) => SetPolicy(st, bucket, policy)
  }

  /** Applies the effects in order; the store is left as it was when a call failed. */
  function Execute(st: Store, effects: seq<Effect>): (r: (Store, Outcome))
    ensures r.0.buckets.Keys >= st.buckets.Keys
    decreases |effects|
  {
    if effects == [] then (st, Pass)
    else
      match Apply(st, effects[0])
      case Err(e) => (st, Fail(e))
      case Ok(st1) => Execute(st1, effects[1..])
  }

  /** The whole command: store errors come first, since they stop the run where they happen. */
  function Run(reg: Registry, st: Store): (Store, Outcome) {
    var plan := PlanEntries(reg, reg);
    var (st', outcome) := Execute(st, plan.effects);
    if outcome.Fail? then (st', outcome)
    else if plan.failure.Some? then (st', Fail(plan.failure.value))
    else (st', Pass)
  }

  /** The policy the last policy-writing effect on `x` installs. */
  function LastPolicyFor(effects: seq<Effect>, x: string): Option<PolicyDocument>
    decreases |effects|
  {
    if effects == [] then None
    else
      match LastPolicyFor(effects[1..], x)
      case Some(p) => Some(p)
      case None => if effects[0].WritesPolicy(x) then Some(effects[0].Written()) else None
  }

  /** The policy of the last hook naming `x`. */
  function LastHookFor(hooks: seq<Hook>, x: string): Option<PolicyDocument>
    decreases |hooks|
  {
    if hooks == [] then None
    else if hooks[|hooks| - 1].bucket == x then Some(hooks[|hooks| - 1].policy)
    else LastHookFor(hooks[..|hooks| - 1], x)
  }

  lemma {:induction false} LastPolicyForAppend(a: seq<Effect>, b: seq<Effect>, x: string)
    ensures LastPolicyFor(a + b, x) == if LastPolicyFor(b, x).Some? then LastPolicyFor(b, x) else LastPolicyFor(a, x)
    decreases |a|
  {
    if a == [] {
      assert a + b == b;
    } else {
      assert (a + b)[1..] == a[1..] + b;
      LastPolicyForAppend(a[1..], b, x);
    }
  }

  lemma {:induction false} LastPolicyForHooks(hooks: seq<Hook>, x: string)
    ensures LastPolicyFor(HookEffects(hooks), x) == LastHookFor(hooks, x)
    decreases |hooks|
  {
    if hooks != [] {
      var init := hooks[..|hooks| - 1];
      var last := hooks[|hooks| - 1];
      assert HookEffects(hooks) == HookEffects(init) + [ApplyHook(last.bucket, last.policy)];
      LastPolicyForAppend(HookEffects(init), [ApplyHook(last.bucket, last.policy)], x);
      LastPolicyForHooks(init, x);
    }
  }

  /**
   * After a successful execution a bucket's policy is the one its last
   * policy-writing effect installed, and untouched when none wrote it.
   */
  lemma {:induction false} ExecuteLastWrite(st: Store, effects: seq<Effect>, x: string)
    requires Execute(st, effects).1.Pass?
    ensures var st' := Execute(st, effects).0;
            && (LastPolicyFor(effects, x).Some? ==> x in st'.policies && st'.policies[x] == LastPolicyFor(effects, x).value)
            && (LastPolicyFor(effects, x).None? ==>
                  (x in st'.policies <==> x in st.policies) && (x in st.policies ==> st'.policies[x] == st.policies[x]))
    decreases |effects|
  {
    if effects != [] {
      var st1 := Apply(st, effects[0]).value;
      ExecuteLastWrite(st1, effects[1..], x);
    }
  }

  /** After a successful execution every bucket an effect names exists. */
  lemma {:induction false} ExecuteBucketsExist(st: Store, effects: seq<Effect>)
    requires Execute(st, effects).1.Pass?
    ensures forall i :: 0 <= i < |effects| ==> effects[i].bucket in Execute(st, effects).0.buckets
    decreases |effects|
  {
    if effects != [] {
      var st1 := Apply(st, effects[0]).value;
      ExecuteBucketsExist(st1, effects[1..]);
      assert effects[0].bucket in st1.buckets;
      forall i | 1 <= i < |effects|
        ensures effects[i].bucket in Execute(st, effects).0.buckets
      {
        assert effects[1..][i - 1] == effects[i];
      }
    }
  }

  /** A static entry ensures its bucket and then makes it public, and nothing else. */
  lemma StaticEntryPlan(reg: Registry, name: string, entry: StorageEntry)
    requires StartsWith(entry.backend, MODULE_PREFIX) && EndsWith(entry.backend, STATIC_CLASS)
    requires ConstructStatic(reg, OptionsOf(entry)).Ok?
    requires StaticBucketName(OptionsOf(entry)) != ""
    ensures var s := StaticBucketName(OptionsOf(entry));
            EntryPlan(reg, name, entry) == Plan([Ensure(s), MakePublic(s)], None)
  {
  }

  function CountHooks(effects: seq<Effect>): nat
    decreases |effects|
  {
    if effects == [] then 0 else (if effects[0].ApplyHook? then 1 else 0) + CountHooks(effects[1..])
  }

  function CountEnsures(effects: seq<Effect>): nat
    decreases |effects|
  {
    if effects == [] then 0 else (if effects[0].Ensure? then 1 else 0) + CountEnsures(effects[1..])
  }

  lemma {:induction false} CountAppend(a: seq<Effect>, b: seq<Effect>)
    ensures CountHooks(a + b) == CountHooks(a) + CountHooks(b)
    ensures CountEnsures(a + b) == CountEnsures(a) + CountEnsures(b)
    decreases |a|
  {
    if a == [] {
      assert a + b == b;
    } else {
      assert (a + b)[1..] == a[1..] + b;
      CountAppend(a[1..], b);
    }
  }

  lemma {:induction false} CountHookEffects(hooks: seq<Hook>)
    ensures CountHooks(HookEffects(hooks)) == |hooks|
    ensures CountEnsures(HookEffects(hooks)) == 0
    decreases |hooks|
  {
    if hooks != [] {
      assert HookEffects(hooks)[1..] == HookEffects(hooks[1..]);
      CountHookEffects(hooks[1..]);
    }
  }

  /**
   * When every bucket's backend can be built, each bucket is ensured once
   * and every hook runs once per bucket: |buckets| x |hooks| hook calls.
   */
  lemma {:induction false} BucketsPlanCounts(reg: Registry, name: string, hooks: seq<Hook>, buckets: seq<Option<string>>)
    requires BucketsPlan(reg, name, hooks, buckets).failure.None?
    ensures CountEnsures(BucketsPlan(reg, name, hooks, buckets).effects) == |buckets|
    ensures CountHooks(BucketsPlan(reg, name, hooks, buckets).effects) == |buckets| * |hooks|
    decreases |buckets|
  {
    if buckets != [] {
      var b := Construct(reg, name, buckets[0], map[]).value;
      var rest := BucketsPlan(reg, name, hooks, buckets[1..]);
      BucketsPlanCounts(reg, name, hooks, buckets[1..]);
      var head := [Ensure(b.bucket)] + (if b.IsBucketPublic() then [MakePublic(b.bucket)] else []);
      CountAppend(head, HookEffects(hooks));
      CountAppend(BucketBlock(b, hooks), rest.effects);
      CountHookEffects(hooks);
      assert CountHooks(head) == 0 && CountEnsures(head) == 1;
      assert |buckets| * |hooks| == |hooks| + (|buckets| - 1) * |hooks|;
    }
  }

  /**
   * The public policy is written for exactly the buckets declared public
   * in the entry's options, and every bucket of the list is ensured.
   */
  lemma {:induction false} BucketsPlanPublicIff(reg: Registry, name: string, entry: StorageEntry,
                                                 buckets: seq<Option<string>>, x: string)
    requires Lookup(reg, name) == Some(entry) && HasOptions(entry)
    requires BucketsPlan(reg, name, GetHooks(entry.options.value, MINIO_POLICY_HOOKS), buckets).failure.None?
    ensures var p := BucketsPlan(reg, name, GetHooks(entry.options.value, MINIO_POLICY_HOOKS), buckets);
            MakePublic(x) in p.effects ==> x in GetList(entry.options.value, MINIO_PUBLIC_BUCKETS)
    ensures var p := BucketsPlan(reg, name, GetHooks(entry.options.value, MINIO_POLICY_HOOKS), buckets);
            Some(x) in buckets && x != "" && x in GetList(entry.options.value, MINIO_PUBLIC_BUCKETS) ==>
              MakePublic(x) in p.effects
    ensures var p := BucketsPlan(reg, name, GetHooks(entry.options.value, MINIO_POLICY_HOOKS), buckets);
            Some(x) in buckets && x != "" ==> Ensure(x) in p.effects
    decreases |buckets|
  {
    var hooks := GetHooks(entry.options.value, MINIO_POLICY_HOOKS);
    var pub := GetList(entry.options.value, MINIO_PUBLIC_BUCKETS);
    if buckets != [] {
      var b := Construct(reg, name, buckets[0], map[]).value;
      var rest := BucketsPlan(reg, name, hooks, buckets[1..]);
      BucketBoundPublic(reg, name, entry, buckets[0]);
      BucketsPlanPublicIff(reg, name, entry, buckets[1..], x);
      var p := BucketsPlan(reg, name, hooks, buckets);
      assert p.effects == [Ensure(b.bucket)] + (if b.IsBucketPublic() then [MakePublic(b.bucket)] else [])
                          + HookEffects(hooks) + rest.effects;
      if MakePublic(x) in p.effects {
        if MakePublic(x) !in rest.effects {
          var i :| 0 <= i < |p.effects| && p.effects[i] == MakePublic(x);
          assert i < |hooks| + 2 ;
          if b.IsBucketPublic() {
            assert i == 1;
          } else {
            assert false;
          }
        }
      }
      if Some(x) in buckets && x != "" && buckets[0] != Some(x) {
        assert Some(x) in buckets[1..];
      }
    }
  }

  /** The backend built for a bucket of the list is public exactly when the options declare it so. */
  lemma BucketBoundPublic(reg: Registry, name: string, entry: StorageEntry, bucket: Option<string>)
    requires Lookup(reg, name) == Some(entry) && HasOptions(entry)
    requires Construct(reg, name, bucket, map[]).Ok?
    ensures var b := Construct(reg, name, bucket, map[]).value;
            && (b.IsBucketPublic() <==> b.bucket in GetList(entry.options.value, MINIO_PUBLIC_BUCKETS))
            && (bucket.Some? && bucket.value != "" ==> b.bucket == bucket.value)
            && (bucket.None? && GetOptionalStr(entry.options.value, MINIO_DEFAULT_BUCKET).None? ==>
                  b.bucket == DEFAULT_MEDIA_FILES_BUCKET)
  {
    var kw := Merge(map[], entry.options.value);
    assert Get(kw, MINIO_PUBLIC_BUCKETS, StrListV([])) == Get(entry.options.value, MINIO_PUBLIC_BUCKETS, StrListV([]));
    assert Get(kw, MINIO_DEFAULT_BUCKET, NoneV) == Get(entry.options.value, MINIO_DEFAULT_BUCKET, NoneV);
  }

  /**
   * With at least one bucket in the list, a bucket named by a hook ends up
   * with the policy of the last hook naming it: hooks run after the public
   * write in every iteration, and the last iteration runs them all again.
   */
  lemma {:induction false} HookedBucketLastWrite(reg: Registry, name: string, hooks: seq<Hook>,
                                                  buckets: seq<Option<string>>, x: string)
    requires buckets != []
    requires BucketsPlan(reg, name, hooks, buckets).failure.None?
    requires LastHookFor(hooks, x).Some?
    ensures LastPolicyFor(BucketsPlan(reg, name, hooks, buckets).effects, x) == LastHookFor(hooks, x)
    decreases |buckets|
  {
    var b := Construct(reg, name, buckets[0], map[]).value;
    var rest := BucketsPlan(reg, name, hooks, buckets[1..]);
    var head := [Ensure(b.bucket)] + (if b.IsBucketPublic() then [MakePublic(b.bucket)] else []);
    LastPolicyForAppend(BucketBlock(b, hooks), rest.effects, x);
    LastPolicyForAppend(head, HookEffects(hooks), x);
    LastPolicyForHooks(hooks, x);
    if buckets[1..] != [] {
      HookedBucketLastWrite(reg, name, hooks, buckets[1..], x);
    } else {
      assert rest.effects == [];
    }
  }

  /**
   * A `MinioBackend` entry with options walks its bucket list. Helper for
   * `BackendEntryBucketsExist` and `BackendEntryHookPolicy`.
   */
  lemma EntryPlanIsBucketsPlan(reg: Registry, name: string, entry: StorageEntry)
    requires StartsWith(entry.backend, MODULE_PREFIX) && !EndsWith(entry.backend, STATIC_CLASS)
    requires EndsWith(entry.backend, BACKEND_CLASS) && entry.options.Some?
    ensures EntryPlan(reg, name, entry) ==
              BucketsPlan(reg, name, GetHooks(entry.options.value, MINIO_POLICY_HOOKS), BucketList(entry.options.value))
  {
  }

  /** For a `MinioBackend` entry whose run succeeds, every bucket of its list exists afterwards. */
  lemma BackendEntryBucketsExist(reg: Registry, name: string, entry: StorageEntry, st: Store, x: string)
    requires StartsWith(entry.backend, MODULE_PREFIX) && !EndsWith(entry.backend, STATIC_CLASS)
    requires EndsWith(entry.backend, BACKEND_CLASS) && entry.options.Some? && HasOptions(entry)
    requires Lookup(reg, name) == Some(entry)
    requires EntryPlan(reg, name, entry).failure.None?
    requires Execute(st, EntryPlan(reg, name, entry).effects).1.Pass?
    requires Some(x) in BucketList(entry.options.value) && x != ""
    ensures x in Execute(st, EntryPlan(reg, name, entry).effects).0.buckets
  {
    var effects := EntryPlan(reg, name, entry).effects;
    EntryPlanIsBucketsPlan(reg, name, entry);
    ExecuteBucketsExist(st, effects);
    BucketsPlanPublicIff(reg, name, entry, BucketList(entry.options.value), x);
    var i :| 0 <= i < |effects| && effects[i] == Ensure(x);
  }

  /**
   * For a `MinioBackend` entry whose run succeeds, a bucket named by a hook
   * carries the policy of the last hook naming it.
   */
  lemma BackendEntryHookPolicy(reg: Registry, name: string, entry: StorageEntry, st: Store, x: string)
    requires StartsWith(entry.backend, MODULE_PREFIX) && !EndsWith(entry.backend, STATIC_CLASS)
    requires EndsWith(entry.backend, BACKEND_CLASS) && entry.options.Some?
    requires EntryPlan(reg, name, entry).failure.None?
    requires Execute(st, EntryPlan(reg, name, entry).effects).1.Pass?
    requires LastHookFor(GetHooks(entry.options.value, MINIO_POLICY_HOOKS), x).Some?
    ensures var st' := Execute(st, EntryPlan(reg, name, entry).effects).0;
            x in st'.policies &&
            st'.policies[x] == LastHookFor(GetHooks(entry.options.value, MINIO_POLICY_HOOKS), x).value
  {
    var options := entry.options.value;
    var hooks := GetHooks(options, MINIO_POLICY_HOOKS);
    var buckets := BucketList(options);
    EntryPlanIsBucketsPlan(reg, name, entry);
    assert GetOptionalStr(options, MINIO_DEFAULT_BUCKET) in buckets;
    HookedBucketLastWrite(reg, name, hooks, buckets, x);
    ExecuteLastWrite(st, EntryPlan(reg, name, entry).effects, x);
  }

  /** An entry not backed by this package adds no effect and cannot stop the walk. */
  lemma ForeignEntrySkipped(reg: Registry, entries: Registry)
    requires entries != [] && !StartsWith(entries[0].1.backend, MODULE_PREFIX)
    ensures PlanEntries(reg, entries) == PlanEntries(reg, entries[1..])
  {
    assert [] + PlanEntries(reg, entries[1..]).effects == PlanEntries(reg, entries[1..]).effects;
  }

  /** A successful run built every backend it needed, and every bucket it named exists afterwards. */
  lemma RunBucketsExist(reg: Registry, st: Store)
    requires Run(reg, st).1.Pass?
    ensures PlanEntries(reg, reg).failure.None?
    ensures forall i :: 0 <= i < |PlanEntries(reg, reg).effects| ==>
              PlanEntries(reg, reg).effects[i].bucket in Run(reg, st).0.buckets
  {
    ExecuteBucketsExist(st, PlanEntries(reg, reg).effects);
  }
}
