/**
 * Bucket policy documents in the AWS IAM policy language (version
 * "2012-10-17"), the canned public-read policy the backend applies to public
 * buckets, and a reading of what a policy allows anonymous callers to do.
 */
module Policy {
  import opened Text

  datatype Principal = AWS(id: string)

  datatype Statement = Statement(
    sid: string,
    effect: string,
    principal: Principal,
    action: string,
    resource: string)

  datatype PolicyDocument = PolicyDocument(version: string, statements: seq<Statement>)

  const POLICY_VERSION := "2012-10-17"
  const ARN_PREFIX := "arn:aws:s3:::"
  const GET_BUCKET_LOCATION := "s3:GetBucketLocation"
  const LIST_BUCKET := "s3:ListBucket"
  const GET_OBJECT := "s3:GetObject"

  function BucketArn(bucket: string): string {
    ARN_PREFIX + bucket
  }

  function ObjectArn(bucket: string, key: string): string {
    ARN_PREFIX + bucket + "/" + key
  }

  /** The document `set_bucket_to_public` writes: three anonymous Allow statements. */
  function PublicReadPolicy(bucket: string): PolicyDocument {
    PolicyDocument(POLICY_VERSION, [
      Statement("", "Allow", AWS("*"), GET_BUCKET_LOCATION, BucketArn(bucket)),
      Statement("", "Allow", AWS("*"), LIST_BUCKET, BucketArn(bucket)),
      Statement("", "Allow", AWS("*"), GET_OBJECT, BucketArn(bucket) + "/*")
    ])
  }

  /** A resource pattern ending in '*' matches every resource with the same prefix. */
  predicate ResourceMatches(pattern: string, resource: string) {
    if |pattern| > 0 && pattern[|pattern| - 1] == '*' then StartsWith(resource, pattern[..|pattern| - 1])
    else resource == pattern
  }

  /** Some statement of `p` lets anyone perform `action` on `resource`. */
  predicate AllowsAnonymous(p: PolicyDocument, action: string, resource: string) {
    exists i :: 0 <= i < |p.statements| && Grants(p.statements[i], action, resource)
  }

  predicate Grants(st: Statement, action: string, resource: string) {
    st.effect == "Allow" && st.principal == AWS("*") && st.action == action && ResourceMatches(st.resource, resource)
  }

  /** The public-read policy lets anyone locate and list the bucket and read every object in it. */
  lemma PublicReadGrantsReads(bucket: string, key: string)
    ensures PublicReadPolicy(bucket).version == "2012-10-17"
    ensures AllowsAnonymous(PublicReadPolicy(bucket), GET_BUCKET_LOCATION, BucketArn(bucket))
    ensures AllowsAnonymous(PublicReadPolicy(bucket), LIST_BUCKET, BucketArn(bucket))
    ensures AllowsAnonymous(PublicReadPolicy(bucket), GET_OBJECT, ObjectArn(bucket, key))
  {
    var p := PublicReadPolicy(bucket);
    assert Grants(p.statements[0], GET_BUCKET_LOCATION, BucketArn(bucket));
    assert Grants(p.statements[1], LIST_BUCKET, BucketArn(bucket));
    var pattern := BucketArn(bucket) + "/*";
    assert pattern[..|pattern| - 1] == BucketArn(bucket) + "/";
    assert Grants(p.statements[2], GET_OBJECT, ObjectArn(bucket, key));
  }

  /** The public-read policy grants nothing beyond the three read actions. */
  lemma PublicReadIsReadOnly(bucket: string, action: string, resource: string)
    requires AllowsAnonymous(PublicReadPolicy(bucket), action, resource)
    ensures action == GET_BUCKET_LOCATION || action == LIST_BUCKET || action == GET_OBJECT
  {
  }

  /**
   * For bucket names without '/' or '*' (the object store admits neither),
   * the public-read policy of one bucket
   * grants nothing on another bucket or on its objects.
   */
  lemma PublicReadConfinedToBucket(bucket: string, other: string, key: string, action: string)
    requires '/' !in bucket && '*' !in bucket && '/' !in other && bucket != other
    ensures !AllowsAnonymous(PublicReadPolicy(bucket), action, BucketArn(other))
    ensures !AllowsAnonymous(PublicReadPolicy(bucket), action, ObjectArn(other, key))
  {
    var p := PublicReadPolicy(bucket);
    var exact := BucketArn(bucket);
    var pattern := exact + "/*";
    assert pattern[..|pattern| - 1] == exact + "/";
    assert exact[|exact| - 1] != '*' by {
      if |bucket| > 0 {
        assert exact[|exact| - 1] == bucket[|bucket| - 1];
      }
    }
    var target := ObjectArn(other, key);
    assert BucketArn(other) != exact by {
      assert BucketArn(other)[|ARN_PREFIX|..] == other;
      assert exact[|ARN_PREFIX|..] == bucket;
    }
    SlashBreaksEquality(ARN_PREFIX, bucket, other, key);
    NoSlashNoPrefix(ARN_PREFIX, bucket, other);
    DistinctBucketsNoPrefix(ARN_PREFIX, bucket, other, key);
    forall i | 0 <= i < |p.statements|
      ensures !Grants(p.statements[i], action, BucketArn(other))
      ensures !Grants(p.statements[i], action, target)
    {
    }
  }

  lemma SlashBreaksEquality(arn: string, bucket: string, other: string, key: string)
    requires '/' !in bucket
    ensures arn + other + "/" + key != arn + bucket
  {
    var t := arn + other + "/" + key;
    var b := arn + bucket;
    if |t| == |b| {
      assert t[|arn| + |other|] == '/';
      assert b[|arn| + |other|] == bucket[|other|];
    }
  }

  lemma NoSlashNoPrefix(arn: string, bucket: string, other: string)
    requires '/' !in other
    ensures !StartsWith(arn + other, arn + bucket + "/")
  {
    var r := arn + other;
    var pre := arn + bucket + "/";
    if |pre| <= |r| {
      assert r[|arn| + |bucket|] == other[|bucket|];
      assert pre[|arn| + |bucket|] == '/';
    }
  }

  lemma DistinctBucketsNoPrefix(arn: string, bucket: string, other: string, key: string)
    requires '/' !in bucket && '/' !in other && bucket != other
    ensures !StartsWith(arn + other + "/" + key, arn + bucket + "/")
  {
    var t := arn + other + "/" + key;
    var pre := arn + bucket + "/";
    if |pre| <= |t| {
      if |other| < |bucket| {
        assert t[|arn| + |other|] == '/';
        assert pre[|arn| + |other|] == bucket[|other|];
      } else if |other| > |bucket| {
        assert t[|arn| + |bucket|] == other[|bucket|];
        assert pre[|arn| + |bucket|] == '/';
      } else {
        var j :| 0 <= j < |bucket| && bucket[j] != other[j];
        assert t[|arn| + j] == other[j];
        assert pre[|arn| + j] == bucket[j];
      }
    }
  }
}
