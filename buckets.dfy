/** Choosing the S3 bucket for a task: the message's override when it is usable, else the configured default. */
module Buckets {
  import opened Results

  /** Every character is at most U+0020, which is what `String.trim()` strips. */
  predicate IsBlank(s: string) {
    forall i :: 0 <= i < |s| ==> s[i] <= ' '
  }

  /** `trim` from the left. */
  function TrimStart(s: string): (r: string)
    ensures r == [] <==> IsBlank(s)
    ensures r != [] ==> r[0] > ' '
    decreases |s|
  {
    if s != [] && s[0] <= ' ' then TrimStart(s[1..]) else s
  }

  /** `trim` from the right. */
  function TrimEnd(s: string): (r: string)
    ensures r == [] <==> IsBlank(s)
    ensures r != [] ==> r[|r| - 1] > ' '
    decreases |s|
  {
    if s != [] && s[|s| - 1] <= ' ' then TrimEnd(s[..|s| - 1]) else s
  }

  /** `String.trim()`: empty exactly when the string is blank; otherwise it starts and ends with a visible character. */
  function Trim(s: string): (r: string)
    ensures r == [] <==> IsBlank(s)
    ensures r != [] ==> r[0] > ' ' && r[|r| - 1] > ' '
  {
    var head := TrimStart(s);
    var r := TrimEnd(head);
    TrimEndKeepsFirst(head);
    r
  }

  /** Trimming the right of a string that starts visibly keeps its first character. */
  lemma {:induction false} TrimEndKeepsFirst(s: string)
    ensures s != [] && s[0] > ' ' ==> TrimEnd(s) != [] && TrimEnd(s)[0] == s[0]
    decreases |s|
  {
    if s != [] && s[0] > ' ' && s[|s| - 1] <= ' ' {
      assert |s| > 1;
      TrimEndKeepsFirst(s[..|s| - 1]);
    }
  }

  /**
   * `determineS3Bucket`: the message's bucket, verbatim (untrimmed), when
   * it is present and not blank; the configured default otherwise.
   */
  function DetermineS3Bucket(requested: Option<string>, defaultBucket: string): (bucket: string)
    ensures requested.Some? && !IsBlank(requested.value) ==> bucket == requested.value
    ensures requested.None? || IsBlank(requested.value) ==> bucket == defaultBucket
  {
    if requested.None? || Trim(requested.value) == [] then defaultBucket else requested.value
  }
}
