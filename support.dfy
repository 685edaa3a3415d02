/** Small value types shared by the model: PHP's nullable values, results of
    operations that may throw, and first-match search over ordered sequences. */
module Support {

  /** A PHP value that may be `null`. */
  datatype Option<+T> = None | Some(value: T)

  /** The outcome of an operation that either produces a value or throws. */
  datatype Result<+T, +E> = Ok(value: T) | Err(error: E)

  /** Index of the first element of `s` that satisfies `p`, or `|s|` when none
      does: the position where a PHP `foreach` with an early `return` stops. */
  function FirstIndex<T>(s: seq<T>, p: T -> bool): (k: nat)
    ensures k <= |s|
    ensures k < |s| ==> p(s[k])
    ensures forall j :: 0 <= j < k ==> !p(s[j])
    decreases |s|
  {
    if s == [] then 0
    else if p(s[0]) then 0
    else 1 + FirstIndex(s[1..], p)
  }

  /** The postconditions of FirstIndex determine it: any index with the same
      two properties is that index. */
  lemma {:induction false} FirstIndexUnique<T>(s: seq<T>, p: T -> bool, k: nat)
    requires k <= |s|
    requires k < |s| ==> p(s[k])
    requires forall j :: 0 <= j < k ==> !p(s[j])
    ensures FirstIndex(s, p) == k
    decreases |s|
  {
    if s != [] && !p(s[0]) {
      FirstIndexUnique(s[1..], p, k - 1);
    }
  }
}
