/** Python list semantics the source relies on: indexing that counts from the
    end for negative indices and raises IndexError out of range, and slicing
    that clamps its bounds. */
module PyOps {
  import opened Wrappers

  /** `s[k]` in Python: None stands for IndexError. */
  function PyAt<T>(s: seq<T>, k: int): (r: Option<T>)
    ensures r.Some? <==> -|s| <= k < |s|
    ensures 0 <= k < |s| ==> r == Some(s[k])
    ensures -|s| <= k < 0 ==> r == Some(s[|s| + k])
  {
    if 0 <= k < |s| then Some(s[k])
    else if -|s| <= k < 0 then Some(s[|s| + k])
    else None
  }

  /** The bound a Python slice uses for `k`: negative counts from the end,
      then clamped to `[0, n]`. */
  function SliceBound(n: nat, k: int): (b: nat)
    ensures b <= n
    ensures 0 <= k <= n ==> b == k
    ensures k > n ==> b == n
    ensures -(n as int) <= k < 0 ==> b == n + k
    ensures k < -(n as int) ==> b == 0
  {
    if k < 0 then (if n + k < 0 then 0 else n + k)
    else if k > n then n
    else k
  }

  /** `s[i:j]` in Python. */
  function PySlice<T>(s: seq<T>, i: int, j: int): (r: seq<T>)
    ensures |r| <= |s|
    ensures 0 <= i <= j <= |s| ==> r == s[i..j]
  {
    var lo := SliceBound(|s|, i);
    var hi := SliceBound(|s|, j);
    if lo < hi then s[lo..hi] else []
  }

  /** Python's `//` for a positive divisor. Dafny's `/` is Euclidean, which
      agrees with flooring whenever the divisor is positive. */
  function FloorDiv(a: int, d: int): (q: int)
    requires d > 0
    ensures q * d <= a < q * d + d
  {
    a / d
  }

  /** `range(n)` is empty for a negative `n`. */
  function RangeLen(n: int): (r: nat)
    ensures n >= 0 ==> r == n
    ensures n < 0 ==> r == 0
  {
    if n < 0 then 0 else n
  }
}
