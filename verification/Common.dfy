/** Vocabulary shared by every component. */
module Common {
  /** One octet; `char` is unsigned on the target platform. */
  type byte = x: int | 0 <= x < 256

  datatype Option<+T> = None | Some(value: T)

  function Min(a: int, b: int): int {
    if a <= b then a else b
  }

  function Max(a: int, b: int): int {
    if a >= b then a else b
  }

  /** C division by a positive number. */
  function Quotient(x: int, d: nat): int
    requires d > 0
  {
    if x < 0 then -(-x / d) else x / d
  }

  function Last<T>(s: seq<T>): T
    requires |s| > 0
  {
    s[|s| - 1]
  }

  function Front<T>(s: seq<T>): seq<T>
    requires |s| > 0
  {
    s[..|s| - 1]
  }

  /** The last `n` elements of `s`, or all of them when there are fewer. */
  function LastN<T>(s: seq<T>, n: nat): (r: seq<T>)
    ensures |r| == Min(|s|, n)
  {
    if |s| <= n then s else s[|s| - n..]
  }

  /** `x % n` for an index that has gone round a ring of `n` slots at most once. */
  lemma ModOnce(x: nat, n: nat)
    requires 0 < n && x < 2 * n
    ensures x % n == if x < n then x else x - n
  {
    if x >= n {
      assert x == n * 1 + (x - n);
    }
  }

  /** Rows of `d` entries do not overlap. */
  lemma {:induction false} RowStep(d: nat, a: nat, b: nat)
    requires a < b
    ensures a * d + d <= b * d
    decreases b
  {
    if a < b - 1 {
      RowStep(d, a, b - 1);
    }
    assert (b - 1) * d + d == b * d;
  }
}
