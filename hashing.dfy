/** The key hash of hashtable.js: the character codes of the key are summed,
    and the running sum is reduced modulo the bucket count after every
    character. */
module Hashing {

  /** Sum of the character codes of `key` (`charCodeAt` modelled as `c as int`). */
  function CodeSum(key: string): nat
  {
    if |key| == 0 then 0 else CodeSum(key[..|key| - 1]) + key[|key| - 1] as int
  }

  /** The value the accumulator of `hash` holds after reading all of `key`
      with `n` buckets. */
  function Hash(key: string, n: int): (r: int)
    requires n >= 1
    ensures 0 <= r < n
  {
    if |key| == 0 then 0 else (Hash(key[..|key| - 1], n) + key[|key| - 1] as int) % n
  }

  /** Reducing after every step is the same as reducing once at the end. */
  lemma {:induction false} HashIsSumMod(key: string, n: int)
    requires n >= 1
    ensures Hash(key, n) == CodeSum(key) % n
  {
    if |key| > 0 {
      var init := key[..|key| - 1];
      HashIsSumMod(init, n);
      ModOfModPlus(CodeSum(init), key[|key| - 1] as int, n);
    }
  }

  /** The empty key hashes to 0 and with a single bucket every key hashes to 0. */
  lemma HashDegenerate(key: string, n: int)
    requires n >= 1
    ensures Hash("", n) == 0
    ensures Hash(key, 1) == 0
  {
  }

  lemma ModOfModPlus(a: int, c: int, n: int)
    requires n >= 1
    ensures (a % n + c) % n == (a + c) % n
  {
    var q := a / n;
    var x := a % n + c;
    var d := x / n;
    assert a == q * n + a % n;
    assert x == d * n + x % n && 0 <= x % n < n;
    assert a + c == (q + d) * n + x % n by {
      assert (q + d) * n == q * n + d * n;
    }
    ModUnique(a + c, q + d, x % n, n);
  }

  /** Euclidean remainders are unique. */
  lemma ModUnique(y: int, d: int, r: int, n: int)
    requires n >= 1 && 0 <= r < n && y == d * n + r
    ensures y % n == r
  {
    var q, m := y / n, y % n;
    assert y == q * n + m && 0 <= m < n;
    assert (q - d) * n == q * n - d * n;
    assert (q - d) * n == r - m;
    if q > d {
      MulAtLeast(q - d, n);
    } else if q < d {
      MulAtLeast(d - q, n);
    }
  }

  lemma {:induction false} MulAtLeast(a: int, n: int)
    requires a >= 1 && n >= 1
    ensures a * n >= n
    decreases a
  {
    if a > 1 {
      MulAtLeast(a - 1, n);
      assert a * n == (a - 1) * n + n;
    }
  }
}
