// Bytes and fixed-width integers as the kernel lays them out.
module Bytes {
  type byte = x: int | 0 <= x < 256
  type u16 = x: int | 0 <= x < 0x1_0000
  type u32 = x: int | 0 <= x < 0x1_0000_0000
  type u64 = x: int | 0 <= x < 0x1_0000_0000_0000_0000

  // 256 to the power `n`: one more than the largest `n`-byte integer.
  function Limit(n: nat): (r: nat)
    ensures 0 < r
  {
    if n == 0 then 1 else 256 * Limit(n - 1)
  }

  // The `n`-byte little-endian integer at position `at`.
  function LeAt(s: seq<byte>, at: nat, n: nat): nat
    requires at + n <= |s|
    decreases n
  {
    if n == 0 then 0 else s[at] + 256 * LeAt(s, at + 1, n - 1)
  }

  function ToLe(v: nat, n: nat): (r: seq<byte>)
    ensures |r| == n
  {
    if n == 0 then [] else [v % 256] + ToLe(v / 256, n - 1)
  }

  lemma {:induction false} LeAtBounded(s: seq<byte>, at: nat, n: nat)
    requires at + n <= |s|
    ensures LeAt(s, at, n) < Limit(n)
    decreases n
  {
    if n > 0 { LeAtBounded(s, at + 1, n - 1); }
  }

  // Reading an integer depends on its own bytes only.
  lemma {:induction false} LeAtShifted(s: seq<byte>, at: nat, t: seq<byte>, at': nat, n: nat)
    requires at + n <= |s| && at' + n <= |t|
    requires s[at..at + n] == t[at'..at' + n]
    ensures LeAt(s, at, n) == LeAt(t, at', n)
    decreases n
  {
    if n > 0 {
      assert s[at] == s[at..at + n][0] && t[at'] == t[at'..at' + n][0];
      assert s[at + 1..at + n] == s[at..at + n][1..] && t[at' + 1..at' + n] == t[at'..at' + n][1..];
      LeAtShifted(s, at + 1, t, at' + 1, n - 1);
    }
  }

  // What was written is what is read back.
  lemma {:induction false} LeRoundTrip(v: nat, n: nat)
    requires v < Limit(n)
    ensures LeAt(ToLe(v, n), 0, n) == v
  {
    if n > 0 {
      LeRoundTrip(v / 256, n - 1);
      LeAtShifted(ToLe(v, n), 1, ToLe(v / 256, n - 1), 0, n - 1);
    }
  }

  lemma QuotientTwice(x: nat, m: nat)
    requires m > 0
    ensures x / (256 * m) == x / 256 / m
  {
    var q, r := x / 256 / m, x / 256 % m;
    assert x / 256 == m * q + r;
    assert x == 256 * m * q + (256 * r + x % 256);
    assert 256 * r + x % 256 < 256 * m;
    QuotientIs(x, 256 * m, q, 256 * r + x % 256);
  }

  lemma QuotientIs(x: nat, m: nat, q: nat, r: nat)
    requires x == m * q + r && r < m
    ensures x / m == q
  {
    var d, e := x / m, x % m;
    assert x == m * d + e && e < m;
    ProductKeepsOrder(m, d + 1, q);
    ProductKeepsOrder(m, q + 1, d);
  }

  lemma ProductKeepsOrder(m: nat, a: nat, b: nat)
    ensures a <= b ==> m * a <= m * b
  {
  }

  // Little-endian: the byte at offset k counts 256 to the k-th.
  lemma {:induction false} LeAtDigit(s: seq<byte>, at: nat, n: nat, k: nat)
    requires at + n <= |s| && k < n
    ensures LeAt(s, at, n) / Limit(k) % 256 == s[at + k]
    decreases n
  {
    var v, rest := LeAt(s, at, n), LeAt(s, at + 1, n - 1);
    assert v == s[at] + 256 * rest;
    LowDigit(s[at], rest);
    if k > 0 {
      assert Limit(k) == 256 * Limit(k - 1);
      QuotientTwice(v, Limit(k - 1));
      LeAtDigit(s, at + 1, n - 1, k - 1);
    }
    hide LeAt;
  }

  lemma LowDigit(a: byte, rest: nat)
    ensures (a + 256 * rest) % 256 == a && (a + 256 * rest) / 256 == rest
  {
  }

  lemma {:induction false} ToLeDigit(v: nat, n: nat, k: nat)
    requires k < n
    ensures ToLe(v, n)[k] == v / Limit(k) % 256
  {
    if k > 0 {
      QuotientTwice(v, Limit(k - 1));
      ToLeDigit(v / 256, n - 1, k - 1);
    }
  }

  // The n bytes from `at` on are those of an integer, lowest first.
  ghost predicate Digits(s: seq<byte>, at: nat, v: nat, n: nat) {
    at + n <= |s| && forall k :: 0 <= k < n ==> s[at + k] == v / Limit(k) % 256
  }

  lemma IntegerDigits(s: seq<byte>, at: nat, n: nat)
    requires at + n <= |s|
    ensures Digits(s, at, LeAt(s, at, n), n)
  {
    forall k | 0 <= k < n ensures s[at + k] == LeAt(s, at, n) / Limit(k) % 256 {
      LeAtDigit(s, at, n, k);
    }
  }

  // Bytes that are those of an integer are read as it.
  lemma {:induction false} DigitsReadBack(s: seq<byte>, at: nat, v: nat, n: nat)
    requires Digits(s, at, v, n) && v < Limit(n)
    ensures LeAt(s, at, n) == v
  {
    forall k | 0 <= k < n ensures s[at..at + n][k] == ToLe(v, n)[k] {
      ToLeDigit(v, n, k);
      assert s[at + k] == v / Limit(k) % 256;
    }
    assert s[at..at + n] == ToLe(v, n);
    hide ToLe, LeAt;
    FieldReadsBack(s, at, v, n);
  }

  lemma WrittenDigits(s: seq<byte>, at: nat, v: nat, n: nat)
    requires at + n <= |s| && s[at..at + n] == ToLe(v, n)
    ensures Digits(s, at, v, n)
  {
    forall k | 0 <= k < n ensures s[at + k] == v / Limit(k) % 256 {
      assert s[at + k] == s[at..at + n][k];
      ToLeDigit(v, n, k);
    }
  }

  // A field that was written is read back wherever its bytes stand.
  lemma FieldReadsBack(s: seq<byte>, at: nat, v: nat, n: nat)
    requires at + n <= |s| && v < Limit(n) && s[at..at + n] == ToLe(v, n)
    ensures LeAt(s, at, n) == v
  {
    LeRoundTrip(v, n);
    assert ToLe(v, n)[0..n] == ToLe(v, n);
    LeAtShifted(s, at, ToLe(v, n), 0, n);
  }

  // An integer inside a longer buffer.
  lemma LeInside(pre: seq<byte>, v: nat, n: nat, post: seq<byte>)
    requires v < Limit(n)
    ensures LeAt(pre + ToLe(v, n) + post, |pre|, n) == v
  {
    LeRoundTrip(v, n);
    LeAtShifted(pre + ToLe(v, n) + post, |pre|, ToLe(v, n), 0, n);
  }

  function Zeros(n: nat): (z: seq<byte>)
    ensures |z| == n && forall k :: 0 <= k < n ==> z[k] == 0
  {
    if n == 0 then [] else Zeros(n - 1) + [0]
  }

  // Concatenation is associative.
  lemma Regroup<T>(a: seq<T>, b: seq<T>, c: seq<T>)
    ensures (a + b) + c == a + (b + c)
  {
    assert |(a + b) + c| == |a + (b + c)|;
    assert forall k :: 0 <= k < |(a + b) + c| ==> ((a + b) + c)[k] == (a + (b + c))[k];
  }

  // A slice of a slice.
  lemma SubSlice<T>(s: seq<T>, a: nat, b: nat, c: nat, d: nat)
    requires a <= b <= |s| && c <= d <= b - a
    ensures s[a..b][c..d] == s[a + c..a + d]
  {
    assert |s[a..b][c..d]| == |s[a + c..a + d]|;
    assert forall k :: 0 <= k < d - c ==> s[a..b][c..d][k] == s[a + c..a + d][k];
  }

  lemma Limits()
    ensures Limit(1) == 0x100 && Limit(2) == 0x1_0000
    ensures Limit(4) == 0x1_0000_0000 && Limit(8) == 0x1_0000_0000_0000_0000
  {
    assert Limit(3) == 0x100_0000;
    assert Limit(5) == 0x100_0000_0000;
    assert Limit(6) == 0x1_0000_0000_0000;
    assert Limit(7) == 0x100_0000_0000_0000;
  }
}
