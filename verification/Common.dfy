/** Small shared vocabulary: optional values, results that carry an error, and bytes. */
module Common {

  datatype Option<+T> = None | Some(value: T)

  datatype Result<+R, +E> = Success(value: R) | Failure(error: E)

  newtype byte = x: int | 0 <= x < 256

  /** The C library's `ceil`, on exact reals. */
  function Ceil(x: real): (c: int)
    ensures (c - 1) as real < x <= c as real
  {
    -((-x).Floor)
  }

  const TWO_64 := 0x1_0000_0000_0000_0000

  /** Unsigned 64-bit arithmetic. */
  function Wrap64(x: int): (r: nat)
    ensures r < TWO_64
  {
    x % 0x1_0000_0000_0000_0000
  }

  lemma WrapShift(x: int, d: int)
    ensures Wrap64(Wrap64(x) + d) == Wrap64(x + d)
    ensures 0 <= x < TWO_64 ==> Wrap64(x) == x
  {
  }

  function Zeros(n: nat): (z: seq<byte>)
    ensures |z| == n
  {
    seq(n, _ => 0)
  }

  function Min(a: nat, b: nat): nat {
    if a < b then a else b
  }

  /** A copy of `x` that is right only for the first `n` elements. */
  function Garbled<T>(x: seq<T>, n: nat, junk: nat -> T): (g: seq<T>)
    ensures |g| == |x|
    ensures n >= |x| ==> g == x
  {
    var k := Min(|x|, n);
    x[..k] + seq(|x| - k, i requires 0 <= i => junk(i))
  }

  /** A quotient and a remainder that fit are the quotient and the remainder. */
  lemma DivModIs(a: nat, d: nat, q: nat, r: nat)
    requires a == q * d + r && r < d
    ensures a / d == q && a % d == r
  {
    var e: int := a / d - q;
    assert e > 0 ==> e * d >= d;
    assert e < 0 ==> e * d + d <= 0;
    assert a == (a / d) * d + a % d;
    assert e * d == r - a % d;
  }

  lemma Shift<T>(a: seq<T>, x: T, b: seq<T>)
    ensures a + ([x] + b) == a + [x] + b
    ensures a + [] == a
  {
  }

  /** The effect of `memcpy` on an array. */
  function Overwrite<T>(a: seq<T>, at: nat, data: seq<T>): (r: seq<T>)
    requires at + |data| <= |a|
    ensures |r| == |a|
    ensures forall k :: 0 <= k < |a| ==> r[k] == if at <= k < at + |data| then data[k - at] else a[k]
  {
    a[..at] + data + a[at + |data|..]
  }

  /** A list with the same elements holds the last one somewhere, and the same rest around it. */
  lemma FindLast<T>(a: seq<T>, b: seq<T>) returns (k: nat)
    requires a != [] && multiset(a) == multiset(b)
    ensures k < |b| && b[k] == a[|a| - 1] && b == b[..k] + [b[k]] + b[k + 1..]
    ensures multiset(a[..|a| - 1]) == multiset(b[..k] + b[k + 1..])
  {
    var n := |a| - 1;
    assert a == a[..n] + [a[n]];
    assert a[n] in multiset(b);
    k :| 0 <= k < |b| && b[k] == a[n];
    assert b == b[..k] + [b[k]] + b[k + 1..];
    assert multiset(a[..n]) == multiset(a) - multiset{a[n]} == multiset(b[..k] + b[k + 1..]);
  }

  lemma EmptyMultiset<T>(b: seq<T>)
    requires multiset(b) == multiset{}
    ensures b == []
  {
    assert |multiset(b)| == 0;
  }
}
