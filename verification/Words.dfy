// Unsigned 64-bit arithmetic.

module Words {

  const MODULUS: nat := 0x1_0000_0000_0000_0000

  const MAX: nat := 0xFFFF_FFFF_FFFF_FFFF

  type U64 = x: nat | x < 0x1_0000_0000_0000_0000

  function SaturatingAdd(a: U64, b: U64): U64 {
    if a + b <= MAX then a + b else MAX
  }

  function SaturatingSub(a: U64, b: U64): U64 {
    if a < b then 0 else a - b
  }

  /** Additions and multiplications of a release build. */
  function Wrap(n: nat): U64 {
    n % 0x1_0000_0000_0000_0000
  }

  lemma WrapAdd(a: nat, b: nat)
    ensures Wrap(Wrap(a) + b) == Wrap(a + b)
  {
  }

  lemma WrapSmall(n: nat)
    ensures Wrap(n) == n <==> n <= MAX
  {
  }

  lemma WrapEven(half: nat)
    ensures Wrap(2 * half) != MAX
  {
    var quotient := 2 * half / 0x1_0000_0000_0000_0000;
    var rest := half - 0x8000_0000_0000_0000 * quotient;
    assert Wrap(2 * half) == 2 * rest;
  }

  function AtMostMax(n: nat): U64 {
    if n <= MAX then n else MAX
  }

  ghost predicate IsPowerOfTwo(m: nat) {
    m == 1 || (m > 0 && m % 2 == 0 && IsPowerOfTwo(m / 2))
  }

  function Sum(s: seq<nat>): nat {
    if s == [] then 0 else Sum(s[..|s| - 1]) + s[|s| - 1]
  }

  lemma SumPush(s: seq<nat>, x: nat)
    ensures Sum(s + [x]) == Sum(s) + x
  {
    assert (s + [x])[..|s|] == s;
  }

  lemma {:induction false} SumAppend(a: seq<nat>, b: seq<nat>)
    ensures Sum(a + b) == Sum(a) + Sum(b)
    decreases |b|
  {
    if b == [] {
      assert a + b == a;
    } else {
      var front, last := b[..|b| - 1], b[|b| - 1];
      SumAppend(a, front);
      SumPush(a + front, last);
      assert a + b == (a + front) + [last];
    }
  }

  lemma SumAround(front: seq<nat>, x: nat, rest: seq<nat>)
    ensures Sum((front + [x]) + rest) == Sum(front + rest) + x
  {
    SumAppend(front + [x], rest);
    SumPush(front, x);
    SumAppend(front, rest);
  }

  lemma SplitAround<T>(s: seq<T>, i: nat)
    requires i < |s|
    ensures s == (s[..i] + [s[i]]) + s[i + 1..]
  {
  }

  lemma SumRemove(s: seq<nat>, i: nat)
    requires i < |s|
    ensures Sum(s[..i] + s[i + 1..]) == Sum(s) - s[i]
  {
    SplitAround(s, i);
    SumAround(s[..i], s[i], s[i + 1..]);
  }

  ghost function MapSum<K(!new)>(m: map<K, nat>): nat {
    if m == map[] then 0
    else
      var k :| k in m;
      m[k] + MapSum(m - {k})
  }

  lemma {:induction false} MapSumRemove<K(!new)>(m: map<K, nat>, key: K)
    requires key in m
    ensures MapSum(m) == m[key] + MapSum(m - {key})
    decreases |m|
  {
    var k :| k in m && MapSum(m) == m[k] + MapSum(m - {k});
    if k != key {
      MapSumRemove(m - {k}, key);
      MapSumRemove(m - {key}, k);
      assert m - {k} - {key} == m - {key} - {k};
    }
  }

  lemma MapSumUpdate<K(!new)>(m: map<K, nat>, key: K, value: nat)
    ensures MapSum(m[key := value]) == MapSum(m - {key}) + value
    ensures key in m ==> MapSum(m[key := value]) == MapSum(m) - m[key] + value
    ensures key !in m ==> MapSum(m[key := value]) == MapSum(m) + value
  {
    MapSumRemove(m[key := value], key);
    assert m[key := value] - {key} == m - {key};
    if key in m {
      MapSumRemove(m, key);
    } else {
      assert m - {key} == m;
    }
  }
}
