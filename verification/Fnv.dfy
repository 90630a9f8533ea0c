// The 64-bit FNV-1a hash (crates/loom-core/src/lib.rs, fnv1a64).
//
// A u64 is a natural number below 2^64; `^=` and `wrapping_mul` are written out on numbers.

module Fnv {

  import opened Words

  type Byte = x: nat | x < 256

  const OFFSET_BASIS: U64 := 0xcbf29ce484222325

  // ----- bitwise exclusive or on numbers -----

  function Xor(a: nat, b: nat): nat {
    if a == 0 && b == 0 then 0 else (a % 2 + b % 2) % 2 + 2 * Xor(a / 2, b / 2)
  }

  lemma ShiftByOne(m: nat)
    requires IsPowerOfTwo(m)
    ensures IsPowerOfTwo(2 * m)
  {
    assert 2 * m / 2 == m && 2 * m % 2 == 0;
  }

  lemma ShiftByTwo(m: nat)
    requires IsPowerOfTwo(m)
    ensures IsPowerOfTwo(4 * m)
  {
    ShiftByOne(m);
    ShiftByOne(2 * m);
  }

  lemma ShiftByEight(m: nat)
    requires IsPowerOfTwo(m)
    ensures IsPowerOfTwo(256 * m)
  {
    ShiftByTwo(m);
    ShiftByTwo(4 * m);
    ShiftByTwo(16 * m);
    ShiftByTwo(64 * m);
  }

  lemma ShiftBySixteen(m: nat)
    requires IsPowerOfTwo(m)
    ensures IsPowerOfTwo(65536 * m)
  {
    ShiftByEight(m);
    ShiftByEight(256 * m);
  }

  lemma ModulusIsPowerOfTwo()
    ensures IsPowerOfTwo(MODULUS)
  {
    ShiftBySixteen(1);
    ShiftBySixteen(0x1_0000);
    ShiftBySixteen(0x1_0000_0000);
    ShiftBySixteen(0x1_0000_0000_0000);
  }

  lemma {:induction false} XorBound(a: nat, b: nat, m: nat)
    requires IsPowerOfTwo(m) && a < m && b < m
    ensures Xor(a, b) < m
  {
    if m > 1 {
      XorBound(a / 2, b / 2, m / 2);
    }
  }

  lemma XorParts(a: nat, b: nat)
    ensures Xor(a, b) / 2 == Xor(a / 2, b / 2) && Xor(a, b) % 2 == (a % 2 + b % 2) % 2
  {
    var low, high := (a % 2 + b % 2) % 2, Xor(a / 2, b / 2);
    assert Xor(a, b) == low + 2 * high;
  }

  lemma BitTwice(p: nat, q: nat)
    requires p < 2 && q < 2
    ensures ((p + q) % 2 + q) % 2 == p
  {
  }

  lemma SameHalves(x: nat, y: nat)
    requires x / 2 == y / 2 && x % 2 == y % 2
    ensures x == y
  {
  }

  lemma {:induction false} XorTwice(a: nat, b: nat)
    ensures Xor(Xor(a, b), b) == a
    decreases a + b
  {
    if a != 0 || b != 0 {
      var x := Xor(a, b);
      XorParts(a, b);
      XorParts(x, b);
      XorTwice(a / 2, b / 2);
      BitTwice(a % 2, b % 2);
      SameHalves(Xor(x, b), a);
    }
  }

  lemma {:induction false} XorCancel(a: nat, b: nat, c: nat)
    requires Xor(a, b) == Xor(a, c)
    ensures b == c
  {
    if a != 0 || b != 0 || c != 0 {
      XorCancel(a / 2, b / 2, c / 2);
    }
  }

  // ----- one round -----

  function XorByte(hash: U64, byte: Byte): U64 {
    ModulusIsPowerOfTwo();
    XorBound(hash, byte, MODULUS);
    Xor(hash, byte)
  }

  function WrappingMul(x: U64, factor: U64): U64 {
    x * factor % MODULUS
  }

  const PRIME: U64 := 0x100000001b3

  const PRIME_INVERSE: U64 := 0xce965057aff6957b

  function Step(hash: U64, byte: Byte): U64 {
    WrappingMul(XorByte(hash, byte), PRIME)
  }

  ghost function Unstep(hash: U64, byte: Byte): U64 {
    XorByte(WrappingMul(hash, PRIME_INVERSE), byte)
  }

  lemma RemainderUnique(a: int, q: int, r: int)
    requires a == 0x1_0000_0000_0000_0000 * q + r && 0 <= r < 0x1_0000_0000_0000_0000
    ensures a % 0x1_0000_0000_0000_0000 == r
  {
  }

  /** The product of the prime and its inverse is 1 modulo 2^64. */
  lemma FactorsCancel(x: int, quotient: int, r: int, s: int)
    requires s == 0x1_0000_0000_0000_0000 * quotient + r
    requires s == x * 0x100000001b3 || s == x * 0xce965057aff6957b
    ensures s == x * 0x100000001b3 ==>
      r * 0xce965057aff6957b == 0x1_0000_0000_0000_0000 * (x * 0xce9650590f - quotient * 0xce965057aff6957b) + x
    ensures s == x * 0xce965057aff6957b ==>
      r * 0x100000001b3 == 0x1_0000_0000_0000_0000 * (x * 0xce9650590f - quotient * 0x100000001b3) + x
  {
  }

  /** Multiplying by the prime and by its inverse cancel, in either order. */
  lemma PrimeInvertible(x: U64)
    ensures WrappingMul(WrappingMul(x, PRIME), PRIME_INVERSE) == x
    ensures WrappingMul(WrappingMul(x, PRIME_INVERSE), PRIME) == x
  {
    var p, q := x * 0x100000001b3, x * 0xce965057aff6957b;
    var m := 0x1_0000_0000_0000_0000;
    FactorsCancel(x, p / m, p % m, p);
    FactorsCancel(x, q / m, q % m, q);
    RemainderUnique(p % m * 0xce965057aff6957b, x * 0xce9650590f - p / m * 0xce965057aff6957b, x);
    RemainderUnique(q % m * 0x100000001b3, x * 0xce9650590f - q / m * 0x100000001b3, x);
  }

  ghost function Rounds(hash: U64, bytes: seq<Byte>): U64
    decreases |bytes|
  {
    if bytes == [] then hash else Step(Rounds(hash, bytes[..|bytes| - 1]), bytes[|bytes| - 1])
  }

  ghost function Unrounds(hash: U64, bytes: seq<Byte>): U64
    decreases |bytes|
  {
    if bytes == [] then hash
    else Unrounds(Unstep(hash, bytes[|bytes| - 1]), bytes[..|bytes| - 1])
  }

  method Fnv1a64(bytes: seq<Byte>) returns (hash: U64)
    ensures hash == Rounds(OFFSET_BASIS, bytes)
  {
    hash := OFFSET_BASIS;
    for i := 0 to |bytes|
      invariant hash == Rounds(OFFSET_BASIS, bytes[..i])
    {
      assert bytes[..i + 1][..i] == bytes[..i];
      hash := XorByte(hash, bytes[i]);
      hash := WrappingMul(hash, PRIME);
    }
    assert bytes[..|bytes|] == bytes;
  }

  /** Every round is a bijection of the 64-bit state. */
  lemma StepBijective(hash: U64, byte: Byte)
    ensures Unstep(Step(hash, byte), byte) == hash
    ensures Step(Unstep(hash, byte), byte) == hash
  {
    PrimeInvertible(XorByte(hash, byte));
    PrimeInvertible(hash);
    XorTwice(hash, byte);
    XorTwice(WrappingMul(hash, PRIME_INVERSE), byte);
  }

  /** From one state, different bytes lead to different states. */
  lemma StepSeparatesBytes(hash: U64, a: Byte, b: Byte)
    requires Step(hash, a) == Step(hash, b)
    ensures a == b
  {
    PrimeInvertible(XorByte(hash, a));
    PrimeInvertible(XorByte(hash, b));
    XorCancel(hash, a, b);
  }

  /** Hashing a fixed string is a bijection of the starting state. */
  lemma {:induction false} RoundsBijective(hash: U64, bytes: seq<Byte>)
    ensures Unrounds(Rounds(hash, bytes), bytes) == hash
    ensures Rounds(Unrounds(hash, bytes), bytes) == hash
    decreases |bytes|
  {
    if bytes == [] {
    } else {
      var front, last := bytes[..|bytes| - 1], bytes[|bytes| - 1];
      StepBijective(Rounds(hash, front), last);
      StepBijective(hash, last);
      RoundsBijective(hash, front);
      RoundsBijective(Unstep(hash, last), front);
    }
  }

  lemma {:induction false} RoundsAppend(hash: U64, a: seq<Byte>, b: seq<Byte>)
    ensures Rounds(hash, a + b) == Rounds(Rounds(hash, a), b)
    decreases |b|
  {
    if b == [] {
      assert a + b == a;
    } else {
      RoundsAppend(hash, a, b[..|b| - 1]);
      assert (a + b)[..|a + b| - 1] == a + b[..|b| - 1];
    }
  }

  /** A common tail neither creates nor removes a collision. */
  lemma CommonTailCancels(x: seq<Byte>, y: seq<Byte>, tail: seq<Byte>)
    ensures Rounds(OFFSET_BASIS, x + tail) == Rounds(OFFSET_BASIS, y + tail)
            <==> Rounds(OFFSET_BASIS, x) == Rounds(OFFSET_BASIS, y)
  {
    RoundsAppend(OFFSET_BASIS, x, tail);
    RoundsAppend(OFFSET_BASIS, y, tail);
    RoundsBijective(Rounds(OFFSET_BASIS, x), tail);
    RoundsBijective(Rounds(OFFSET_BASIS, y), tail);
  }

  /** Inputs of one length that differ in exactly one byte never collide. */
  lemma OneByteNeverCollides(x: seq<Byte>, y: seq<Byte>, k: nat)
    requires |x| == |y| && k < |x| && x[k] != y[k]
    requires forall i | 0 <= i < |x| && i != k :: x[i] == y[i]
    ensures Rounds(OFFSET_BASIS, x) != Rounds(OFFSET_BASIS, y)
  {
    var front, tail := x[..k], x[k + 1..];
    assert x == (front + [x[k]]) + tail && y == (front + [y[k]]) + tail;
    CommonTailCancels(front + [x[k]], front + [y[k]], tail);
    assert (front + [x[k]])[..k] == front && (front + [y[k]])[..k] == front;
    if Rounds(OFFSET_BASIS, x) == Rounds(OFFSET_BASIS, y) {
      StepSeparatesBytes(Rounds(OFFSET_BASIS, front), x[k], y[k]);
    }
  }

  // ----- known digests -----

  lemma {:induction false} XorZero(a: nat)
    ensures Xor(a, 0) == a
  {
    if a != 0 {
      XorZero(a / 2);
    }
  }

  lemma HalfOfSum(p: nat, a: nat)
    ensures (2 * p + a) / 2 == p + a / 2 && (2 * p + a) % 2 == a % 2
  {
  }

  /** A number below m changes only the digits below m. */
  lemma {:induction false} XorLow(m: nat, high: nat, a: nat, b: nat)
    requires IsPowerOfTwo(m) && a < m && b < m
    ensures Xor(m * high + a, b) == m * high + Xor(a, b)
  {
    if m == 1 {
      XorZero(high);
    } else {
      var p := m / 2 * high;
      assert m * high == 2 * p;
      HalfOfSum(p, a);
      XorLow(m / 2, high, a / 2, b / 2);
      XorParts(2 * p + a, b);
      XorParts(a, b);
    }
  }

  lemma OneRound(hash: U64, high: nat, low: nat, byte: Byte)
    requires hash == 0x100 * high + low && low < 0x100
    ensures Rounds(hash, [byte]) == (0x100 * high + Xor(low, byte)) * 0x100000001b3 % 0x1_0000_0000_0000_0000
  {
    ShiftByEight(1);
    XorLow(0x100, high, low, byte);
    assert [byte][..0] == [];
  }

  /** The digest of the empty string and of every string of one byte. */
  lemma KnownDigests(byte: Byte)
    ensures Rounds(OFFSET_BASIS, []) == 0xcbf29ce484222325
    ensures Rounds(OFFSET_BASIS, [byte])
            == (0xcbf29ce484222300 + Xor(0x25, byte)) * 0x100000001b3 % 0x1_0000_0000_0000_0000
  {
    OneRound(OFFSET_BASIS, 0xcbf29ce4842223, 0x25, byte);
  }

  /** The i-th binary digit. */
  ghost function Bit(n: nat, i: nat): nat {
    if i == 0 then n % 2 else Bit(n / 2, i - 1)
  }

  /** Exclusive or, digit by digit. */
  lemma {:induction false} XorBits(a: nat, b: nat, i: nat)
    ensures Bit(Xor(a, b), i) == if Bit(a, i) == Bit(b, i) then 0 else 1
    decreases i
  {
    XorParts(a, b);
    if i > 0 {
      XorBits(a / 2, b / 2, i - 1);
    } else {
      assert a % 2 + b % 2 < 4;
    }
  }
}
