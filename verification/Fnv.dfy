/** The 64-bit FNV-1a hash (section 2 of draft-eastlake-fnv) that fingerprints
    authority inputs.  The state is a number below 2^64; every step exclusive-ors
    one byte into the state and multiplies modulo 2^64. */
module Fnv {

  const MODULUS: nat := 0x1_0000_0000_0000_0000
  const PRIME: nat := 1099511628211
  const OFFSET_BASIS: nat := 14695981039346656037

  // PRIME * PRIME_INVERSE == 1 + MODULUS * INVERSE_CARRY
  const PRIME_INVERSE: nat := 14886173955864302971
  const INVERSE_CARRY: nat := 887285111055

  type Word = x: nat | x < MODULUS
  type Byte = x: nat | x < 256

  // Exclusive-or of two naturals, bit by bit from the low end.
  function Xor(a: nat, b: nat): nat
    decreases a + b
  {
    if a == 0 && b == 0 then 0
    else (a + b) % 2 + 2 * Xor(a / 2, b / 2)
  }

  function Pow2(k: nat): nat {
    if k == 0 then 1 else 2 * Pow2(k - 1)
  }

  lemma {:induction false} XorBounded(a: nat, b: nat, k: nat)
    requires a < Pow2(k) && b < Pow2(k)
    ensures Xor(a, b) < Pow2(k)
  {
    if k > 0 && a + b > 0 {
      XorBounded(a / 2, b / 2, k - 1);
    }
  }

  lemma {:induction false} Pow2Add(a: nat, b: nat)
    ensures Pow2(a + b) == Pow2(a) * Pow2(b)
  {
    if a > 0 {
      Pow2Add(a - 1, b);
    }
  }

  lemma Pow2Of64()
    ensures Pow2(64) == MODULUS
  {
    assert Pow2(4) == 16;
    Pow2Add(4, 4);
    Pow2Add(8, 8);
    Pow2Add(16, 16);
    Pow2Add(32, 32);
  }

  function XorByte(w: Word, b: Byte): Word {
    assert Xor(w, b) < MODULUS by {
      Pow2Of64();
      XorBounded(w, b, 64);
    }
    Xor(w, b)
  }

  function TimesPrime(w: Word): Word {
    w * PRIME % MODULUS
  }

  function Step(w: Word, b: Byte): Word {
    TimesPrime(XorByte(w, b))
  }

  // The inverse of Step for a known byte.
  function Unstep(w: Word, b: Byte): Word {
    XorByte(w * PRIME_INVERSE % MODULUS, b)
  }

  function HashFrom(w: Word, bytes: seq<Byte>): Word
    decreases |bytes|
  {
    if bytes == [] then w else HashFrom(Step(w, bytes[0]), bytes[1..])
  }

  function Hash(bytes: seq<Byte>): Word {
    HashFrom(OFFSET_BASIS, bytes)
  }

  // Runs the hash backwards: the state before `bytes` were absorbed.
  function Unhash(w: Word, bytes: seq<Byte>): Word {
    if bytes == [] then w else Unstep(Unhash(w, bytes[1..]), bytes[0])
  }

  method Fnv1a64(bytes: seq<Byte>) returns (value: Word)
    ensures value == Hash(bytes)
  {
    value := OFFSET_BASIS;
    for i := 0 to |bytes|
      invariant HashFrom(value, bytes[i..]) == Hash(bytes)
    {
      assert bytes[i..][1..] == bytes[i + 1..];
      value := XorByte(value, bytes[i]);
      value := value * PRIME % MODULUS;
    }
  }

  // ----- The step is a bijection on states and injective in the byte -----

  lemma LowBit(x: nat, bit: nat, rest: nat)
    requires bit < 2 && x == bit + 2 * rest
    ensures x % 2 == bit && x / 2 == rest
  {
  }

  // The binary digit of weight 2^k.
  function Bit(x: nat, k: nat): nat {
    if k == 0 then x % 2 else Bit(x / 2, k - 1)
  }

  // A bit of the exclusive-or is set exactly when it is set in one of the two.
  lemma {:induction false} XorBits(a: nat, b: nat, k: nat)
    ensures Bit(Xor(a, b), k) == if Bit(a, k) == Bit(b, k) then 0 else 1
    decreases k
  {
    LowBit(Xor(a, b), (a + b) % 2, Xor(a / 2, b / 2));
    if k > 0 {
      XorBits(a / 2, b / 2, k - 1);
    } else {
      SumParity(a, b);
    }
  }

  lemma SumParity(a: nat, b: nat)
    ensures (a + b) % 2 == if a % 2 == b % 2 then 0 else 1
  {
  }

  lemma XorHalves(half: nat, low: nat, b: nat)
    ensures Xor(2 * half + low, b) == (low + b) % 2 + 2 * Xor(half + low / 2, b / 2)
  {
    LowBit(2 * half + low, low % 2, half + low / 2);
  }

  lemma {:induction false} XorLowBits(high: nat, low: nat, b: nat, k: nat)
    requires low < Pow2(k) && b < Pow2(k)
    ensures Xor(Pow2(k) * high + low, b) == Pow2(k) * high + Xor(low, b)
    decreases k
  {
    if k > 0 {
      var half := Pow2(k - 1) * high;
      assert Pow2(k) * high == 2 * half;
      XorHalves(half, low, b);
      XorLowBits(high, low / 2, b / 2, k - 1);
      XorHalves(0, low, b);
    } else {
      XorZero(high);
    }
  }

  lemma {:induction false} XorZero(a: nat)
    ensures Xor(a, 0) == a
  {
    if a > 0 {
      XorZero(a / 2);
    }
  }

  // The exclusive-or with a byte changes the low byte alone.
  lemma XorLowByte(high: nat, low: nat, b: Byte)
    requires low < 256
    ensures Xor(256 * high + low, b) == 256 * high + Xor(low, b)
  {
    assert Pow2(4) == 16;
    Pow2Add(4, 4);
    XorLowBits(high, low, b, 8);
  }

  lemma XorIs(a: nat, b: nat, x: nat)
    requires Xor(a / 2, b / 2) == x / 2 && x % 2 == (a + b) % 2
    ensures Xor(a, b) == x
  {
  }

  lemma SmallXor(a: nat, b: nat)
    requires a == 37 && b == 97
    ensures Xor(a, b) == 68
  {
    XorZero(a / 128);
    XorIs(a / 64, b / 64, 1);
    XorIs(a / 32, b / 32, 2);
    XorIs(a / 16, b / 16, 4);
    XorIs(a / 8, b / 8, 8);
    XorIs(a / 4, b / 4, 17);
    XorIs(a / 2, b / 2, 34);
    XorIs(a, b, 68);
  }

  lemma BasisArithmetic(high: nat)
    requires high == 57406175934947875
    ensures OFFSET_BASIS == 256 * high + 37
    ensures (256 * high + 68) * PRIME % MODULUS == 0xaf63dc4c8601ec8c
  {
  }

  lemma StepFromBasis(w: Word, b: Byte)
    requires w == OFFSET_BASIS && b == 97
    ensures Step(w, b) == 0xaf63dc4c8601ec8c
  {
    var high := 57406175934947875;
    BasisArithmetic(high);
    SmallXor(37, b);
    XorLowByte(high, 37, b);
    assert XorByte(w, b) == 256 * high + 68;
  }

  lemma HashOne(w: Word, bytes: seq<Byte>)
    requires |bytes| == 1
    ensures HashFrom(w, bytes) == Step(w, bytes[0])
  {
  }

  // Published values of the hash: of no bytes and of "a".
  lemma KnownValues(bytes: seq<Byte>, w: Word)
    requires w == 0xcbf29ce484222325
    ensures bytes == [] ==> Hash(bytes) == w
    ensures |bytes| == 1 && bytes[0] == 97 ==> Hash(bytes) == 0xaf63dc4c8601ec8c
  {
    if |bytes| == 1 && bytes[0] == 97 {
      StepFromBasis(w, bytes[0]);
      HashOne(w, bytes);
    }
  }

  lemma ParityTwice(x: nat, a: nat, b: nat)
    requires x % 2 == (a + b) % 2
    ensures (x + b) % 2 == a % 2
  {
  }

  lemma {:induction false} XorTwice(a: nat, b: nat)
    ensures Xor(Xor(a, b), b) == a
    decreases a + b
  {
    if a + b > 0 {
      var x := Xor(a, b);
      LowBit(x, (a + b) % 2, Xor(a / 2, b / 2));
      ParityTwice(x, a, b);
      XorTwice(a / 2, b / 2);
    }
  }

  lemma {:induction false} XorCancel(a: nat, b: nat, c: nat)
    requires Xor(a, b) == Xor(a, c)
    ensures b == c
    decreases a + b + c
  {
    if a + b > 0 || a + c > 0 {
      assert Xor(a, b) == (a + b) % 2 + 2 * Xor(a / 2, b / 2);
      assert Xor(a, c) == (a + c) % 2 + 2 * Xor(a / 2, c / 2);
      XorCancel(a / 2, b / 2, c / 2);
    }
  }

  lemma ModAddMultiple(a: nat, t: int)
    requires a < MODULUS
    ensures (a + MODULUS * t) % MODULUS == a
  {
  }

  lemma TimesPrimeInverse(w: Word)
    ensures TimesPrime(w) * PRIME_INVERSE % MODULUS == w
    ensures TimesPrime(w * PRIME_INVERSE % MODULUS) == w
  {
    var q := w * PRIME / MODULUS;
    ModAddMultiple(w, w * INVERSE_CARRY - q * PRIME_INVERSE);
    var p := w * PRIME_INVERSE / MODULUS;
    ModAddMultiple(w, w * INVERSE_CARRY - p * PRIME);
  }

  lemma StepBijective(w: Word, b: Byte)
    ensures Unstep(Step(w, b), b) == w
    ensures Step(Unstep(w, b), b) == w
  {
    TimesPrimeInverse(XorByte(w, b));
    XorTwice(w, b);
    TimesPrimeInverse(w);
    XorTwice(w * PRIME_INVERSE % MODULUS, b);
  }

  lemma StepInjectiveInByte(w: Word, b: Byte, c: Byte)
    requires Step(w, b) == Step(w, c)
    ensures b == c
  {
    TimesPrimeInverse(XorByte(w, b));
    TimesPrimeInverse(XorByte(w, c));
    XorCancel(w, b, c);
  }

  // ----- Whole-string laws -----

  lemma {:induction false} HashSplits(w: Word, s: seq<Byte>, t: seq<Byte>)
    ensures HashFrom(w, s + t) == HashFrom(HashFrom(w, s), t)
    decreases |s|
  {
    if s == [] {
      assert s + t == t;
    } else {
      assert (s + t)[1..] == s[1..] + t;
      HashSplits(Step(w, s[0]), s[1..], t);
    }
  }

  lemma {:induction false} HashFromBijective(w: Word, bytes: seq<Byte>)
    ensures Unhash(HashFrom(w, bytes), bytes) == w
    ensures HashFrom(Unhash(w, bytes), bytes) == w
    decreases |bytes|
  {
    if bytes != [] {
      HashFromBijective(Step(w, bytes[0]), bytes[1..]);
      StepBijective(w, bytes[0]);
      HashFromBijective(w, bytes[1..]);
      StepBijective(Unhash(w, bytes[1..]), bytes[0]);
    }
  }

  lemma HashAround(before: seq<Byte>, b: Byte, after: seq<Byte>)
    ensures Hash(before + ([b] + after)) == HashFrom(Step(Hash(before), b), after)
  {
    HashSplits(OFFSET_BASIS, before, [b] + after);
    assert ([b] + after)[1..] == after;
  }

  // From different bytes in one place different hashes follow.
  lemma BytesTold(before: seq<Byte>, b: Byte, c: Byte, after: seq<Byte>)
    requires Hash(before + ([b] + after)) == Hash(before + ([c] + after))
    ensures b == c
  {
    HashAround(before, b, after);
    HashAround(before, c, after);
    HashFromBijective(Step(Hash(before), b), after);
    HashFromBijective(Step(Hash(before), c), after);
    StepInjectiveInByte(Hash(before), b, c);
  }

  // Changing exactly one byte of a file always changes its fingerprint.
  lemma SingleByteChangeDetected(s: seq<Byte>, t: seq<Byte>, i: nat)
    requires i < |s| == |t|
    requires forall j | 0 <= j < |s| && j != i :: s[j] == t[j]
    ensures Hash(s) == Hash(t) <==> s == t
  {
    var before, after := s[..i], s[i + 1..];
    assert s == before + ([s[i]] + after) && t == before + ([t[i]] + after);
    if Hash(s) == Hash(t) {
      BytesTold(before, s[i], t[i], after);
    }
  }

  // Two different prefixes that hash apart stay apart under every common
  // suffix, and two that collide keep colliding.
  lemma CommonSuffixNeutral(s: seq<Byte>, t: seq<Byte>, suffix: seq<Byte>)
    ensures Hash(s + suffix) == Hash(t + suffix) <==> Hash(s) == Hash(t)
  {
    HashSplits(OFFSET_BASIS, s, suffix);
    HashSplits(OFFSET_BASIS, t, suffix);
    HashFromBijective(Hash(s), suffix);
    HashFromBijective(Hash(t), suffix);
  }
}
