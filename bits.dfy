/** Unsigned machine words as integers: 64-bit words below 2^64, powers of two, and the
    bitwise operations the hash and the random generator use, defined bit by bit with the
    facts about them that the proofs need. */
module Bits {
  const WordModulus: int := 0x1_0000_0000_0000_0000
  type word = x: int | 0 <= x < WordModulus

  /** 2^k. */
  function Pow2(k: nat): (r: nat)
    ensures r > 0
  {
    if k == 0 then 1 else 2 * Pow2(k - 1)
  }

  /** Bitwise exclusive or of two naturals. */
  function Xor(a: nat, b: nat): nat
    decreases a + b
  {
    if a == 0 then b
    else if b == 0 then a
    else 2 * Xor(a / 2, b / 2) + (if a % 2 == b % 2 then 0 else 1)
  }

  /** XOR of two k-bit numbers has k bits. */
  lemma {:induction false} XorBits(a: nat, b: nat, k: nat)
    requires a < Pow2(k) && b < Pow2(k)
    ensures Xor(a, b) < Pow2(k)
    decreases a + b
  {
    if a != 0 && b != 0 {
      XorBits(a / 2, b / 2, k - 1);
    }
  }

  /** Bitwise exclusive or of two words. */
  function XorWord(a: word, b: word): word
  {
    XorOfWords(a, b);
    Xor(a, b)
  }

  /** XOR of two words is a word. */
  lemma XorOfWords(a: word, b: word)
    ensures Xor(a, b) < WordModulus
  {
    Pow2Of64();
    XorBits(a, b, 64);
  }

  lemma Pow2Of32()
    ensures Pow2(31) == 0x8000_0000 && Pow2(32) == 0x1_0000_0000
  {
    Pow2Plus8(0);
    assert Pow2(8) == 0x100;
    Pow2Plus8(8);
    assert Pow2(16) == 0x1_0000;
    Pow2Plus8(16);
    assert Pow2(24) == 0x100_0000;
    Pow2Plus8(24);
    assert Pow2(32) == 2 * Pow2(31);
  }

  lemma Pow2Of64()
    ensures Pow2(64) == WordModulus
  {
    Pow2Of32();
    Pow2Plus8(32);
    assert Pow2(40) == 0x100_0000_0000;
    Pow2Plus8(40);
    assert Pow2(48) == 0x1_0000_0000_0000;
    Pow2Plus8(48);
    assert Pow2(56) == 0x100_0000_0000_0000;
    Pow2Plus8(56);
  }

  /** Eight more bits multiply by 256. */
  lemma Pow2Plus8(k: nat)
    ensures Pow2(k + 8) == 256 * Pow2(k)
  {
    assert Pow2(k + 8) == 2 * Pow2(k + 7);
    assert Pow2(k + 7) == 2 * Pow2(k + 6);
    assert Pow2(k + 6) == 2 * Pow2(k + 5);
    assert Pow2(k + 5) == 2 * Pow2(k + 4);
    assert Pow2(k + 4) == 2 * Pow2(k + 3);
    assert Pow2(k + 3) == 2 * Pow2(k + 2);
    assert Pow2(k + 2) == 2 * Pow2(k + 1);
  }

  /** Xor unfolds by its low bit for every pair, zeros included. */
  lemma XorLowBit(a: nat, b: nat)
    ensures Xor(a, b) == 2 * Xor(a / 2, b / 2) + (if a % 2 == b % 2 then 0 else 1)
  {
    if a == 0 {
      XorZero(b / 2);
    } else if b == 0 {
      XorZero(a / 2);
      XorSymmetric(a / 2, 0);
    }
  }

  /** XOR with zero leaves a number unchanged. */
  lemma XorZero(a: nat)
    ensures Xor(0, a) == a && Xor(a, 0) == a
  {
  }

  /** XOR is symmetric. */
  lemma {:induction false} XorSymmetric(a: nat, b: nat)
    ensures Xor(a, b) == Xor(b, a)
    decreases a + b
  {
    if a != 0 && b != 0 {
      XorSymmetric(a / 2, b / 2);
    }
  }

  /** XORing the same number twice cancels. */
  lemma {:induction false} XorCancel(a: nat, b: nat)
    ensures Xor(Xor(a, b), b) == a
    decreases a + b
  {
    if b == 0 {
    } else {
      XorCancel(a / 2, b / 2);
      XorLowBit(a, b);
      var x := Xor(a, b);
      assert x / 2 == Xor(a / 2, b / 2) && x % 2 == (if a % 2 == b % 2 then 0 else 1);
      XorLowBit(x, b);
    }
  }

  /** The low k bits of an XOR are the XOR of the low k bits. */
  lemma {:induction false} XorLowBits(a: nat, b: nat, k: nat)
    ensures Xor(a, b) % Pow2(k) == Xor(a % Pow2(k), b % Pow2(k))
  {
    if k == 0 {
      XorZero(0);
    } else {
      var p := Pow2(k - 1);
      assert Pow2(k) == 2 * p;
      var x, bit := Xor(a, b), if a % 2 == b % 2 then 0 else 1;
      XorLowBit(a, b);
      assert x / 2 == Xor(a / 2, b / 2) && x % 2 == bit;
      HalveModulo(x, p);
      XorLowBits(a / 2, b / 2, k - 1);
      assert x % (2 * p) == 2 * Xor((a / 2) % p, (b / 2) % p) + bit;
      HalveModulo(a, p);
      HalveModulo(b, p);
      XorLowBit(a % (2 * p), b % (2 * p));
    }
  }

  /** Halving commutes with taking the remainder by an even modulus. */
  lemma HalveModulo(a: nat, p: nat)
    requires p > 0
    ensures (a % (2 * p)) / 2 == (a / 2) % p && (a % (2 * p)) % 2 == a % 2
    ensures a % (2 * p) == 2 * ((a / 2) % p) + a % 2
  {
    var q := a / (2 * p);
    var r := a % (2 * p);
    var t := p * q;
    assert a == 2 * t + r;
    assert a / 2 == t + r / 2 && a % 2 == r % 2;
    DivisionUnique(a / 2, p, q, r / 2);
  }

  /** Quotient and remainder are the only ones: x == p * q + r with 0 <= r < p. */
  lemma DivisionUnique(x: int, p: int, q: int, r: int)
    requires p > 0 && x == p * q + r && 0 <= r < p
    ensures x / p == q && x % p == r
  {
    var q' := x / p;
    var r' := x % p;
    assert p * (q - q') == r' - r;
    if q > q' {
      AtLeastOnce(p, q - q');
    } else if q < q' {
      AtLeastOnce(p, q' - q);
    }
  }

  /** A positive multiple of p is at least p. */
  lemma {:induction false} AtLeastOnce(p: int, d: int)
    requires p > 0 && d >= 1
    ensures p * d >= p
    decreases d
  {
    if d > 1 {
      AtLeastOnce(p, d - 1);
      assert p * d == p * (d - 1) + p;
    }
  }

  /** Bitwise or of two naturals. */
  function Or(a: nat, b: nat): nat
    decreases a + b
  {
    if a == 0 then b
    else if b == 0 then a
    else 2 * Or(a / 2, b / 2) + (if a % 2 == 1 || b % 2 == 1 then 1 else 0)
  }

  /** OR of two k-bit numbers has k bits. */
  lemma {:induction false} OrBits(a: nat, b: nat, k: nat)
    requires a < Pow2(k) && b < Pow2(k)
    ensures Or(a, b) < Pow2(k)
    decreases a + b
  {
    if a != 0 && b != 0 {
      OrBits(a / 2, b / 2, k - 1);
    }
  }

  /** Bitwise or of two words. */
  function OrWord(a: word, b: word): word
  {
    Pow2Of64();
    OrBits(a, b, 64);
    Or(a, b)
  }

  /** Setting bit 0 of an even number adds one; of an odd number, changes nothing. */
  lemma OrOne(x: nat)
    ensures Or(x, 1) == if x % 2 == 0 then x + 1 else x
  {
    if x != 0 {
      assert Or(x, 1) == 2 * Or(x / 2, 0) + 1;
    }
  }

  /** Setting bit 0 from the left operand: `1 | b`. */
  lemma OneOr(b: nat)
    ensures Or(1, b) == if b % 2 == 0 then b + 1 else b
  {
    if b != 0 {
      assert Or(1, b) == 2 * Or(0, b / 2) + 1;
    }
  }

  /** A right shift never increases a number. */
  lemma DivAtMost(a: nat, p: int)
    requires p > 0
    ensures a / p <= a
  {
    var d := a / p;
    if d >= 1 {
      AtLeastOnce(d, p);
      assert a == p * d + a % p;
    }
  }
}
