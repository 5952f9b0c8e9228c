/** The word-at-a-time variant of FNV-1a in src_server/encode.hpp. The input is consumed in
    blocks of eight bytes, each added up into one 64-bit word that is XORed into the
    accumulator before one multiplication by the FNV prime; the remaining zero to seven
    bytes are XORed in by a fall-through switch in the reverse byte order, and the result
    is multiplied by the prime once more. Bytes are read through a signed `char`, so a byte
    of 0x80 or more is sign-extended to 64 bits before it is shifted and added.

    Words are integers below 2^64 and every wrap-around of the unsigned 64-bit arithmetic
    is written out as a remainder; XOR is defined bit by bit. */
module Fnv {
  import opened Bytes
  import opened Bits

  const Basis: word := 0xcbf2_9ce4_8422_2325
  const Prime: word := 0x0000_0100_0000_01b3

  /** The byte count as the source sees it: the length cast to a 32-bit unsigned. */
  const LengthModulus: int := 0x1_0000_0000

  /** A byte read as a signed char and widened to 64 bits: 0x80 and above are sign-extended. */
  function Widen(b: byte): word
  {
    if b < 0x80 then b as int else b as int + WordModulus - 0x100
  }

  /** 256^k: the factor of a left shift by 8k bits. */
  function ByteShift(k: nat): nat
    requires k < 8
  {
    if k == 0 then 0x1
    else if k == 1 then 0x100
    else if k == 2 then 0x1_0000
    else if k == 3 then 0x100_0000
    else if k == 4 then 0x1_0000_0000
    else if k == 5 then 0x100_0000_0000
    else if k == 6 then 0x1_0000_0000_0000
    else 0x100_0000_0000_0000
  }

  /** x << 8k in 64-bit unsigned arithmetic. */
  function Shl(x: word, k: nat): word
    requires k < 8
  {
    (x * ByteShift(k)) % WordModulus
  }

  /** The word of one eight-byte block b0 .. b7: byte bk shifted left by 8k, all added with
      wrap-around. */
  function BlockWord(b0: byte, b1: byte, b2: byte, b3: byte, b4: byte, b5: byte, b6: byte, b7: byte): word
  {
    (Shl(Widen(b7), 7) + Shl(Widen(b6), 6) + Shl(Widen(b5), 5) + Shl(Widen(b4), 4)
     + Shl(Widen(b3), 3) + Shl(Widen(b2), 2) + Shl(Widen(b1), 1) + Widen(b0)) % WordModulus
  }

  /** The word of the block at s[i..i + 8]. */
  function BlockAt(s: seq<byte>, i: nat): word
    requires i + 8 <= |s|
  {
    BlockWord(s[i], s[i + 1], s[i + 2], s[i + 3], s[i + 4], s[i + 5], s[i + 6], s[i + 7])
  }

  /** The multiplication by the prime, after each block and once at the end. */
  function Finish(h: word): word
  {
    (h * Prime) % WordModulus
  }

  /** One round of the block loop: XOR the word in, then multiply by the prime. */
  function Round(h: word, w: word): word
  {
    Finish(XorWord(h, w))
  }

  /** The accumulator after the first `n` blocks. */
  function Blocks(s: seq<byte>, n: nat): word
    requires 8 * n <= |s|
  {
    if n == 0 then Basis
    else
      var m := n - 1;
      Round(Blocks(s, m), BlockAt(s, 8 * m))
  }

  /** What case k of the switch XORs in for byte b: b widened, shifted left by 8 * (k - 1). */
  function Lane(b: byte, k: nat): word
    requires 1 <= k <= 7
  {
    Shl(Widen(b), k - 1)
  }

  /** Case k of the switch on len % 8, reached when len % 8 >= k. */
  function Case(h: word, s: seq<byte>, len: nat, k: nat): word
    requires 1 <= k <= 7 && len <= |s|
  {
    if len % 8 >= k then XorWord(h, Lane(s[len - k], k)) else h
  }

  /** The whole fall-through switch: cases 7 down to 1 in turn. */
  function Switch(h: word, s: seq<byte>, len: nat): word
    requires len <= |s|
  {
    var h7 := Case(h, s, len, 7);
    var h6 := Case(h7, s, len, 6);
    var h5 := Case(h6, s, len, 5);
    var h4 := Case(h5, s, len, 4);
    var h3 := Case(h4, s, len, 3);
    var h2 := Case(h3, s, len, 2);
    Case(h2, s, len, 1)
  }

  /** FNV1a(str, len_) over the bytes `s`: len_ is cast to a 32-bit unsigned `len`, and only
      the first len bytes are read, so the caller must supply that many. */
  function Fnv1a(s: seq<byte>, lenArg: int): word
    requires lenArg % LengthModulus <= |s|
  {
    var len := lenArg % LengthModulus;
    Finish(Switch(Blocks(s, len / 8), s, len))
  }

  /** The standard byte-at-a-time FNV-1a (zero-extended bytes), for comparison. */
  function StandardFnv1a(s: seq<byte>): word
  {
    if |s| == 0 then Basis
    else Round(StandardFnv1a(s[..|s| - 1]), s[|s| - 1] as int)
  }

  /** FNV1a: the block loop over len & ~7 bytes, the fall-through switch on the remaining
      len % 8 bytes, then the final multiplication. */
  method Hash(str: seq<byte>, lenArg: int) returns (h: word)
    requires lenArg % LengthModulus <= |str|
    ensures h == Fnv1a(str, lenArg)
  {
    var len := lenArg % LengthModulus;
    h := HashBlocks(str, len);
    h := SwitchTail(h, str, len);
    h := Finish(h);
  }

  /** The block loop of FNV1a: i runs over the multiples of 8 below len & ~7. */
  method HashBlocks(str: seq<byte>, len: nat) returns (h: word)
    requires len <= |str|
    ensures h == Blocks(str, len / 8)
  {
    var end := len - len % 8;
    ghost var q := len / 8;
    BlockBound(len);
    h := Basis;
    var i := 0;
    ghost var n := 0;
    while i < end
      invariant 0 <= n <= q && i == 8 * n && h == Blocks(str, n)
    {
      h := Round(h, BlockAt(str, i));
      i, n := i + 8, n + 1;
    }
  }

  /** `len & ~7` is the largest multiple of 8 not above `len`. */
  lemma BlockBound(len: nat)
    ensures len - len % 8 == 8 * (len / 8) <= len
  {
  }

  /** The fall-through switch of FNV1a on len % 8. */
  method SwitchTail(h0: word, str: seq<byte>, len: nat) returns (h: word)
    requires len <= |str|
    ensures h == Switch(h0, str, len)
  {
    var r := len % 8;
    h := h0;
    if r >= 7 { h := XorWord(h, Lane(str[len - 7], 7)); }
    if r >= 6 { h := XorWord(h, Lane(str[len - 6], 6)); }
    if r >= 5 { h := XorWord(h, Lane(str[len - 5], 5)); }
    if r >= 4 { h := XorWord(h, Lane(str[len - 4], 4)); }
    if r >= 3 { h := XorWord(h, Lane(str[len - 3], 3)); }
    if r >= 2 { h := XorWord(h, Lane(str[len - 2], 2)); }
    if r >= 1 { h := XorWord(h, Lane(str[len - 1], 1)); }
  }

  /** Empty input hashes to basis * prime; so does a length that wraps to 0 in 32 bits. */
  lemma EmptyHash(s: seq<byte>, lenArg: int)
    requires lenArg % LengthModulus == 0
    ensures Fnv1a(s, lenArg) == 0xaf63_bd4c_8601_b7df
  {
  }

  /** The first 8n bytes alone decide the blocks. */
  lemma {:induction false} BlocksPrefix(s: seq<byte>, t: seq<byte>, n: nat)
    requires 8 * n <= |s| && 8 * n <= |t|
    requires forall j :: 0 <= j < 8 * n ==> s[j] == t[j]
    ensures Blocks(s, n) == Blocks(t, n)
  {
    if n > 0 {
      var m := n - 1;
      BlocksPrefix(s, t, m);
      var i := 8 * m;
      assert BlockAt(s, i) == BlockAt(t, i) by {
        assert s[i] == t[i] && s[i + 1] == t[i + 1] && s[i + 2] == t[i + 2] && s[i + 3] == t[i + 3];
        assert s[i + 4] == t[i + 4] && s[i + 5] == t[i + 5] && s[i + 6] == t[i + 6] && s[i + 7] == t[i + 7];
      }
      assert Blocks(s, n) == Round(Blocks(s, m), BlockAt(s, i));
      assert Blocks(t, n) == Round(Blocks(t, m), BlockAt(t, i));
    }
  }

  /** The switch reads only bytes below len. */
  lemma SwitchPrefix(h: word, s: seq<byte>, t: seq<byte>, len: nat)
    requires len <= |s| && len <= |t|
    requires forall j :: 0 <= j < len ==> s[j] == t[j]
    ensures Switch(h, s, len) == Switch(h, t, len)
  {
    var r := len % 8;
    assert r >= 1 ==> s[len - 1] == t[len - 1];
    assert r >= 2 ==> s[len - 2] == t[len - 2];
    assert r >= 3 ==> s[len - 3] == t[len - 3];
    assert r >= 4 ==> s[len - 4] == t[len - 4];
    assert r >= 5 ==> s[len - 5] == t[len - 5];
    assert r >= 6 ==> s[len - 6] == t[len - 6];
    assert r >= 7 ==> s[len - 7] == t[len - 7];
  }

  /** The hash reads only the first len bytes: bytes past them never change it. */
  lemma HashPrefix(s: seq<byte>, t: seq<byte>, lenArg: int)
    requires lenArg % LengthModulus <= |s| && lenArg % LengthModulus <= |t|
    requires s[..lenArg % LengthModulus] == t[..lenArg % LengthModulus]
    ensures Fnv1a(s, lenArg) == Fnv1a(t, lenArg)
  {
    var len := lenArg % LengthModulus;
    assert forall j :: 0 <= j < len ==> s[j] == s[..len][j] && t[j] == t[..len][j];
    BlocksPrefix(s, t, len / 8);
    SwitchPrefix(Blocks(s, len / 8), s, t, len);
  }

  /** A one-byte input is one XOR, of the sign-extended byte, and one multiplication. */
  lemma OneByteHash(s: seq<byte>)
    requires |s| == 1
    ensures Fnv1a(s, 1) == Round(Basis, Widen(s[0]))
  {
    assert Lane(s[0], 1) == Widen(s[0]);
  }

  /** Standard FNV-1a on one byte is one round with the zero-extended byte. */
  lemma OneByteStandard(s: seq<byte>)
    requires |s| == 1
    ensures StandardFnv1a(s) == Round(Basis, s[0] as int)
  {
    assert s[..0] == [];
  }

  /** A single ASCII byte hashes as in standard FNV-1a. */
  lemma AsciiByteAgrees(s: seq<byte>)
    requires |s| == 1 && s[0] < 0x80
    ensures Fnv1a(s, 1) == StandardFnv1a(s)
  {
    OneByteHash(s);
    OneByteStandard(s);
  }

  /** A byte of 0x80 or more is sign-extended, so a single such byte never hashes as in
      standard FNV-1a: the variant is not byte-compatible with it. */
  lemma HighByteDiffers(s: seq<byte>)
    requires |s| == 1 && s[0] >= 0x80
    ensures Fnv1a(s, 1) != StandardFnv1a(s)
  {
    OneByteHash(s);
    OneByteStandard(s);
    RoundSeparates(Basis, Widen(s[0]), s[0] as int);
  }

  /** Different words XORed into the same accumulator give different rounds. */
  lemma RoundSeparates(h: word, x: word, y: word)
    requires x != y
    ensures Round(h, x) != Round(h, y)
  {
    FinishUndone(XorWord(h, x));
    FinishUndone(XorWord(h, y));
    XorSymmetric(h, x);
    XorSymmetric(h, y);
    XorCancel(x, h);
    XorCancel(y, h);
  }

  /** The multiplicative inverse of the FNV prime modulo 2^64. */
  const PrimeInverse: word := 0xce96_5057_aff6_957b

  /** Multiplication by the prime loses nothing: multiplying by its inverse undoes it. */
  lemma FinishUndone(h: word)
    ensures (Finish(h) * PrimeInverse) % WordModulus == h
  {
    var q := (h * Prime) / WordModulus;
    var f := Finish(h);
    assert h * Prime == q * WordModulus + f;
    assert Prime * PrimeInverse == 1 + 887285111055 * WordModulus;
    assert f * PrimeInverse == h * (Prime * PrimeInverse) - q * PrimeInverse * WordModulus;
    assert f * PrimeInverse == h + (h * 887285111055 - q * PrimeInverse) * WordModulus;
    DivisionUnique(f * PrimeInverse, WordModulus, h * 887285111055 - q * PrimeInverse, h);
  }

  /** A whole number of blocks still gets the final multiplication: eight bytes are two
      multiplications by the prime. */
  lemma OneBlockHash(s: seq<byte>)
    requires |s| == 8
    ensures Fnv1a(s, 8) == Finish(Round(Basis, BlockAt(s, 0)))
  {
    assert Blocks(s, 1) == Round(Blocks(s, 0), BlockAt(s, 0));
  }

  /** Up to seven zero bytes XOR in nothing, so they collide with the empty input. */
  lemma ZeroTailCollides(s: seq<byte>)
    requires |s| < 8 && forall j :: 0 <= j < |s| ==> s[j] == 0
    ensures Fnv1a(s, |s|) == Fnv1a([], 0)
  {
    var len := |s|;
    assert len % LengthModulus == len && len / 8 == 0 && len % 8 == len;
    var h7 := Case(Basis, s, len, 7);
    var h6 := Case(h7, s, len, 6);
    var h5 := Case(h6, s, len, 5);
    var h4 := Case(h5, s, len, 4);
    var h3 := Case(h4, s, len, 3);
    var h2 := Case(h3, s, len, 2);
    CaseOfZero(Basis, s, len, 7);
    CaseOfZero(h7, s, len, 6);
    CaseOfZero(h6, s, len, 5);
    CaseOfZero(h5, s, len, 4);
    CaseOfZero(h4, s, len, 3);
    CaseOfZero(h3, s, len, 2);
    CaseOfZero(h2, s, len, 1);
  }

  /** Case k of the switch leaves h alone when the byte it would read is zero. */
  lemma CaseOfZero(h: word, s: seq<byte>, len: nat, k: nat)
    requires 1 <= k <= 7 && len <= |s|
    requires len % 8 >= k ==> s[len - k] == 0
    ensures Case(h, s, len, k) == h
  {
    if len % 8 >= k {
      assert Lane(s[len - k], k) == 0;
      XorZero(h);
    }
  }

  /** Standard FNV-1a tells two zero bytes from the empty input. */
  lemma StandardSeesZeros(s: seq<byte>)
    requires s == [0, 0]
    ensures StandardFnv1a(s) != StandardFnv1a([])
  {
    assert s[..1] == [0] && s[..1][..0] == [];
    XorZero(Basis);
    XorZero(Finish(Basis));
  }

  /** Sign extension keeps the byte in bits 0 to 7 and fills bits 8 to 63 with its top bit. */
  lemma WidenSignExtends(b: byte)
    ensures Widen(b) % 0x100 == b as int
    ensures Widen(b) / 0x100 == if b < 0x80 then 0 else 0xff_ffff_ffff_ffff
  {
  }

  /** In a block the first byte lands in bits 0 to 7, whatever its sign. */
  lemma BlockFirstByteLow(b0: byte, b1: byte, b2: byte, b3: byte, b4: byte, b5: byte, b6: byte, b7: byte)
    ensures BlockWord(b0, b1, b2, b3, b4, b5, b6, b7) % 0x100 == b0 as int
  {
    var s7, s6, s5, s4 := Shl(Widen(b7), 7), Shl(Widen(b6), 6), Shl(Widen(b5), 5), Shl(Widen(b4), 4);
    var s3, s2, s1 := Shl(Widen(b3), 3), Shl(Widen(b2), 2), Shl(Widen(b1), 1);
    ShlKeepsLowByteClear(Widen(b7), 7);
    ShlKeepsLowByteClear(Widen(b6), 6);
    ShlKeepsLowByteClear(Widen(b5), 5);
    ShlKeepsLowByteClear(Widen(b4), 4);
    ShlKeepsLowByteClear(Widen(b3), 3);
    ShlKeepsLowByteClear(Widen(b2), 2);
    ShlKeepsLowByteClear(Widen(b1), 1);
    var c := s7 / 0x100 + s6 / 0x100 + s5 / 0x100 + s4 / 0x100 + s3 / 0x100 + s2 / 0x100 + s1 / 0x100;
    var x := s7 + s6 + s5 + s4 + s3 + s2 + s1 + Widen(b0);
    assert x == 0x100 * c + Widen(b0);
    WidenSignExtends(b0);
    assert x == 0x100 * (c + Widen(b0) / 0x100) + b0 as int;
    DivisionUnique(x, 0x100, c + Widen(b0) / 0x100, b0 as int);
    LowByteOfWrap(x);
  }

  /** Wrapping around 2^64 leaves bits 0 to 7 alone. */
  lemma LowByteOfWrap(x: nat)
    ensures (x % WordModulus) % 0x100 == x % 0x100
  {
    var d := x / WordModulus;
    var r := x % WordModulus;
    assert x == 0x100 * (d * 0x100_0000_0000_0000 + r / 0x100) + r % 0x100;
    DivisionUnique(x, 0x100, d * 0x100_0000_0000_0000 + r / 0x100, r % 0x100);
  }

  /** A shift by at least eight bits leaves bits 0 to 7 clear. */
  lemma ShlKeepsLowByteClear(x: word, k: nat)
    requires 1 <= k < 8
    ensures Shl(x, k) % 0x100 == 0
  {
    var y := x * ByteShift(k);
    var e := ByteShift(k) / 0x100;
    assert ByteShift(k) == 0x100 * e;
    var d := y / WordModulus;
    assert Shl(x, k) == 0x100 * (x * e - d * 0x100_0000_0000_0000);
  }

  /** In the tail the last byte lands in bits 0 to 7: the reverse of the block order. */
  lemma TailLastByteLow(h: word, s: seq<byte>, len: nat)
    requires len <= |s| && len % 8 != 0
    ensures Switch(h, s, len) % 0x100 == Xor(h % 0x100, s[len - 1] as int)
  {
    var h7 := Case(h, s, len, 7);
    var h6 := Case(h7, s, len, 6);
    var h5 := Case(h6, s, len, 5);
    var h4 := Case(h5, s, len, 4);
    var h3 := Case(h4, s, len, 3);
    var h2 := Case(h3, s, len, 2);
    CaseKeepsLowByte(h, s, len, 7);
    CaseKeepsLowByte(h7, s, len, 6);
    CaseKeepsLowByte(h6, s, len, 5);
    CaseKeepsLowByte(h5, s, len, 4);
    CaseKeepsLowByte(h4, s, len, 3);
    CaseKeepsLowByte(h3, s, len, 2);
    var w := Widen(s[len - 1]);
    LaneOne(s[len - 1]);
    assert Case(h2, s, len, 1) == Xor(h2, w);
    LowByteOfXor(h2, w);
    WidenSignExtends(s[len - 1]);
  }

  /** Bits 0 to 7 of an XOR are the XOR of bits 0 to 7. */
  lemma LowByteOfXor(a: nat, b: nat)
    ensures Xor(a, b) % 0x100 == Xor(a % 0x100, b % 0x100)
  {
    XorLowBits(a, b, 8);
    Pow2Plus8(0);
  }

  /** Case 1 shifts by nothing. */
  lemma LaneOne(b: byte)
    ensures Lane(b, 1) == Widen(b)
  {
  }

  /** Cases 2 to 7 of the switch leave bits 0 to 7 alone. */
  lemma CaseKeepsLowByte(h: word, s: seq<byte>, len: nat, k: nat)
    requires 2 <= k <= 7 && len <= |s|
    ensures Case(h, s, len, k) % 0x100 == h % 0x100
  {
    if len % 8 >= k {
      var lane := Lane(s[len - k], k);
      ShlKeepsLowByteClear(Widen(s[len - k]), k - 1);
      LowByteOfXor(h, lane);
      XorZero(h % 0x100);
    }
  }

  /** Within an ASCII block the sum has no carries: byte k sits in bits 8k to 8k + 7, so the
      block word is the bytes read as a little-endian number. */
  lemma AsciiBlockLanes(b0: byte, b1: byte, b2: byte, b3: byte, b4: byte, b5: byte, b6: byte, b7: byte)
    requires b0 < 0x80 && b1 < 0x80 && b2 < 0x80 && b3 < 0x80
    requires b4 < 0x80 && b5 < 0x80 && b6 < 0x80 && b7 < 0x80
    ensures BlockWord(b0, b1, b2, b3, b4, b5, b6, b7)
         == b0 as int + 0x100 * b1 as int + 0x1_0000 * b2 as int + 0x100_0000 * b3 as int
            + 0x1_0000_0000 * b4 as int + 0x100_0000_0000 * b5 as int
            + 0x1_0000_0000_0000 * b6 as int + 0x100_0000_0000_0000 * b7 as int
  {
    AsciiShl(b1, 1);
    AsciiShl(b2, 2);
    AsciiShl(b3, 3);
    AsciiShl(b4, 4);
    AsciiShl(b5, 5);
    AsciiShl(b6, 6);
    AsciiShl(b7, 7);
    var sum := Shl(Widen(b7), 7) + Shl(Widen(b6), 6) + Shl(Widen(b5), 5) + Shl(Widen(b4), 4)
               + Shl(Widen(b3), 3) + Shl(Widen(b2), 2) + Shl(Widen(b1), 1) + Widen(b0);
    assert sum < 0x80 * 0x101_0101_0101_0101;
    assert BlockWord(b0, b1, b2, b3, b4, b5, b6, b7) == sum % WordModulus;
  }

  /** An ASCII byte shifted by up to 56 bits does not wrap. */
  lemma AsciiShl(b: byte, k: nat)
    requires b < 0x80 && k < 8
    ensures Shl(Widen(b), k) == b as int * ByteShift(k)
  {
    assert ByteShift(k) <= 0x100_0000_0000_0000;
    assert b as int * ByteShift(k) <= 0x7f * 0x100_0000_0000_0000;
  }

  /** A negative char sign-extends over every higher lane of its block. */
  lemma SignExtendedBlock()
    ensures BlockWord(0x80, 0, 0, 0, 0, 0, 0, 0) == 0xffff_ffff_ffff_ff80
  {
  }
}
