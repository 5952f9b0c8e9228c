/** Text primitives the engine relies on: ASCII lower-casing (boost::to_lower in the
    classic locale), first/last occurrence search with std::string_view semantics,
    the size_t wrap-around of `npos + k`, and decimal and lower-case hexadecimal
    formatting of sizes. Strings are sequences of `char`, one char per byte. */
module Text {
  import opened Wrappers

  /** std::string::npos: the largest size_t value on a 64-bit platform. */
  const NPOS: nat := 0xFFFF_FFFF_FFFF_FFFF
  /** 2^64: size_t arithmetic wraps modulo this value. */
  const SIZE_MOD: nat := 0x1_0000_0000_0000_0000

  const CRLF: string := "\r\n"

  /** size_t addition, with wrap-around. */
  function SizeAdd(a: nat, b: nat): (r: nat)
    requires a < SIZE_MOD && b < SIZE_MOD
    ensures r < SIZE_MOD
    ensures a + b < SIZE_MOD ==> r == a + b
    ensures a + b >= SIZE_MOD ==> r == a + b - SIZE_MOD
  {
    (a + b) % SIZE_MOD
  }

  /** ASCII lower-casing of one character; every other character is unchanged. */
  function Lower(c: char): char
  {
    if 'A' <= c <= 'Z' then (c as int - 'A' as int + 'a' as int) as char else c
  }

  /** boost::algorithm::to_lower over a whole string. */
  function ToLower(s: string): (r: string)
    ensures |r| == |s|
    ensures forall i :: 0 <= i < |s| ==> r[i] == Lower(s[i])
    ensures forall i :: 0 <= i < |r| ==> !('A' <= r[i] <= 'Z')
  {
    seq(|s|, i requires 0 <= i < |s| => Lower(s[i]))
  }

  /** True when `needle` occurs in `hay` starting at index `j`. */
  predicate OccursAt(hay: string, needle: string, j: int)
  {
    0 <= j && j + |needle| <= |hay| && hay[j..j + |needle|] == needle
  }

  /** First occurrence of `needle` in `hay` at an index >= `from`. */
  function FindFrom(hay: string, needle: string, from: nat): (r: Option<nat>)
    ensures r.Some? ==> from <= r.value && OccursAt(hay, needle, r.value)
    ensures r.Some? ==> forall j :: from <= j < r.value ==> !OccursAt(hay, needle, j)
    ensures r.None? ==> forall j :: from <= j ==> !OccursAt(hay, needle, j)
    decreases |hay| - from
  {
    if from + |needle| > |hay| then None
    else if hay[from..from + |needle|] == needle then Some(from)
    else FindFrom(hay, needle, from + 1)
  }

  /** string_view::find: the first occurrence, or None where C++ yields npos. */
  function Find(hay: string, needle: string): (r: Option<nat>)
    ensures r.Some? ==> OccursAt(hay, needle, r.value)
    ensures r.Some? ==> forall j :: 0 <= j < r.value ==> !OccursAt(hay, needle, j)
    ensures r.None? <==> forall j :: !OccursAt(hay, needle, j)
  {
    FindFrom(hay, needle, 0)
  }

  /** The size_t that string_view::find returns: the index, or NPOS. */
  function FindIndex(hay: string, needle: string): (r: nat)
    requires |hay| < NPOS
    ensures r < SIZE_MOD
    ensures r == NPOS <==> Find(hay, needle).None?
    ensures r != NPOS ==> OccursAt(hay, needle, r)
    ensures Find(hay, needle).Some? ==> r == Find(hay, needle).value
  {
    match Find(hay, needle)
    case Some(i) => i
    case None => NPOS
  }

  /** boost::algorithm::contains. */
  predicate Contains(hay: string, needle: string)
  {
    Find(hay, needle).Some?
  }

  lemma ContainsIff(hay: string, needle: string)
    ensures Contains(hay, needle) <==> exists j :: OccursAt(hay, needle, j)
  {
    if !Contains(hay, needle) {
      assert forall j :: !OccursAt(hay, needle, j);
    }
  }

  /** The first index of character `c` in `s`, as string_view::find does for a one-character needle. */
  function FindChar(s: string, c: char): (r: Option<nat>)
    ensures r.Some? ==> r.value < |s| && s[r.value] == c
    ensures r.Some? ==> forall j :: 0 <= j < r.value ==> s[j] != c
    ensures r.None? <==> c !in s
  {
    if |s| == 0 then None
    else if s[0] == c then Some(0)
    else match FindChar(s[1..], c)
      case Some(i) => Some(i + 1)
      case None => None
  }

  /** The last index of character `c` in `s`, as string::rfind does for one character. */
  function RFind(s: string, c: char): (r: Option<nat>)
    ensures r.Some? ==> r.value < |s| && s[r.value] == c
    ensures r.Some? ==> forall j :: r.value < j < |s| ==> s[j] != c
    ensures r.None? <==> forall j :: 0 <= j < |s| ==> s[j] != c
  {
    if |s| == 0 then None
    else if s[|s| - 1] == c then Some(|s| - 1)
    else RFind(s[..|s| - 1], c)
  }

  predicate IsDigit(c: char)
  {
    '0' <= c <= '9'
  }

  predicate IsLowerHexDigit(c: char)
  {
    '0' <= c <= '9' || 'a' <= c <= 'f'
  }

  function DigitChar(d: nat): (c: char)
    requires d < 10
    ensures IsDigit(c) && c as int - '0' as int == d
  {
    ('0' as int + d) as char
  }

  function DigitValue(c: char): (d: nat)
    requires IsDigit(c)
    ensures d < 10
  {
    c as int - '0' as int
  }

  function HexDigitChar(d: nat): (c: char)
    requires d < 16
    ensures IsLowerHexDigit(c) && HexDigitValue(c) == d
  {
    if d < 10 then ('0' as int + d) as char else ('a' as int + d - 10) as char
  }

  function HexDigitValue(c: char): nat
    requires IsLowerHexDigit(c)
  {
    if IsDigit(c) then c as int - '0' as int else c as int - 'a' as int + 10
  }

  /** Decimal rendering of a size (boost::lexical_cast<std::string>). */
  function Decimal(n: nat): (s: string)
    ensures |s| > 0 && forall c :: c in s ==> IsDigit(c)
    ensures s[0] == '0' ==> n == 0
    decreases n
  {
    if n < 10 then [DigitChar(n)] else Decimal(n / 10) + [DigitChar(n % 10)]
  }

  /** The value of a run of decimal digits. */
  function DecimalValue(s: string): nat
    requires forall c :: c in s ==> IsDigit(c)
    decreases |s|
  {
    if |s| == 0 then 0
    else DecimalValue(s[..|s| - 1]) * 10 + DigitValue(s[|s| - 1])
  }

  lemma {:induction false} DecimalRoundTrip(n: nat)
    ensures DecimalValue(Decimal(n)) == n
    decreases n
  {
    var s := Decimal(n);
    if n >= 10 {
      DecimalRoundTrip(n / 10);
      assert s[..|s| - 1] == Decimal(n / 10);
    }
  }

  /** Lower-case hexadecimal rendering without leading zeros (`std::hex << size`). */
  function Hex(n: nat): (s: string)
    ensures |s| > 0 && forall c :: c in s ==> IsLowerHexDigit(c)
    ensures s[0] == '0' ==> n == 0
    decreases n
  {
    if n < 16 then [HexDigitChar(n)] else Hex(n / 16) + [HexDigitChar(n % 16)]
  }

  /** The value of a run of lower-case hexadecimal digits. */
  function HexValue(s: string): nat
    requires forall c :: c in s ==> IsLowerHexDigit(c)
    decreases |s|
  {
    if |s| == 0 then 0
    else HexValue(s[..|s| - 1]) * 16 + HexDigitValue(s[|s| - 1])
  }

  lemma {:induction false} HexRoundTrip(n: nat)
    ensures HexValue(Hex(n)) == n
    decreases n
  {
    var s := Hex(n);
    if n >= 16 {
      HexRoundTrip(n / 16);
      assert s[..|s| - 1] == Hex(n / 16);
    }
  }
}
