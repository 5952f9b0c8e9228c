/** Base64 as the engine implements it (src_server/encode.cpp): an encoder that always
    pads to a multiple of four characters, and a decoder driven by a 256-entry table
    built from a run-length encoded string, which rejects inputs whose length is zero
    or not a multiple of four and inputs with a character outside the alphabet before
    the trailing run of '='. Both work in place on caller-supplied buffers; the
    specification functions `Encode` and `Decode` follow section 4 of RFC 4648. */
module Base64 {
  import opened Wrappers
  import opened Bytes

  const Pad: char := '='

  const Upper: string := "ABCDEFGHIJKLMNOPQRSTUVWXYZ"
  const Lower: string := "abcdefghijklmnopqrstuvwxyz"
  const Digits: string := "0123456789"

  /** Character `k` of the alphabet of RFC 4648, section 4. */
  function AlphabetChar(k: int): char
    requires 0 <= k < 64
  {
    if k < 26 then ('A' as int + k) as char
    else if k < 52 then ('a' as int + k - 26) as char
    else if k < 62 then ('0' as int + k - 52) as char
    else if k == 62 then '+' else '/'
  }

  /** `AlphabetChar` spelled out: the encoder's string literal. */
  lemma AlphabetText()
    ensures seq(64, AlphabetChar) == Upper + Lower + Digits + "+/"
  {
    var a := seq(64, AlphabetChar);
    assert a[..26] == Upper;
    assert a[26..52] == Lower;
    assert a[52..62] == Digits;
    assert a[62..] == "+/";
    assert a == a[..26] + a[26..52] + a[52..62] + a[62..];
  }

  lemma UpperAt(k: int)
    requires 0 <= k < 26
    ensures Upper[k] as int == 'A' as int + k
  {}

  lemma LowerAt(k: int)
    requires 0 <= k < 26
    ensures Lower[k] as int == 'a' as int + k
  {}

  lemma DigitsAt(k: int)
    requires 0 <= k < 10
    ensures Digits[k] as int == '0' as int + k
  {}

  /** Reference value of a character: its index in the alphabet, -2 for the pad, -1 otherwise. */
  function Sextet(c: char): int
  {
    if 'A' <= c <= 'Z' then c as int - 'A' as int
    else if 'a' <= c <= 'z' then c as int - 'a' as int + 26
    else if '0' <= c <= '9' then c as int - '0' as int + 52
    else if c == '+' then 62
    else if c == '/' then 63
    else if c == Pad then -2
    else -1
  }

  /** The decoder's validity test: A-Z, a-z, the range '/'..'9', or '+'. */
  predicate IsBase64Char(c: char)
  {
    ('A' <= c <= 'Z') || ('a' <= c <= 'z') || ('/' <= c <= '9') || c == '+'
  }

  lemma SextetOfValid(c: char)
    requires IsBase64Char(c)
    ensures 0 <= Sextet(c) < 64 && c as int < 128
  {}

  lemma SextetOfAlphabet(k: int)
    requires 0 <= k < 64
    ensures IsBase64Char(AlphabetChar(k)) && Sextet(AlphabetChar(k)) == k
  {}

  // ---------------------------------------------------------------------------
  // The run-length encoded decoding table (the constexpr struct T of the decoder)
  // ---------------------------------------------------------------------------

  const RunsDigits: string := "opqrstuvwx"
  const RunsUpper: string := ";<=>?@ABCDEFGHIJKLMNOPQRST"
  const RunsLower: string := "UVWXYZ[\\]^_`abcdefghijklmn"

  const RunsHead: string := ":y:z" + RunsDigits + ":9:"
  const RunsTail: string := RunsUpper + ":" + RunsLower + ":"

  /** Successive table values, each offset by ';'. */
  const Runs: string := RunsHead + RunsTail
  /** The last index of each run; the cursor into `Runs` advances past index Bounds[c]. */
  const Bounds: string := "*+./" + Digits + "<=@" + Upper + "`" + Lower + "\0"

  /** The run cursor when the table builder reaches index `i`: the number of entries of
      `bounds` passed so far. It stops advancing once it runs off the end of `bounds`. */
  function Cursor(bounds: string, i: nat): (c: nat)
    ensures c <= i
    decreases i
  {
    if i == 0 then 0
    else
      var c := Cursor(bounds, i - 1);
      if c < |bounds| && bounds[c] as int == i - 1 then c + 1 else c
  }

  /** Closed form of `Cursor`: the number of runs that end before index `i`. */
  function RunIndex(i: int): int
  {
    if i <= 42 then 0
    else if i == 43 then 1
    else if i <= 46 then 2
    else if i == 47 then 3
    else if i <= 58 then 4 + (i - 48)
    else if i <= 60 then 14
    else if i == 61 then 15
    else if i <= 64 then 16
    else if i <= 91 then 17 + (i - 65)
    else if i <= 96 then 43
    else if i <= 123 then 44 + (i - 97)
    else 70
  }

  function BoundValue(c: int): int
  {
    if c == 0 then 42 else if c == 1 then 43 else if c == 2 then 46 else if c == 3 then 47
    else if c <= 13 then 48 + (c - 4)
    else if c == 14 then 60 else if c == 15 then 61 else if c == 16 then 64
    else if c <= 42 then 65 + (c - 17)
    else if c == 43 then 96
    else if c <= 69 then 97 + (c - 44)
    else 0
  }

  lemma BoundsAt(c: int)
    requires 0 <= c <= 70
    ensures |Bounds| == 71 && Bounds[c] as int == BoundValue(c)
  {
    if 4 <= c < 14 {
      DigitsAt(c - 4);
    } else if 17 <= c < 43 {
      UpperAt(c - 17);
    } else if 44 <= c < 70 {
      LowerAt(c - 44);
    }
  }

  function RunValue(c: int): int
  {
    if c == 0 || c == 2 || c == 14 || c == 16 || c == 43 || c == 70 then ':' as int
    else if c == 1 then 'y' as int else if c == 3 then 'z' as int
    else if c <= 13 then 'o' as int + (c - 4)
    else if c == 15 then '9' as int
    else if c <= 42 then ';' as int + (c - 17)
    else 'U' as int + (c - 44)
  }

  lemma RunsAt(c: int)
    requires 0 <= c <= 70
    ensures |Runs| == 71 && Runs[c] as int == RunValue(c)
  {
    RunsSplit(c);
    if c < 17 {
      RunsHeadAt(c);
    } else {
      RunsTailAt(c - 17);
    }
  }

  lemma RunsSplit(c: int)
    requires 0 <= c <= 70
    ensures |RunsHead| == 17 && |Runs| == 71
    ensures Runs[c] == if c < 17 then RunsHead[c] else RunsTail[c - 17]
  {}

  lemma RunsHeadAt(c: int)
    requires 0 <= c < 17
    ensures RunsHead[c] as int == RunValue(c)
  {
    if 4 <= c < 14 {
      RunsHeadDigits(c);
      assert RunsDigits[c - 4] as int == 'o' as int + (c - 4);
    } else {
      RunsHeadSingles();
    }
  }

  lemma RunsHeadDigits(c: int)
    requires 4 <= c < 14
    ensures RunsHead[c] == RunsDigits[c - 4]
  {}

  lemma RunsHeadSingles()
    ensures RunsHead[0] == ':' && RunsHead[1] == 'y' && RunsHead[2] == ':' && RunsHead[3] == 'z'
    ensures RunsHead[14] == ':' && RunsHead[15] == '9' && RunsHead[16] == ':'
  {}

  lemma RunsTailAt(k: int)
    requires 0 <= k <= 53
    ensures RunsTail[k] as int == RunValue(k + 17)
  {
    if k < 26 {
      RunsTailUpper(k);
      RunsUpperAt(k);
    } else if 27 <= k < 53 {
      RunsTailLower(k);
      RunsLowerAt(k - 27);
    } else {
      RunsTailSingles();
    }
  }

  lemma RunsTailUpper(k: int)
    requires 0 <= k < 26
    ensures RunsTail[k] == RunsUpper[k]
  {}

  lemma RunsTailLower(k: int)
    requires 27 <= k < 53
    ensures RunsTail[k] == RunsLower[k - 27]
  {}

  lemma RunsTailSingles()
    ensures RunsTail[26] == ':' && RunsTail[53] == ':'
  {}

  lemma RunsUpperAt(k: int)
    requires 0 <= k < 26
    ensures RunsUpper[k] as int == ';' as int + k
  {}

  lemma RunsLowerAt(k: int)
    requires 0 <= k < 26
    ensures RunsLower[k] as int == 'U' as int + k
  {}

  lemma CursorIs(i: nat)
    requires i <= 256
    ensures Cursor(Bounds, i) == RunIndex(i)
  {
    forall c | 0 <= c < 71
      ensures Bounds[c] as int == BoundValue(c)
    {
      BoundsAt(c);
    }
    BoundsAt(0);
    CursorOfBounds(Bounds, i);
  }

  /** `Cursor` over any string whose entries are the bounds of the runs. */
  lemma {:induction false} CursorOfBounds(b: string, i: nat)
    requires i <= 256
    requires |b| == 71 && forall c :: 0 <= c < 71 ==> b[c] as int == BoundValue(c)
    ensures Cursor(b, i) == RunIndex(i)
  {
    if i > 0 {
      CursorOfBounds(b, i - 1);
      RunIndexStep(i);
    }
  }

  lemma RunIndexStep(i: int)
    requires 0 < i <= 256
    ensures 0 <= RunIndex(i - 1) <= 70
    ensures RunIndex(i) == if BoundValue(RunIndex(i - 1)) == i - 1 then RunIndex(i - 1) + 1 else RunIndex(i - 1)
  {}

  /** Entry `i` of the run-length encoded table equals the reference value of character `i`. */
  lemma TableEntry(i: nat)
    requires i < 256
    ensures Cursor(Bounds, i) <= 70
    ensures Runs[Cursor(Bounds, i)] as int - ';' as int == Sextet(i as char)
  {
    CursorIs(i);
    RunsAt(RunIndex(i));
    RunOfIndex(i);
  }

  lemma RunOfIndex(i: nat)
    requires i < 256
    ensures RunValue(RunIndex(i)) - ';' as int == Sextet(i as char)
  {}

  /** Expands a run-length encoded table of 256 entries: entry i is runs[c] - ';' where c
      counts the entries of `bounds` passed before i. */
  method ExpandRuns(runs: string, bounds: string) returns (vals: array<int>)
    requires forall i :: 0 <= i < 256 ==> Cursor(bounds, i) < |runs|
    ensures fresh(vals) && vals.Length == 256
    ensures forall i :: 0 <= i < 256 ==> vals[i] == runs[Cursor(bounds, i)] as int - ';' as int
  {
    vals := new int[256];
    var c := 0;
    var i := 0;
    while i < 256
      invariant 0 <= i <= 256 && c == Cursor(bounds, i)
      invariant forall j :: 0 <= j < i ==> vals[j] == runs[Cursor(bounds, j)] as int - ';' as int
    {
      vals[i] := runs[c] as int - ';' as int;
      assert forall j :: 0 <= j <= i ==> vals[j] == runs[Cursor(bounds, j)] as int - ';' as int;
      if c < |bounds| && bounds[c] as int == i {
        c := c + 1;
      }
      i := i + 1;
    }
  }

  /** The decoder's table: the expansion of `Runs` and `Bounds`, which gives every
      character its reference value. */
  method BuildTable() returns (vals: array<int>)
    ensures fresh(vals) && vals.Length == 256
    ensures forall i :: 0 <= i < 256 ==> vals[i] == Sextet(i as char)
  {
    forall i | 0 <= i < 256
      ensures Cursor(Bounds, i) < |Runs|
    {
      TableEntry(i);
    }
    vals := ExpandRuns(Runs, Bounds);
    forall i | 0 <= i < 256
      ensures vals[i] == Sextet(i as char)
    {
      TableEntry(i);
    }
  }


  // ---------------------------------------------------------------------------
  // Encoding
  // ---------------------------------------------------------------------------

  /** base64encode_getRequiredSize. */
  function EncodedSize(n: nat): nat
  {
    ((n + 2) / 3) * 4
  }

  /** The four characters of one 3-byte group. The source writes these sextets with
      shifts and masks on `char`; for a byte, signed or not, they are the values below. */
  function Quad(b0: byte, b1: byte, b2: byte): (r: string)
    ensures |r| == 4
  {
    [AlphabetChar(b0 as int / 4), AlphabetChar((b0 as int % 4) * 16 + b1 as int / 16),
     AlphabetChar((b1 as int % 16) * 4 + b2 as int / 64), AlphabetChar(b2 as int % 64)]
  }

  /** The characters of the first `n` whole 3-byte groups of `s`. */
  function EncodeGroups(s: seq<byte>, n: nat): (r: string)
    requires 3 * n <= |s|
    ensures |r| == 4 * n
  {
    if n == 0 then []
    else
      var m := n - 1;
      EncodeGroups(s, m) + Quad(s[3 * m], s[3 * m + 1], s[3 * m + 2])
  }

  /** The padded last group for a tail of one or two bytes. */
  function EncodeTail(s: seq<byte>): (r: string)
    requires |s| < 3
    ensures |r| == (if |s| == 0 then 0 else 4)
    ensures |s| == 1 ==> r[2..] == [Pad, Pad] && IsBase64Char(r[0]) && IsBase64Char(r[1])
    ensures |s| == 2 ==> r[3] == Pad && IsBase64Char(r[0]) && IsBase64Char(r[1]) && IsBase64Char(r[2])
  {
    if |s| == 0 then []
    else if |s| == 1 then
      SextetOfAlphabet(s[0] as int / 4);
      SextetOfAlphabet((s[0] as int % 4) * 16);
      [AlphabetChar(s[0] as int / 4), AlphabetChar((s[0] as int % 4) * 16), Pad, Pad]
    else
      SextetOfAlphabet(s[0] as int / 4);
      SextetOfAlphabet((s[0] as int % 4) * 16 + s[1] as int / 16);
      SextetOfAlphabet((s[1] as int % 16) * 4);
      [AlphabetChar(s[0] as int / 4), AlphabetChar((s[0] as int % 4) * 16 + s[1] as int / 16),
       AlphabetChar((s[1] as int % 16) * 4), Pad]
  }

  /** The base64 text of `s` (section 4 of RFC 4648, with padding). */
  function Encode(s: seq<byte>): (r: string)
    ensures |r| == EncodedSize(|s|)
  {
    var n := |s| / 3;
    EncodedSizeGroups(|s|);
    EncodeGroups(s, n) + EncodeTail(s[3 * n..])
  }

  /** The required size counts the whole groups and one padded group for a remainder. */
  lemma EncodedSizeGroups(len: nat)
    ensures EncodedSize(len) == 4 * (len / 3) + (if len % 3 == 0 then 0 else 4)
  {
    assert len == 3 * (len / 3) + len % 3;
  }

  lemma {:induction false} EncodeGroupsChars(s: seq<byte>, n: nat)
    requires 3 * n <= |s|
    ensures AllBase64(EncodeGroups(s, n))
  {
    if n > 0 {
      var m := n - 1;
      var q := Quad(s[3 * m], s[3 * m + 1], s[3 * m + 2]);
      EncodeGroupsChars(s, m);
      QuadSextets(s[3 * m], s[3 * m + 1], s[3 * m + 2]);
      AllBase64Append(EncodeGroups(s, m), q);
      assert EncodeGroups(s, n) == EncodeGroups(s, m) + q;
    }
  }

  lemma AllBase64Append(x: string, y: string)
    requires AllBase64(x) && AllBase64(y)
    ensures AllBase64(x + y)
  {
    assert forall j :: |x| <= j < |x + y| ==> (x + y)[j] == y[j - |x|];
  }

  /** base64encode: writes Encode(src) into dst[..EncodedSize(|src|)] and nothing else. */
  method EncodeInto(dst: array<char>, src: seq<byte>)
    requires dst.Length >= EncodedSize(|src|)
    modifies dst
    ensures dst[..EncodedSize(|src|)] == Encode(src)
    ensures forall j :: EncodedSize(|src|) <= j < dst.Length ==> dst[j] == old(dst[j])
  {
    EncodedSizeGroups(|src|);
    ghost var n := |src| / 3;
    var i, dstIdx := EncodeLoop(dst, src, n);
    if i < |src| {
      WriteFour(dst, dstIdx, EncodeTail(src[i..]));
    }
  }

  /** The encoder's main loop: whole groups of three bytes while at least three remain;
      `n` is the number of whole groups. */
  method EncodeLoop(dst: array<char>, src: seq<byte>, ghost n: nat) returns (i: nat, dstIdx: nat)
    requires 3 * n <= |src| < 3 * n + 3 && 4 * n <= dst.Length
    modifies dst
    ensures i == 3 * n && dstIdx == 4 * n
    ensures dst[..dstIdx] == EncodeGroups(src, n)
    ensures forall j :: dstIdx <= j < dst.Length ==> dst[j] == old(dst[j])
  {
    ghost var g := 0;
    dstIdx, i := 0, 0;
    while i + 2 < |src|
      invariant 0 <= g <= n && i == 3 * g && dstIdx == 4 * g
      invariant dst[..dstIdx] == EncodeGroups(src, g)
      invariant forall j :: dstIdx <= j < dst.Length ==> dst[j] == old(dst[j])
    {
      EncodeGroupAt(dst, src, i, dstIdx, g);
      dstIdx, i, g := dstIdx + 4, i + 3, g + 1;
    }
  }

  /** One pass of the main loop: the three bytes from src[3 * g] become four characters at dst[4 * g]. */
  method EncodeGroupAt(dst: array<char>, src: seq<byte>, i: nat, dstIdx: nat, ghost g: nat)
    requires i == 3 * g && dstIdx == 4 * g && 3 * g + 3 <= |src| && 4 * g + 4 <= dst.Length
    requires dst[..4 * g] == EncodeGroups(src, g)
    modifies dst
    ensures dst[..4 * g + 4] == EncodeGroups(src, g + 1)
    ensures forall j :: 4 * g + 4 <= j < dst.Length ==> dst[j] == old(dst[j])
  {
    var four := Quad(src[i], src[i + 1], src[i + 2]);
    assert EncodeGroups(src, g + 1) == EncodeGroups(src, g) + four;
    WriteFour(dst, dstIdx, four);
  }

  /** Stores four characters at dst[at..at + 4]. */
  method WriteFour(dst: array<char>, at: nat, four: string)
    requires |four| == 4 && at + 4 <= dst.Length
    modifies dst
    ensures dst[..at + 4] == old(dst[..at]) + four
    ensures forall j :: at + 4 <= j < dst.Length ==> dst[j] == old(dst[j])
  {
    dst[at] := four[0];
    dst[at + 1] := four[1];
    dst[at + 2] := four[2];
    dst[at + 3] := four[3];
  }

  // ---------------------------------------------------------------------------
  // Decoding
  // ---------------------------------------------------------------------------

  /** base64decode_getRequiredSize. */
  function DecodedSize(n: nat): nat
  {
    (n / 4) * 3
  }

  /** `s` without its trailing run of pad characters (any number of them). */
  function TrimPad(s: string): (t: string)
    ensures |t| <= |s| && t == s[..|t|]
    ensures |t| > 0 ==> t[|t| - 1] != Pad
    ensures forall j :: |t| <= j < |s| ==> s[j] == Pad
    decreases |s|
  {
    if |s| > 0 && s[|s| - 1] == Pad then TrimPad(s[..|s| - 1]) else s
  }

  predicate AllBase64(t: string)
  {
    forall j :: 0 <= j < |t| ==> IsBase64Char(t[j])
  }

  /** The three output bytes a group of four characters may contribute. */
  function Byte0(a: char, b: char): byte
    requires IsBase64Char(a) && IsBase64Char(b)
  {
    SextetOfValid(a); SextetOfValid(b);
    ((Sextet(a) * 4 + Sextet(b) / 16) % 256) as byte
  }

  function Byte1(b: char, c: char): byte
    requires IsBase64Char(b) && IsBase64Char(c)
  {
    SextetOfValid(b); SextetOfValid(c);
    ((Sextet(b) * 16 + Sextet(c) / 4) % 256) as byte
  }

  function Byte2(c: char, d: char): byte
    requires IsBase64Char(c) && IsBase64Char(d)
  {
    SextetOfValid(c); SextetOfValid(d);
    ((Sextet(c) * 64 + Sextet(d)) % 256) as byte
  }

  /** The three bytes of one group of four characters. */
  function GroupBytes(a: char, b: char, c: char, d: char): (r: seq<byte>)
    requires IsBase64Char(a) && IsBase64Char(b) && IsBase64Char(c) && IsBase64Char(d)
    ensures |r| == 3
  {
    [Byte0(a, b), Byte1(b, c), Byte2(c, d)]
  }

  /** The bytes of the first `n` whole 4-character groups of `t`. */
  function DecodeGroups(t: string, n: nat): (r: seq<byte>)
    requires 4 * n <= |t| && AllBase64(t)
    ensures |r| == 3 * n
  {
    if n == 0 then []
    else
      var m := n - 1;
      DecodeGroups(t, m) + GroupBytes(t[4 * m], t[4 * m + 1], t[4 * m + 2], t[4 * m + 3])
  }

  /** The last group of one to four characters: a lone character contributes nothing. */
  function DecodeTail(u: string): (r: seq<byte>)
    requires 1 <= |u| <= 4 && AllBase64(u)
    ensures |r| == |u| - 1
  {
    if |u| == 4 then GroupBytes(u[0], u[1], u[2], u[3])
    else
      (if |u| > 1 then [Byte0(u[0], u[1])] else [])
      + (if |u| > 2 then [Byte1(u[1], u[2])] else [])
  }

  /** How many whole groups the decoder's main loop consumes from a trimmed text of `m`
      characters: it stops as soon as at most four characters remain. */
  function LoopGroups(m: nat): (g: nat)
    ensures m == 0 ==> g == 0
    ensures m > 0 ==> 4 * g < m <= 4 * g + 4
  {
    if m == 0 then 0 else (m - 1) / 4
  }

  /** The bytes of a trimmed, valid text. */
  function DecodeChars(t: string): (r: seq<byte>)
    requires AllBase64(t)
    ensures 4 * |r| <= 3 * |t|
    ensures |r| == 3 * |t| / 4
  {
    if |t| == 0 then []
    else
      var g := LoopGroups(|t|);
      DecodeGroups(t, g) + DecodeTail(t[4 * g..])
  }

  /** base64decode as a function: None where the decoder returns without writing. */
  function Decode(s: string): (r: Option<seq<byte>>)
    ensures r.Some? ==> |r.value| <= DecodedSize(|s|) && |r.value| == 3 * |TrimPad(s)| / 4
    ensures r.Some? <==> |s| > 0 && |s| % 4 == 0 && AllBase64(TrimPad(s))
  {
    if |s| == 0 || |s| % 4 != 0 then None
    else
      var t := TrimPad(s);
      if AllBase64(t) then Some(DecodeChars(t)) else None
  }

  /** base64decode: on acceptance writes Decode(src) at the front of dst; otherwise writes nothing. */
  method DecodeInto(dst: array<byte>, src: string)
    requires dst.Length >= DecodedSize(|src|)
    modifies dst
    ensures Decode(src).None? ==> dst[..] == old(dst[..])
    ensures Decode(src).Some? ==>
      var b := Decode(src).value;
      |b| <= dst.Length && dst[..|b|] == b && forall j :: |b| <= j < dst.Length ==> dst[j] == old(dst[j])
  {
    var bitTable := BuildTable();
    if |src| == 0 {
      return;
    }
    if |src| % 4 != 0 {
      return;
    }
    var srcBufLen := TrimmedLength(src);
    var isValid := AllValid(src, srcBufLen);
    if !isValid {
      return;
    }
    DecodeTrimmed(dst, bitTable, src, srcBufLen);
  }

  /** The length of `src` once its trailing pad characters are dropped. */
  method TrimmedLength(src: string) returns (n: nat)
    ensures n == |TrimPad(src)| && TrimPad(src) == src[..n]
  {
    n := |src|;
    assert src[..n] == src;
    while n > 0 && src[n - 1] == Pad
      invariant 0 <= n <= |src|
      invariant TrimPad(src) == TrimPad(src[..n])
    {
      TrimPadStep(src, n);
      n := n - 1;
    }
    TrimPadStop(src, n);
  }

  lemma TrimPadStep(s: string, n: nat)
    requires 0 < n <= |s| && s[n - 1] == Pad
    ensures TrimPad(s[..n]) == TrimPad(s[..n - 1])
  {
    assert s[..n][..n - 1] == s[..n - 1];
  }

  lemma TrimPadStop(s: string, n: nat)
    requires n <= |s| && (n == 0 || s[n - 1] != Pad)
    ensures TrimPad(s[..n]) == s[..n]
  {}

  /** Whether the first `n` characters of `src` all pass the validity test. */
  method AllValid(src: string, n: nat) returns (isValid: bool)
    requires n <= |src|
    ensures isValid == AllBase64(src[..n])
  {
    isValid := true;
    var i := 0;
    while i < n
      invariant 0 <= i <= n
      invariant isValid <==> forall j :: 0 <= j < i ==> IsBase64Char(src[j])
    {
      var c := src[i];
      isValid := isValid && (('A' <= c <= 'Z') || ('a' <= c <= 'z') || ('/' <= c <= '9') || c == '+');
      i := i + 1;
    }
  }

  /** The decoding loop and its tail, over the valid text src[..m]. */
  method DecodeTrimmed(dst: array<byte>, bitTable: array<int>, src: string, m: nat)
    requires bitTable.Length == 256 && forall i :: 0 <= i < 256 ==> bitTable[i] == Sextet(i as char)
    requires m <= |src| && |src| % 4 == 0 && |src| > 0 && AllBase64(src[..m])
    requires dst.Length >= DecodedSize(|src|)
    modifies dst
    ensures |DecodeChars(src[..m])| <= dst.Length
    ensures dst[..|DecodeChars(src[..m])|] == DecodeChars(src[..m])
    ensures forall j :: |DecodeChars(src[..m])| <= j < dst.Length ==> dst[j] == old(dst[j])
  {
    DecodedSizeBound(m, |src|);
    var srcIdx, dstIdx := DecodeLoop(dst, bitTable, src[..m]);
    if m > 0 {
      DecodeLast(dst, bitTable, src, m, srcIdx, dstIdx);
    }
  }

  /** The main loop over the trimmed text `t`: whole groups of four while more than four
      characters remain. */
  method DecodeLoop(dst: array<byte>, bitTable: array<int>, t: string)
      returns (srcIdx: nat, dstIdx: nat)
    requires bitTable.Length == 256 && forall i :: 0 <= i < 256 ==> bitTable[i] == Sextet(i as char)
    requires AllBase64(t) && 3 * LoopGroups(|t|) <= dst.Length
    modifies dst
    ensures srcIdx == 4 * LoopGroups(|t|) && dstIdx == 3 * LoopGroups(|t|)
    ensures dst[..dstIdx] == DecodeGroups(t, LoopGroups(|t|))
    ensures forall j :: dstIdx <= j < dst.Length ==> dst[j] == old(dst[j])
  {
    ghost var n := LoopGroups(|t|);
    ghost var g := 0;
    var srcBufLen := |t|;
    dstIdx, srcIdx := 0, 0;
    while srcBufLen > 4
      invariant 0 <= g <= n && srcIdx == 4 * g && dstIdx == 3 * g && srcBufLen == |t| - srcIdx
      invariant dst[..dstIdx] == DecodeGroups(t, g)
      invariant forall j :: dstIdx <= j < dst.Length ==> dst[j] == old(dst[j])
    {
      DecodeGroupAt(dst, bitTable, t, srcIdx, dstIdx, g);
      srcIdx, srcBufLen, dstIdx, g := srcIdx + 4, srcBufLen - 4, dstIdx + 3, g + 1;
    }
  }

  /** One pass of the main loop: the four characters from t[4 * g] become three bytes at dst[3 * g]. */
  method DecodeGroupAt(dst: array<byte>, bitTable: array<int>, t: string, srcIdx: nat, dstIdx: nat, ghost g: nat)
    requires srcIdx == 4 * g && dstIdx == 3 * g
    requires bitTable.Length == 256 && forall i :: 0 <= i < 256 ==> bitTable[i] == Sextet(i as char)
    requires AllBase64(t) && 4 * g + 4 <= |t| && 3 * g + 3 <= dst.Length
    requires dst[..3 * g] == DecodeGroups(t, g)
    modifies dst
    ensures dst[..3 * g + 3] == DecodeGroups(t, g + 1)
    ensures forall j :: 3 * g + 3 <= j < dst.Length ==> dst[j] == old(dst[j])
  {
    var a, b, c, d := t[srcIdx], t[srcIdx + 1], t[srcIdx + 2], t[srcIdx + 3];
    var three := [TableByte0(bitTable, a, b), TableByte1(bitTable, b, c), TableByte2(bitTable, c, d)];
    assert three == GroupBytes(a, b, c, d);
    assert DecodeGroups(t, g + 1) == DecodeGroups(t, g) + three;
    WriteBytes(dst, dstIdx, three);
  }

  /** The last group of one to four characters, at src[srcIdx..m]. */
  method DecodeLast(dst: array<byte>, bitTable: array<int>, src: string, m: nat, srcIdx: nat, dstIdx: nat)
    requires bitTable.Length == 256 && forall i :: 0 <= i < 256 ==> bitTable[i] == Sextet(i as char)
    requires 0 < m <= |src| && |src| % 4 == 0 && AllBase64(src[..m])
    requires srcIdx == 4 * LoopGroups(m) && dstIdx + (m - srcIdx - 1) <= dst.Length
    modifies dst
    ensures dst[..dstIdx + (m - srcIdx - 1)] == old(dst[..dstIdx]) + DecodeTail(src[..m][srcIdx..])
    ensures forall j :: dstIdx + (m - srcIdx - 1) <= j < dst.Length ==> dst[j] == old(dst[j])
  {
    var srcBufLen := m - srcIdx;
    ghost var u := src[..m][srcIdx..];
    assert srcIdx + 4 <= |src|;
    var a, b, c, d := src[srcIdx], src[srcIdx + 1], src[srcIdx + 2], src[srcIdx + 3];
    var tail: seq<byte> := [];
    if srcBufLen > 1 {
      assert a == u[0] && b == u[1];
      tail := tail + [TableByte0(bitTable, a, b)];
    }
    if srcBufLen > 2 {
      assert c == u[2];
      tail := tail + [TableByte1(bitTable, b, c)];
    }
    if srcBufLen > 3 {
      assert d == u[3];
      tail := tail + [TableByte2(bitTable, c, d)];
    }
    WriteBytes(dst, dstIdx, tail);
  }

  /** The output bytes as the decoder computes them from its table: (a << 2 | b >> 4),
      (b << 4 | c >> 2) and (c << 6 | d), truncated to a byte. The shifted operands have no
      bits in common, so each OR is a sum. */
  function TableByte0(bitTable: array<int>, a: char, b: char): (r: byte)
    requires bitTable.Length == 256 && forall i :: 0 <= i < 256 ==> bitTable[i] == Sextet(i as char)
    requires IsBase64Char(a) && IsBase64Char(b)
    reads bitTable
    ensures r == Byte0(a, b)
  {
    SextetOfValid(a); SextetOfValid(b);
    ((bitTable[a as int] * 4 + bitTable[b as int] / 16) % 256) as byte
  }

  function TableByte1(bitTable: array<int>, b: char, c: char): (r: byte)
    requires bitTable.Length == 256 && forall i :: 0 <= i < 256 ==> bitTable[i] == Sextet(i as char)
    requires IsBase64Char(b) && IsBase64Char(c)
    reads bitTable
    ensures r == Byte1(b, c)
  {
    SextetOfValid(b); SextetOfValid(c);
    ((bitTable[b as int] * 16 + bitTable[c as int] / 4) % 256) as byte
  }

  function TableByte2(bitTable: array<int>, c: char, d: char): (r: byte)
    requires bitTable.Length == 256 && forall i :: 0 <= i < 256 ==> bitTable[i] == Sextet(i as char)
    requires IsBase64Char(c) && IsBase64Char(d)
    reads bitTable
    ensures r == Byte2(c, d)
  {
    SextetOfValid(c); SextetOfValid(d);
    ((bitTable[c as int] * 64 + bitTable[d as int]) % 256) as byte
  }

  /** Stores `bytes` at dst[at..at + |bytes|]. */
  method WriteBytes(dst: array<byte>, at: nat, bytes: seq<byte>)
    requires at + |bytes| <= dst.Length
    modifies dst
    ensures dst[..at + |bytes|] == old(dst[..at]) + bytes
    ensures forall j :: at + |bytes| <= j < dst.Length ==> dst[j] == old(dst[j])
  {
    var k := 0;
    while k < |bytes|
      invariant 0 <= k <= |bytes|
      invariant dst[..at + k] == old(dst[..at]) + bytes[..k]
      invariant forall j :: at + k <= j < dst.Length ==> dst[j] == old(dst[j])
    {
      dst[at + k] := bytes[k];
      k := k + 1;
    }
  }

  /** The decoded bytes of a trimmed text fit the size the caller allocates. */
  lemma DecodedSizeBound(m: nat, n: nat)
    requires m <= n && n % 4 == 0 && n > 0
    ensures 3 * LoopGroups(m) <= DecodedSize(n)
    ensures m == 0 || 3 * LoopGroups(m) + (m - 4 * LoopGroups(m) - 1) <= DecodedSize(n)
  {
    assert 4 * DecodedSize(n) == 3 * n;
  }

  // ---------------------------------------------------------------------------
  // Properties
  // ---------------------------------------------------------------------------

  /** The four characters of a group decode back to its three bytes. */
  lemma QuadDecodes(x0: byte, x1: byte, x2: byte)
    ensures AllBase64(Quad(x0, x1, x2))
    ensures var q := Quad(x0, x1, x2); GroupBytes(q[0], q[1], q[2], q[3]) == [x0, x1, x2]
  {
    QuadBytes(x0, x1, x2);
  }

  /** Each of the three byte formulas recovers its byte from the encoder's characters. */
  lemma QuadBytes(x0: byte, x1: byte, x2: byte)
    ensures AllBase64(Quad(x0, x1, x2))
    ensures Byte0(Quad(x0, x1, x2)[0], Quad(x0, x1, x2)[1]) == x0
    ensures Byte1(Quad(x0, x1, x2)[1], Quad(x0, x1, x2)[2]) == x1
    ensures Byte2(Quad(x0, x1, x2)[2], Quad(x0, x1, x2)[3]) == x2
  {
    QuadSextets(x0, x1, x2);
    SextetArithmetic(x0 as int, x1 as int, x2 as int);
  }

  lemma QuadSextets(x0: byte, x1: byte, x2: byte)
    ensures AllBase64(Quad(x0, x1, x2))
    ensures Sextet(Quad(x0, x1, x2)[0]) == x0 as int / 4
    ensures Sextet(Quad(x0, x1, x2)[1]) == (x0 as int % 4) * 16 + x1 as int / 16
    ensures Sextet(Quad(x0, x1, x2)[2]) == (x1 as int % 16) * 4 + x2 as int / 64
    ensures Sextet(Quad(x0, x1, x2)[3]) == x2 as int % 64
  {
    SextetOfAlphabet(x0 as int / 4);
    SextetOfAlphabet((x0 as int % 4) * 16 + x1 as int / 16);
    SextetOfAlphabet((x1 as int % 16) * 4 + x2 as int / 64);
    SextetOfAlphabet(x2 as int % 64);
  }

  /** The shifts of the decoder undo the shifts of the encoder. */
  lemma SextetArithmetic(x0: int, x1: int, x2: int)
    requires 0 <= x0 < 256 && 0 <= x1 < 256 && 0 <= x2 < 256
    ensures ((x0 / 4) * 4 + ((x0 % 4) * 16 + x1 / 16) / 16) % 256 == x0
    ensures (((x0 % 4) * 16 + x1 / 16) * 16 + ((x1 % 16) * 4 + x2 / 64) / 4) % 256 == x1
    ensures (((x1 % 16) * 4 + x2 / 64) * 64 + x2 % 64) % 256 == x2
  {
    FirstByteShifts(x0, x1);
    SecondByteShifts(x0, x1, x2);
    ThirdByteShifts(x1, x2);
  }

  lemma FirstByteShifts(x0: int, x1: int)
    requires 0 <= x0 < 256 && 0 <= x1 < 256
    ensures ((x0 / 4) * 4 + ((x0 % 4) * 16 + x1 / 16) / 16) % 256 == x0
  {
    assert ((x0 % 4) * 16 + x1 / 16) / 16 == x0 % 4;
  }

  lemma SecondByteShifts(x0: int, x1: int, x2: int)
    requires 0 <= x0 < 256 && 0 <= x1 < 256 && 0 <= x2 < 256
    ensures (((x0 % 4) * 16 + x1 / 16) * 16 + ((x1 % 16) * 4 + x2 / 64) / 4) % 256 == x1
  {
    assert ((x1 % 16) * 4 + x2 / 64) / 4 == x1 % 16;
    assert ((x0 % 4) * 16 + x1 / 16) * 16 + x1 % 16 == (x0 % 4) * 256 + x1;
  }

  lemma ThirdByteShifts(x1: int, x2: int)
    requires 0 <= x1 < 256 && 0 <= x2 < 256
    ensures (((x1 % 16) * 4 + x2 / 64) * 64 + x2 % 64) % 256 == x2
  {
    assert ((x1 % 16) * 4 + x2 / 64) * 64 + x2 % 64 == (x1 % 16) * 256 + x2;
  }

  /** The first `n` groups decode the same in any two texts that agree on them. */
  lemma {:induction false} DecodeGroupsPrefix(t: string, u: string, n: nat)
    requires 4 * n <= |t| && 4 * n <= |u| && AllBase64(t) && AllBase64(u)
    requires forall j :: 0 <= j < 4 * n ==> t[j] == u[j]
    ensures DecodeGroups(t, n) == DecodeGroups(u, n)
  {
    if n > 0 {
      DecodeGroupsPrefix(t, u, n - 1);
    }
  }

  /** The whole groups of any text decode back to its bytes. */
  lemma {:induction false} DecodeEncodeGroups(s: seq<byte>, n: nat)
    requires 3 * n <= |s|
    ensures AllBase64(EncodeGroups(s, n)) && DecodeGroups(EncodeGroups(s, n), n) == s[..3 * n]
  {
    if n > 0 {
      var m := n - 1;
      var x0, x1, x2 := s[3 * m], s[3 * m + 1], s[3 * m + 2];
      DecodeEncodeGroups(s, m);
      QuadDecodes(x0, x1, x2);
      DecodeGroupsSnoc(EncodeGroups(s, m), Quad(x0, x1, x2), m, s[..3 * m], [x0, x1, x2]);
      TakeSnocThree(s, 3 * m);
      assert EncodeGroups(s, n) == EncodeGroups(s, m) + Quad(x0, x1, x2);
      assert DecodeGroups(EncodeGroups(s, m) + Quad(x0, x1, x2), m + 1) == s[..3 * m] + [x0, x1, x2];
      assert s[..3 * m] + [x0, x1, x2] == s[..3 * n];
    }
  }

  /** Decoding a text of `n` whole groups followed by one more group. */
  lemma DecodeGroupsSnoc(x: string, q: string, n: nat, p: seq<byte>, b: seq<byte>)
    requires |x| == 4 * n && |q| == 4 && AllBase64(x) && AllBase64(q)
    requires DecodeGroups(x, n) == p && GroupBytes(q[0], q[1], q[2], q[3]) == b
    ensures AllBase64(x + q) && DecodeGroups(x + q, n + 1) == p + b
  {
    AllBase64Append(x, q);
    DecodeGroupsPrefix(x + q, x, n);
    assert (x + q)[4 * n] == q[0] && (x + q)[4 * n + 1] == q[1];
    assert (x + q)[4 * n + 2] == q[2] && (x + q)[4 * n + 3] == q[3];
  }

  lemma TakeSnocThree(s: seq<byte>, k: nat)
    requires k + 3 <= |s|
    ensures s[..k + 3] == s[..k] + [s[k], s[k + 1], s[k + 2]]
  {}

  /** Dropping a run of pads that follows a text not ending in a pad. */
  lemma {:induction false} TrimPadAppend(x: string, pads: string)
    requires |x| > 0 && x[|x| - 1] != Pad
    requires forall j :: 0 <= j < |pads| ==> pads[j] == Pad
    ensures TrimPad(x + pads) == x
    decreases |pads|
  {
    if |pads| > 0 {
      assert (x + pads)[..|x + pads| - 1] == x + pads[..|pads| - 1];
      TrimPadAppend(x, pads[..|pads| - 1]);
    }
  }

  /** Decoding undoes encoding for every non-empty input (section 4 of RFC 4648). */
  lemma DecodeEncode(s: seq<byte>)
    requires |s| > 0
    ensures Decode(Encode(s)) == Some(s)
  {
    var n := |s| / 3;
    assert Encode(s) == EncodeGroups(s, n) + EncodeTail(s[3 * n..]);
    if |s| == 3 * n {
      assert Encode(s) == EncodeGroups(s, n) by { assert s[3 * n..] == []; }
      DecodeEncodeWhole(s, n);
    } else {
      DecodeEncodePadded(s, n);
    }
  }

  /** Round trip when the length is a multiple of three: no pads, the last group is the tail. */
  lemma DecodeEncodeWhole(s: seq<byte>, n: nat)
    requires n > 0 && |s| == 3 * n
    ensures Decode(EncodeGroups(s, n)) == Some(s)
  {
    var e := EncodeGroups(s, n);
    DecodeEncodeGroups(s, n);
    assert s[..3 * n] == s;
    assert |e| == 4 * (n - 1) + 4 && IsBase64Char(e[|e| - 1]);
    DecodeCharsWhole(e, n);
    NoPadToTrim(e);
    DecodeAccepts(e, e, n - 1);
  }

  /** On whole groups the decoder's last pass does what its main loop does. */
  lemma DecodeCharsWhole(t: string, n: nat)
    requires n > 0 && |t| == 4 * n && AllBase64(t)
    ensures DecodeChars(t) == DecodeGroups(t, n)
  {
    var u := t[4 * n - 4..];
    assert u[0] == t[4 * n - 4] && u[1] == t[4 * n - 3] && u[2] == t[4 * n - 2] && u[3] == t[4 * n - 1];
  }

  /** Round trip when one or two bytes follow the `n` whole groups and the text ends in pads. */
  lemma DecodeEncodePadded(s: seq<byte>, n: nat)
    requires 3 * n < |s| < 3 * n + 3
    ensures Decode(EncodeGroups(s, n) + EncodeTail(s[3 * n..])) == Some(s)
  {
    var k := 3 * n;
    var x := EncodeGroups(s, n);
    var x0 := s[k];
    var x1: byte := if k + 1 < |s| then s[k + 1] else 0;
    var q := Quad(x0, x1, 0);
    var used := |s| - k + 1;
    var u := q[..used];
    var pads := if used == 2 then [Pad, Pad] else [Pad];
    var tail: seq<byte> := if used == 2 then [x0] else [x0, x1];
    assert EncodeTail(s[k..]) == u + pads by { EncodeTailIsQuadPrefix(s[k..], x0, x1); }
    assert x + (u + pads) == (x + u) + pads;
    assert AllBase64(x) && DecodeGroups(x, n) == s[..k] by { DecodeEncodeGroups(s, n); }
    assert AllBase64(u) && DecodeTail(u) == tail by { QuadPrefixDecodes(x0, x1, used); }
    assert DecodeChars(x + u) == s[..k] + tail by { DecodeCharsAppend(x, u, n); }
    PaddedAccepts(x, u, pads, n);
    assert s[..k] + tail == s by { SplitTail(s, k); }
  }

  /** The two or three leading characters of a padded group decode to the bytes they carry. */
  lemma QuadPrefixDecodes(x0: byte, x1: byte, used: nat)
    requires 2 <= used <= 3
    ensures AllBase64(Quad(x0, x1, 0)[..used])
    ensures DecodeTail(Quad(x0, x1, 0)[..used]) == if used == 2 then [x0] else [x0, x1]
  {
    QuadBytes(x0, x1, 0);
    var q := Quad(x0, x1, 0);
    var u := q[..used];
    assert u[0] == q[0] && u[1] == q[1];
    assert used == 3 ==> u[2] == q[2];
  }

  /** A valid text followed by the pads that complete its last group is accepted. */
  lemma PaddedAccepts(x: string, u: string, pads: string, n: nat)
    requires AllBase64(x) && AllBase64(u) && |u| > 0 && |x| == 4 * n
    requires pads == [Pad] || pads == [Pad, Pad]
    requires |u| + |pads| == 4
    ensures Decode((x + u) + pads) == Some(DecodeChars(x + u))
  {
    AllBase64Append(x, u);
    assert (x + u)[|x + u| - 1] == u[|u| - 1];
    TrimPadAppend(x + u, pads);
    DecodeAccepts((x + u) + pads, x + u, n);
  }

  lemma SplitTail(s: seq<byte>, k: nat)
    requires k < |s| <= k + 2
    ensures s == s[..k] + (if |s| == k + 1 then [s[k]] else [s[k], s[k + 1]])
  {
    if |s| == k + 1 {
      assert s == s[..k] + [s[k]];
    } else {
      assert s == s[..k] + [s[k], s[k + 1]];
    }
  }

  /** A text the decoder accepts: its length is a positive multiple of four (here 4 * k + 4)
      and it is valid once trimmed. */
  lemma DecodeAccepts(e: string, t: string, k: nat)
    requires |e| == 4 * k + 4 && TrimPad(e) == t && AllBase64(t)
    ensures Decode(e) == Some(DecodeChars(t))
  {
    GroupMultiple(|e|, k);
  }

  lemma GroupMultiple(len: nat, k: nat)
    requires len == 4 * k + 4
    ensures len > 0 && len % 4 == 0
  {}

  /** The padded tail is the front of a group whose missing bytes are zero. */
  lemma EncodeTailIsQuadPrefix(r: seq<byte>, x0: byte, x1: byte)
    requires 1 <= |r| <= 2 && r[0] == x0 && (|r| == 2 ==> r[1] == x1) && (|r| == 1 ==> x1 == 0)
    ensures EncodeTail(r) == Quad(x0, x1, 0)[..|r| + 1] + (if |r| == 1 then [Pad, Pad] else [Pad])
  {}

  /** A text that does not end in a pad is left alone by the trimming loop. */
  lemma NoPadToTrim(x: string)
    requires |x| > 0 && x[|x| - 1] != Pad
    ensures TrimPad(x) == x
  {}

  /** The decoder on `n` whole groups followed by a last group of one to four characters. */
  lemma DecodeCharsAppend(x: string, u: string, n: nat)
    requires |x| == 4 * n && 1 <= |u| <= 4 && AllBase64(x) && AllBase64(u)
    ensures AllBase64(x + u)
    ensures DecodeChars(x + u) == DecodeGroups(x, n) + DecodeTail(u)
  {
    AllBase64Append(x, u);
    assert LoopGroups(|x + u|) == n;
    assert (x + u)[4 * n..] == u;
    DecodeGroupsPrefix(x + u, x, n);
  }

  /** The empty input encodes to nothing, and nothing is not accepted by the decoder. */
  lemma EmptyRoundTrip()
    ensures Encode([]) == [] && Decode([]) == None
  {}

  /** The decoder accepts any number of trailing pads, beyond the one or two that RFC 4648
      allows: "QQ======" decodes to the byte 'A'. */
  lemma DecodeAcceptsExtraPadding(s: string)
    requires s == "QQ======"
    ensures Decode(s) == Some([65])
  {
    var t := s[..2];
    assert t == "QQ" && s == t + s[2..];
    TrimPadAppend(t, s[2..]);
    assert Sextet(t[0]) == 16 && Sextet(t[1]) == 16;
    assert AllBase64(t);
    assert DecodeTail(t) == [65];
    assert t[0..] == t;
    assert DecodeChars(t) == [65];
    DecodeAccepts(s, t, 1);
  }

  /** A text of pads alone decodes to nothing and is accepted. */
  lemma DecodeAcceptsOnlyPadding(s: string)
    requires s == "===="
    ensures Decode(s) == Some([])
  {
    assert TrimPad(s) == [];
  }

  /** The twelve leading bytes of a text make four whole groups. */
  lemma EncodeTwelve(s: seq<byte>)
    requires |s| >= 12
    ensures EncodeGroups(s, 4) == Quad(s[0], s[1], s[2]) + Quad(s[3], s[4], s[5]) + Quad(s[6], s[7], s[8])
                                 + Quad(s[9], s[10], s[11])
  {
    assert EncodeGroups(s, 1) == Quad(s[0], s[1], s[2]);
    assert EncodeGroups(s, 2) == EncodeGroups(s, 1) + Quad(s[3], s[4], s[5]);
    assert EncodeGroups(s, 3) == EncodeGroups(s, 2) + Quad(s[6], s[7], s[8]);
  }

  /** The groups of "login:passwor" as the encoder's alphabet spells them. */
  lemma LoginQuads()
    ensures Quad(108, 111, 103) == "bG9n" && Quad(105, 110, 58) == "aW46"
    ensures Quad(112, 97, 115) == "cGFz" && Quad(115, 119, 111) == "c3dv"
    ensures EncodeTail([114]) == "cg=="
  {}

  /** The compile-time check of the encoder: the thirteen bytes of "login:passwor" encode to
      "bG9naW46cGFzc3dvcg==", twenty characters (written here group by group). */
  lemma EncodeLoginExample(s: seq<byte>)
    requires s == [108, 111, 103, 105, 110, 58, 112, 97, 115, 115, 119, 111, 114]
    ensures EncodedSize(|s|) == 20
    ensures Encode(s) == "bG9n" + "aW46" + "cGFz" + "c3dv" + "cg=="
  {
    assert Encode(s) == EncodeGroups(s, 4) + EncodeTail(s[12..]);
    EncodeTwelve(s);
    LoginQuads();
    assert s[12..] == [114];
  }
}
