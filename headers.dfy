/**
 * The request-header helpers of the inbound HTTP engine
 * (src_server/tcp_server.cpp): the keep-alive and close directive scans, the
 * hand-written Content-Length reader, the URL handed to the page lookup, the
 * integer timeout formulas, and `clean`, the HTML-escaping transform.
 *
 * A char is one byte, 0 to 255; `char` is taken to be signed, as on x86-64,
 * so bytes from 0x80 up compare below ' '.
 */
module Headers {
  import opened Wrappers
  import opened Text

  /** TcpServer::max_concurrent_connections. */
  const MaxConcurrentConnections: nat := 1000

  // ---------------------------------------------------------------------------
  // Directive scans (on the lower-cased header)

  /** `checkKeepalive`: the header mentions `keep-alive` anywhere. */
  predicate CheckKeepalive(header: string)
  {
    Contains(header, "keep-alive")
  }

  /** `checkClose`: the header holds `connection; close`, with a semicolon, so the usual
      `connection: close` does not count. */
  predicate CheckClose(header: string)
  {
    Contains(header, "connection; close")
  }

  /** The standard spelling of the close directive is not recognised on its own. */
  lemma StandardCloseMissed()
    ensures !CheckClose("connection: close\r\n\r")
  {
    var h := "connection: close\r\n\r";
    assert ';' !in h;
    forall j | 0 <= j
      ensures !OccursAt(h, "connection; close", j)
    {
      if j + 17 <= |h| {
        assert h[j..j + 17][10] == h[j + 10];
      }
    }
    ContainsIff(h, "connection; close");
  }

  // ---------------------------------------------------------------------------
  // Content-Length

  const ContentLengthKey: string := "content-length:"

  /** The value of the run of digits starting at index `i`, stopping before the header's
      last byte. */
  function DigitsFrom(header: string, i: nat): (v: nat)
    requires i < |header|
    decreases |header| - i
  {
    if i == |header| - 1 || !IsDigit(header[i]) then 0
    else DigitsValue(header, i, DigitsEnd(header, i))
  }

  /** Where the digit scan from `i` stops. */
  function DigitsEnd(header: string, i: nat): (e: nat)
    requires i < |header|
    ensures i <= e < |header|
    ensures e == |header| - 1 || !IsDigit(header[e])
    ensures forall k :: i <= k < e ==> IsDigit(header[k])
    decreases |header| - i
  {
    if i == |header| - 1 || !IsDigit(header[i]) then i else DigitsEnd(header, i + 1)
  }

  /** The decimal value of `header[i..e]`, all digits. */
  function DigitsValue(header: string, i: nat, e: nat): nat
    requires i <= e <= |header|
    requires forall k :: i <= k < e ==> IsDigit(header[k])
    decreases e - i
  {
    if e == i then 0 else DigitsValue(header, i, e - 1) * 10 + DigitValue(header[e - 1])
  }

  /** The index the digit scan starts at: 16 past the key, where a missing key (npos)
      wraps around to 15. */
  function ScanStart(header: string): (s: nat)
    requires |header| < NPOS
    ensures Find(header, ContentLengthKey).None? ==> s == 15
    ensures Find(header, ContentLengthKey).Some? ==> s == Find(header, ContentLengthKey).value + 16
  {
    SizeAdd(FindIndex(header, ContentLengthKey), 16)
  }

  /** `checkContentLength`: 0 when the key is at index 0, otherwise the digits from 16
      past the key. A start beyond the header reads memory past it (undefined in C++)
      and is read as 0; a start just past the last byte reads the terminating NUL. */
  function CheckContentLength(header: string): (len: nat)
    requires |header| < NPOS
    ensures Find(header, ContentLengthKey) == Some(0) ==> len == 0
  {
    if Find(header, ContentLengthKey) == Some(0) then 0
    else
      var start := ScanStart(header);
      if start < |header| then DigitsFrom(header, start) else 0
  }

  /** `content-length: N` followed by a non-digit reads back as N, wherever the key is
      (except at index 0). */
  lemma ContentLengthReadsNumber(header: string, j: nat, n: nat)
    requires |header| < NPOS
    requires j > 0 && Find(header, ContentLengthKey) == Some(j)
    requires j + 16 + |Decimal(n)| < |header|
    requires header[j + 16..j + 16 + |Decimal(n)|] == Decimal(n)
    requires !IsDigit(header[j + 16 + |Decimal(n)|])
    ensures CheckContentLength(header) == n
  {
    assert CheckContentLength(header) == DigitsFrom(header, j + 16) by {
      assert ScanStart(header) == j + 16;
    }
    DigitsFromNumber(header, j + 16, n);
  }

  /** The decimal digits of `n` followed by a non-digit read back as `n`. */
  lemma DigitsFromNumber(header: string, i: nat, n: nat)
    requires i + |Decimal(n)| < |header|
    requires header[i..i + |Decimal(n)|] == Decimal(n)
    requires !IsDigit(header[i + |Decimal(n)|])
    ensures DigitsFrom(header, i) == n
  {
    var d := Decimal(n);
    var e := i + |d|;
    assert forall k :: i <= k < e ==> IsDigit(header[k]) by {
      forall k | i <= k < e ensures IsDigit(header[k]) {
        assert header[k] == d[k - i];
        assert d[k - i] in d;
      }
    }
    assert DigitsFrom(header, i) == DigitsValue(header, i, e) by {
      assert IsDigit(header[i]);
      DigitsEndIs(header, i, e);
    }
    assert DigitsValue(header, i, e) == n by {
      DigitsValueIs(header, i, e, d);
      DecimalRoundTrip(n);
    }
  }

  lemma {:induction false} DigitsEndIs(header: string, i: nat, e: nat)
    requires i <= e < |header|
    requires forall k :: i <= k < e ==> IsDigit(header[k])
    requires e == |header| - 1 || !IsDigit(header[e])
    ensures DigitsEnd(header, i) == e
    decreases e - i
  {
    if i < e {
      DigitsEndIs(header, i + 1, e);
    }
  }

  lemma {:induction false} DigitsValueIs(header: string, i: nat, e: nat, d: string)
    requires i <= e <= |header| && header[i..e] == d
    requires forall c :: c in d ==> IsDigit(c)
    ensures forall k :: i <= k < e ==> IsDigit(header[k])
    ensures DigitsValue(header, i, e) == DecimalValue(d)
    decreases e - i
  {
    assert forall k :: i <= k < e ==> header[k] == d[k - i] && d[k - i] in d;
    if e > i {
      DigitsValueIs(header, i, e - 1, d[..|d| - 1]);
      assert header[e - 1] == d[|d| - 1];
    }
  }

  /** Without the key the scan starts at index 15, whatever is there. */
  lemma MissingKeyScansFrom15(header: string)
    requires 15 < |header| < NPOS && !Contains(header, ContentLengthKey)
    ensures CheckContentLength(header) == DigitsFrom(header, 15)
  {
  }

  // ---------------------------------------------------------------------------
  // The URL given to the page lookup

  const UrlBase: string := "http://a.bc/"

  /** `findRequestedPage`'s text: after the method (one more byte skipped when byte 4 is
      not '/'), from just after the first '/' for `find("HTTP") - 2` bytes, in size_t
      arithmetic and clamped to the end, after `http://a.bc/`. */
  function ExtractUrl(header: string): (u: string)
    requires 4 < |header| < NPOS
    ensures |UrlBase| <= |u| && u[..|UrlBase|] == UrlBase
  {
    var offset := if header[4] != '/' then 5 else 4;
    var url := header[offset..];
    var from := SizeAdd(FindIndex(url, "/"), 1);
    var count := (FindIndex(url, "HTTP") - 2) % SIZE_MOD;
    var rest := url[from..];
    UrlBase + (if count < |rest| then rest[..count] else rest)
  }

  /** For a request line `GET /path HTTP...` (or a four-letter method) the page lookup
      sees the path after the base. */
  lemma ExtractUrlOfRequestLine(verb: string, path: string, tail: string)
    requires |verb| == 3 || |verb| == 4
    requires '/' !in path && 'H' !in path
    requires |verb + " /" + path + " HTTP" + tail| < NPOS
    ensures ExtractUrl(verb + " /" + path + " HTTP" + tail) == UrlBase + path
  {
    var h := verb + " /" + path + " HTTP" + tail;
    var url := "/" + path + " HTTP" + tail;
    RequestLineTarget(verb, path, tail);
    FindHttpAfterPath(path, tail);
    assert Find(url, "/") == Some(0) by {
      assert OccursAt(url, "/", 0);
    }
    assert (if h[4] != '/' then 5 else 4) == |verb| + 1;
    ExtractUrlAt(h, url, |path|);
    assert url[1..|path| + 1] == path;
  }

  /** After the method and its space, a request line is its target and the rest. */
  lemma RequestLineTarget(verb: string, path: string, tail: string)
    ensures (verb + " /" + path + " HTTP" + tail)[|verb|] == ' '
    ensures (verb + " /" + path + " HTTP" + tail)[|verb| + 1..] == "/" + path + " HTTP" + tail
  {
    var h := verb + " /" + path + " HTTP" + tail;
    var url := "/" + path + " HTTP" + tail;
    assert |h| == |verb| + 1 + |url|;
    forall i | 0 <= i < |url|
      ensures h[|verb| + 1 + i] == url[i]
    {
      if i == 0 {
      } else if i <= |path| {
        assert url[i] == path[i - 1] && h[|verb| + 1 + i] == path[i - 1];
      } else if i < |path| + 6 {
      } else {
        assert url[i] == tail[i - |path| - 6] && h[|verb| + 1 + i] == tail[i - |path| - 6];
      }
    }
  }

  /** The page lookup sees the `n` characters after the first '/' of the URL part when
      "HTTP" starts two characters after them. */
  lemma ExtractUrlAt(h: string, url: string, n: nat)
    requires 4 < |h| < NPOS && h[(if h[4] != '/' then 5 else 4)..] == url
    requires Find(url, "/") == Some(0) && Find(url, "HTTP") == Some(n + 2) && n + 1 <= |url|
    ensures ExtractUrl(h) == UrlBase + url[1..n + 1]
  {
    assert FindIndex(url, "/") == 0 && FindIndex(url, "HTTP") == n + 2;
    assert SizeAdd(0, 1) == 1;
    assert n % SIZE_MOD == n;
    assert url[1..][..n] == url[1..n + 1];
  }

  lemma FindHttpAfterPath(path: string, tail: string)
    requires 'H' !in path
    ensures Find("/" + path + " HTTP" + tail, "HTTP") == Some(|path| + 2)
  {
    var url := "/" + path + " HTTP" + tail;
    var p := |path| + 2;
    assert OccursAt(url, "HTTP", p);
    forall j | 0 <= j < p
      ensures !OccursAt(url, "HTTP", j)
    {
      assert url[j] != 'H' by {
        if 1 <= j <= |path| {
          assert url[j] == path[j - 1];
        }
      }
      if j + 4 <= |url| {
        assert url[j..j + 4][0] == url[j];
      }
    }
  }

  // ---------------------------------------------------------------------------
  // Timeouts, in seconds; `connected` is the number of open connections

  /** The expiry set when a GET turns on keep-alive: min(90, 1000/(n+1) + 15). */
  function GetKeepaliveTimeout(connected: nat): nat
  {
    Min(90, Share(connected) + 15)
  }

  /** The expiry set when a POST turns on keep-alive: min(120, 1000/(n+1) + 15). */
  function PostKeepaliveTimeout(connected: nat): nat
  {
    Min(120, Share(connected) + 15)
  }

  /** The expiry before each read: (min(60, 1000/(n+1) + 5) * standby) + 1. */
  function ReadTimeout(connected: nat, standby: nat): nat
  {
    Min(60, Share(connected) + 5) * standby + 1
  }

  /** The expiry before each write: min(10, 1000/(n+1) + 7). */
  function WriteTimeout(connected: nat): nat
  {
    Min(10, Share(connected) + 7)
  }

  /** The per-connection share of the connection budget: 1000/(n+1). */
  function Share(connected: nat): nat
  {
    MaxConcurrentConnections / (connected + 1)
  }

  function Min(a: nat, b: nat): nat
  {
    if a < b then a else b
  }

  /** Each timeout lies between its floor (the added constant) and its cap, and never
      grows as more connections are open. */
  lemma TimeoutBounds(connected: nat, more: nat)
    requires connected <= more
    ensures 15 <= GetKeepaliveTimeout(more) <= GetKeepaliveTimeout(connected) <= 90
    ensures 15 <= PostKeepaliveTimeout(more) <= PostKeepaliveTimeout(connected) <= 120
    ensures 7 <= WriteTimeout(more) <= WriteTimeout(connected) <= 10
    ensures ReadTimeout(connected, 0) == 1
    ensures 6 <= ReadTimeout(more, 1) <= ReadTimeout(connected, 1) <= 61
  {
    ShareMonotone(connected, more);
    assert ReadTimeout(more, 1) == Min(60, Share(more) + 5) + 1;
    assert ReadTimeout(connected, 1) == Min(60, Share(connected) + 5) + 1;
  }

  /** More open connections never give a larger share. */
  lemma ShareMonotone(connected: nat, more: nat)
    requires connected <= more
    ensures Share(more) <= Share(connected)
  {
    DivisionMonotone(MaxConcurrentConnections, connected + 1, more + 1);
  }

  lemma DivisionMonotone(a: nat, b: nat, c: nat)
    requires 0 < b <= c
    ensures a / c <= a / b
  {
    var q := a / c;
    assert c * q <= a by {
      assert a == c * q + a % c;
    }
    MulLe(q, b, c);
    DivLower(a, b, q);
  }

  lemma MulLe(q: nat, b: nat, c: nat)
    requires b <= c
    ensures q * b <= q * c
  {
    assert q * c == q * b + q * (c - b);
  }

  lemma DivLower(a: nat, b: nat, q: nat)
    requires 0 < b && q * b <= a
    ensures q <= a / b
  {
    var d := a / b;
    assert a == b * d + a % b && a % b < b;
    if d < q {
      MulLe(b, d + 1, q);
    }
  }

  /** The caps apply while few connections are open; at capacity only the floors remain. */
  lemma TimeoutExamples()
    ensures GetKeepaliveTimeout(0) == 90 && PostKeepaliveTimeout(0) == 120
    ensures GetKeepaliveTimeout(12) == 90 && GetKeepaliveTimeout(13) == 86
    ensures GetKeepaliveTimeout(1000) == 15 && PostKeepaliveTimeout(1000) == 15
    ensures WriteTimeout(1000) == 7 && ReadTimeout(1000, 1) == 6
  {
  }

  // ---------------------------------------------------------------------------
  // clean

  /** boost::replace_all: every non-overlapping occurrence of `from`, left to right. */
  function ReplaceAll(s: string, from: string, to: string): (r: string)
    decreases |s|
  {
    if |from| == 0 || |s| < |from| then s
    else if s[..|from|] == from then to + ReplaceAll(s[|from|..], from, to)
    else [s[0]] + ReplaceAll(s[1..], from, to)
  }

  /** The replacements of `clean`, in their order. */
  const Escapes: seq<(string, string)> := [
    ("&", "&amp;"), ("@", "&#64;"), ("`", "&#96;"), ("+", "&#43;"), ("$", "&#36;"),
    ("%", "&#35;"), ("<", "&lt;"), (">", "&gt;"), ("\\", "&#92;"), ("/", "&#47"),
    (" ", "&nbsp;"), ("'", "&apos;"), ("\"", "&quot;"), ("!", "&#33;"), ("(", "&#40;"),
    (")", "&#41;"), ("\r\n", "&")
  ]

  /** Applies the replacements `rules[..n]` in order. */
  function Escape(s: string, rules: seq<(string, string)>, n: nat): string
    requires n <= |rules|
  {
    if n == 0 then s else ReplaceAll(Escape(s, rules, n - 1), rules[n - 1].0, rules[n - 1].1)
  }

  /** Below ' ' as a signed char: the control characters and every byte from 0x80 up. */
  predicate Dropped(c: char)
  {
    c < ' ' || c >= 128 as char
  }

  /** The characters the compaction loop keeps, in order. */
  function Kept(s: string): (r: string)
    ensures |r| <= |s|
    ensures forall c :: c in r ==> c in s && !Dropped(c)
  {
    if |s| == 0 then []
    else if Dropped(s[|s| - 1]) then Kept(s[..|s| - 1])
    else Kept(s[..|s| - 1]) + [s[|s| - 1]]
  }

  /** `clean` as a whole: the escapes, then the compaction. */
  function Clean(s: string): string
  {
    Kept(Escape(s, Escapes, |Escapes|))
  }

  /** The characters `clean` promises to remove. */
  const Banned: string := "@`+$%<>\\/ '\"!()"

  /** A replacement never leaves the replaced character behind, and never adds one
      that neither the input nor the replacement text had. */
  lemma {:induction false} ReplaceAllMembers(s: string, from: string, to: string, c: char)
    requires |from| > 0
    ensures c in ReplaceAll(s, from, to) ==> c in s || c in to
    ensures |from| == 1 && c == from[0] && c !in to ==> c !in ReplaceAll(s, from, to)
    decreases |s|
  {
    if |s| >= |from| {
      if s[..|from|] == from {
        ReplaceAllMembers(s[|from|..], from, to, c);
        if c in ReplaceAll(s[|from|..], from, to) {
          assert c in s[|from|..] || c in to;
          if c in s[|from|..] {
            var k :| 0 <= k < |s[|from|..]| && s[|from|..][k] == c;
            assert s[|from| + k] == c;
          }
        }
      } else {
        ReplaceAllMembers(s[1..], from, to, c);
        if c in ReplaceAll(s[1..], from, to) && c in s[1..] {
          var k :| 0 <= k < |s[1..]| && s[1..][k] == c;
          assert s[1 + k] == c;
        }
        if |from| == 1 && c == from[0] {
          assert s[0] != c;
        }
      }
    }
  }

  /** The characters the escapes write: '&', '#', ';', digits and lower-case letters. */
  predicate EntityChar(c: char)
  {
    c == '&' || c == '#' || c == ';' || '0' <= c <= '9' || 'a' <= c <= 'z'
  }

  lemma EscapeTexts(i: nat)
    requires i < |Escapes|
    ensures |Escapes[i].0| > 0
    ensures forall c :: c in Escapes[i].1 ==> EntityChar(c)
  {
  }

  /** A character the escapes never write stays out once it is out. */
  lemma {:induction false} EscapeKeepsOut(s: string, n: nat, c: char)
    requires n <= |Escapes| && !EntityChar(c) && c !in s
    ensures c !in Escape(s, Escapes, n)
  {
    if n > 0 {
      EscapeKeepsOut(s, n - 1, c);
      EscapeTexts(n - 1);
      ReplaceAllMembers(Escape(s, Escapes, n - 1), Escapes[n - 1].0, Escapes[n - 1].1, c);
    }
  }

  /** Once the escape of a one-character target has run, that character is gone for good. */
  lemma {:induction false} EscapeRemovesRule(s: string, n: nat, i: nat, c: char)
    requires i < n <= |Escapes| && Escapes[i].0 == [c] && !EntityChar(c)
    ensures c !in Escape(s, Escapes, n)
  {
    EscapeTexts(n - 1);
    if n - 1 == i {
      ReplaceAllMembers(Escape(s, Escapes, i), [c], Escapes[i].1, c);
    } else {
      EscapeRemovesRule(s, n - 1, i, c);
      ReplaceAllMembers(Escape(s, Escapes, n - 1), Escapes[n - 1].0, Escapes[n - 1].1, c);
    }
  }

  /** No character of the banned set survives `clean`, nor any control character or
      byte from 0x80 up. */
  lemma CleanRemovesBanned(s: string)
    ensures forall c :: c in Clean(s) ==> c !in Banned && !Dropped(c)
  {
    forall c | c in Clean(s) && c in Banned
      ensures false
    {
      var i :| 0 <= i < |Banned| && Banned[i] == c;
      BannedRule(i);
      EscapeRemovesRule(s, |Escapes|, i + 1, c);
    }
  }

  /** Banned character `i` is the one-character target of escape `i + 1`. */
  lemma BannedRule(i: nat)
    requires i < |Banned|
    ensures Escapes[i + 1].0 == [Banned[i]] && !EntityChar(Banned[i])
  {
    match i
    case 0 => case 1 => case 2 => case 3 => case 4 => case 5 => case 6 => case 7 =>
    case 8 => case 9 => case 10 => case 11 => case 12 => case 13 => case 14 =>
  }

  /** A target that does not occur leaves the text as it is. */
  lemma {:induction false} ReplaceAbsent(s: string, from: string, to: string)
    requires |from| > 0 && from[0] !in s
    ensures ReplaceAll(s, from, to) == s
    decreases |s|
  {
    if |s| >= |from| {
      assert s[..|from|][0] == s[0];
      ReplaceAbsent(s[1..], from, to);
    }
  }

  /** Escapes `m` to `n` leave a text alone when none of their targets starts in it. */
  lemma {:induction false} EscapesSkip(s: string, rules: seq<(string, string)>, m: nat, n: nat)
    requires m <= n <= |rules|
    requires forall i :: m <= i < n ==> |rules[i].0| > 0 && rules[i].0[0] !in Escape(s, rules, m)
    ensures Escape(s, rules, n) == Escape(s, rules, m)
  {
    if m < n {
      EscapesSkip(s, rules, m, n - 1);
      ReplaceAbsent(Escape(s, rules, m), rules[n - 1].0, rules[n - 1].1);
    }
  }

  // The sixteen one-character escapes, taken together, replace every character by its
  // entity exactly once: '&' goes first, and no later target occurs in an earlier
  // entity, so no escape rewrites what another one wrote.

  /** The entity `clean` writes for one character, or the character itself. */
  function Entity(c: char): string
  {
    match c
    case '&' => "&amp;"
    case '@' => "&#64;"
    case '`' => "&#96;"
    case '+' => "&#43;"
    case '$' => "&#36;"
    case '%' => "&#35;"
    case '<' => "&lt;"
    case '>' => "&gt;"
    case '\\' => "&#92;"
    case '/' => "&#47"
    case ' ' => "&nbsp;"
    case '\'' => "&apos;"
    case '"' => "&quot;"
    case '!' => "&#33;"
    case '(' => "&#40;"
    case ')' => "&#41;"
    case _ => [c]
  }

  /** Every character of `s` replaced by its entity, left to right. */
  function EscapeEach(s: string): string
  {
    if |s| == 0 then [] else Entity(s[0]) + EscapeEach(s[1..])
  }

  /** What the first `n` escapes make of one character. */
  function EntityUpTo(c: char, n: nat): string
    requires n <= |Escapes|
  {
    if n == 0 then [c]
    else if Escapes[n - 1].0 == [c] then Escapes[n - 1].1
    else EntityUpTo(c, n - 1)
  }

  /** Every character of `s` replaced by what the first `n` escapes make of it. */
  function EscapeEachUpTo(s: string, n: nat): string
    requires n <= |Escapes|
  {
    if |s| == 0 then [] else EntityUpTo(s[0], n) + EscapeEachUpTo(s[1..], n)
  }

  /** The replacement of a one-character target, character by character. */
  function ReplaceChar(s: string, t: char, e: string): string
  {
    if |s| == 0 then [] else (if s[0] == t then e else [s[0]]) + ReplaceChar(s[1..], t, e)
  }

  /** `replace_all` with a one-character target is the character-by-character replacement. */
  lemma {:induction false} ReplaceAllChar(s: string, t: char, e: string)
    ensures ReplaceAll(s, [t], e) == ReplaceChar(s, t, e)
    decreases |s|
  {
    if |s| > 0 {
      assert s[..1] == [s[0]];
      ReplaceAllChar(s[1..], t, e);
    }
  }

  lemma {:induction false} ReplaceCharAppend(a: string, b: string, t: char, e: string)
    ensures ReplaceChar(a + b, t, e) == ReplaceChar(a, t, e) + ReplaceChar(b, t, e)
    decreases |a|
  {
    if |a| == 0 {
      assert a + b == b;
    } else {
      assert (a + b)[0] == a[0] && (a + b)[1..] == a[1..] + b;
      ReplaceCharAppend(a[1..], b, t, e);
    }
  }

  lemma {:induction false} ReplaceCharAbsent(s: string, t: char, e: string)
    requires t !in s
    ensures ReplaceChar(s, t, e) == s
    decreases |s|
  {
    if |s| > 0 {
      ReplaceCharAbsent(s[1..], t, e);
      assert s == [s[0]] + s[1..];
    }
  }

  /** The sixteen one-character targets are all different. */
  lemma TargetsDistinct(i: nat, j: nat)
    requires i < j < |Escapes| - 1
    ensures |Escapes[j].0| == 1 && Escapes[i].0 != Escapes[j].0
  {
    BannedRule(j - 1);
    if i > 0 {
      BannedRule(i - 1);
      BannedDistinct(i - 1, j - 1);
    }
  }

  lemma BannedDistinct(i: nat, j: nat)
    requires i < j < |Banned|
    ensures Banned[i] != Banned[j]
  {
  }

  /** A character no escape before `n` targets is left as it is. */
  lemma {:induction false} EntityUpToSelf(c: char, n: nat)
    requires n <= |Escapes|
    requires forall i :: 0 <= i < n ==> Escapes[i].0 != [c]
    ensures EntityUpTo(c, n) == [c]
  {
    if n > 0 {
      EntityUpToSelf(c, n - 1);
    }
  }

  /** A character targeted by escape `i < n` is its replacement. */
  lemma {:induction false} EntityUpToRule(c: char, n: nat, i: nat)
    requires i < n <= |Escapes| - 1 && Escapes[i].0 == [c]
    ensures EntityUpTo(c, n) == Escapes[i].1
  {
    if n - 1 == i {
    } else {
      TargetsDistinct(i, n - 1);
      EntityUpToRule(c, n - 1, i);
    }
  }

  /** What the escapes make of a character is either the character or entity text. */
  lemma {:induction false} EntityUpToChars(c: char, n: nat)
    requires n <= |Escapes|
    ensures EntityUpTo(c, n) == [c] || forall x :: x in EntityUpTo(c, n) ==> EntityChar(x)
  {
    if n > 0 {
      EscapeTexts(n - 1);
      EntityUpToChars(c, n - 1);
    }
  }

  /** Escape `n` turns what the escapes before it made of a character into what the
      escapes up to `n` make of it. */
  lemma EntityStep(c: char, n: nat)
    requires n < |Escapes| - 1
    ensures |Escapes[n].0| == 1
    ensures ReplaceChar(EntityUpTo(c, n), Escapes[n].0[0], Escapes[n].1) == EntityUpTo(c, n + 1)
  {
    var t := Escapes[n].0[0];
    var e := Escapes[n].1;
    if n > 0 {
      TargetsDistinct(0, n);
    }
    assert Escapes[n].0 == [t];
    if c == t {
      forall i | 0 <= i < n
        ensures Escapes[i].0 != [c]
      {
        TargetsDistinct(i, n);
      }
      EntityUpToSelf(c, n);
      assert ReplaceChar([t], t, e) == e + ReplaceChar([], t, e);
    } else {
      EntityUpToChars(c, n);
      if n > 0 {
        BannedRule(n - 1);
      }
      assert t !in EntityUpTo(c, n);
      ReplaceCharAbsent(EntityUpTo(c, n), t, e);
    }
  }

  lemma {:induction false} EachStep(s: string, n: nat)
    requires n < |Escapes| - 1
    ensures |Escapes[n].0| == 1
    ensures ReplaceChar(EscapeEachUpTo(s, n), Escapes[n].0[0], Escapes[n].1) == EscapeEachUpTo(s, n + 1)
    decreases |s|
  {
    EntityStep(' ', n);
    if |s| > 0 {
      var t := Escapes[n].0[0];
      var e := Escapes[n].1;
      ReplaceCharAppend(EntityUpTo(s[0], n), EscapeEachUpTo(s[1..], n), t, e);
      EntityStep(s[0], n);
      EachStep(s[1..], n);
    }
  }

  lemma {:induction false} EachNone(s: string)
    ensures EscapeEachUpTo(s, 0) == s
    decreases |s|
  {
    if |s| > 0 {
      EachNone(s[1..]);
      assert s == [s[0]] + s[1..];
    }
  }

  /** The first `n` escapes, applied one after another, are the character-by-character
      map. */
  lemma {:induction false} EscapeIsEach(s: string, n: nat)
    requires n < |Escapes|
    ensures Escape(s, Escapes, n) == EscapeEachUpTo(s, n)
  {
    if n == 0 {
      EachNone(s);
    } else {
      EscapeIsEach(s, n - 1);
      EachStep(s, n - 1);
      ReplaceAllChar(EscapeEachUpTo(s, n - 1), Escapes[n - 1].0[0], Escapes[n - 1].1);
      assert Escapes[n - 1].0 == [Escapes[n - 1].0[0]];
    }
  }

  /** All sixteen one-character escapes make of a character its entity. */
  lemma EntityIs(c: char)
    ensures EntityUpTo(c, |Escapes| - 1) == Entity(c)
  {
    var n := |Escapes| - 1;
    match c
    case '&' => EntityUpToRule(c, n, 0);
    case '@' => EntityUpToRule(c, n, 1);
    case '`' => EntityUpToRule(c, n, 2);
    case '+' => EntityUpToRule(c, n, 3);
    case '$' => EntityUpToRule(c, n, 4);
    case '%' => EntityUpToRule(c, n, 5);
    case '<' => EntityUpToRule(c, n, 6);
    case '>' => EntityUpToRule(c, n, 7);
    case '\\' => EntityUpToRule(c, n, 8);
    case '/' => EntityUpToRule(c, n, 9);
    case ' ' => EntityUpToRule(c, n, 10);
    case '\'' => EntityUpToRule(c, n, 11);
    case '"' => EntityUpToRule(c, n, 12);
    case '!' => EntityUpToRule(c, n, 13);
    case '(' => EntityUpToRule(c, n, 14);
    case ')' => EntityUpToRule(c, n, 15);
    case _ => EntityUpToSelf(c, n);
  }

  lemma {:induction false} EachIs(s: string)
    ensures EscapeEachUpTo(s, |Escapes| - 1) == EscapeEach(s)
    decreases |s|
  {
    if |s| > 0 {
      EntityIs(s[0]);
      EachIs(s[1..]);
    }
  }

  /** `clean`'s escapes replace every character by its entity exactly once ('&' first,
      so the '&' an escape writes is not escaped again), then every CRLF by '&'. */
  lemma CleanEscapesOnce(s: string)
    ensures Escape(s, Escapes, |Escapes| - 1) == EscapeEach(s)
    ensures Clean(s) == Kept(ReplaceAll(EscapeEach(s), "\r\n", "&"))
  {
    EscapeIsEach(s, |Escapes| - 1);
    EachIs(s);
  }

  /** '<' alone comes out as `&lt;`. */
  lemma CleanLessThan()
    ensures Clean("<") == "&lt;"
  {
    EscapeLessThan();
    assert Kept("&lt;") == "&lt;" by {
      assert "&lt;"[..3] == "&lt";
      assert "&lt"[..2] == "&l";
      assert "&l"[..1] == "&";
    }
  }

  lemma EscapeLessThan()
    ensures Escape("<", Escapes, |Escapes|) == "&lt;"
  {
    EscapeLessThanSeven();
    assert forall i :: 7 <= i < |Escapes| ==> |Escapes[i].0| > 0 && Escapes[i].0[0] !in "&lt;" by {
      forall i | 7 <= i < |Escapes|
        ensures |Escapes[i].0| > 0 && Escapes[i].0[0] !in "&lt;"
      {
        if i < |Escapes| - 1 {
          BannedRule(i - 1);
          assert forall c :: c in "&lt;" ==> EntityChar(c);
        } else {
          assert Escapes[i].0 == "\r\n";
        }
      }
    }
    EscapesSkip("<", Escapes, 7, |Escapes|);
  }

  lemma EscapeLessThanSeven()
    ensures Escape("<", Escapes, 7) == "&lt;"
  {
    assert Escape("<", Escapes, 6) == "<" by {
      forall i | 0 <= i < 6
        ensures |Escapes[i].0| > 0 && Escapes[i].0[0] !in "<"
      {
        if i == 0 {
          assert Escapes[0].0 == "&";
        } else {
          BannedRule(i - 1);
          assert Banned[..5] == "@`+$%";
          assert Banned[i - 1] in Banned[..5];
        }
      }
      EscapesSkip("<", Escapes, 0, 6);
    }
    assert Escapes[6] == ("<", "&lt;");
    assert ReplaceAll("<", "<", "&lt;") == "&lt;" by {
      assert "<"[..1] == "<";
    }
  }

  /** `clean`'s compaction, in place: every kept character moves left over the dropped
      ones, and the string is cut to the kept length. */
  method Compact(str: array<char>) returns (len: nat)
    modifies str
    ensures len <= str.Length
    ensures str[..len] == Kept(old(str[..]))
  {
    ghost var s := str[..];
    var n := 0;
    var i := 0;
    while i < str.Length
      invariant 0 <= n <= i <= str.Length
      invariant str[..i - n] == Kept(s[..i])
      invariant forall j :: i <= j < str.Length ==> str[j] == s[j]
    {
      assert s[..i + 1][..i] == s[..i] && s[..i + 1][i] == s[i] == str[i];
      if str[i] < ' ' || str[i] >= 128 as char {
        n := n + 1;
      } else {
        str[i - n] := str[i];
        assert str[..i - n + 1] == str[..i - n] + [s[i]];
      }
      i := i + 1;
    }
    assert s[..str.Length] == s;
    len := str.Length - n;
  }
}
