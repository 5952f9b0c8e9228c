/**
 * The guest registry of the inbound engine (src_server/tcp_server.cpp): a
 * vector of guest records, each with a cookie and its hash, a user id and two
 * flags. Accepting a connection claims the first record whose user id is 0 or
 * appends a new one; a request whose header carries a cookie may swap the
 * session's record with the record owning that cookie.
 *
 * The random source (`pcg64Rand`) and the hash (`simplehash_x86_64`) are
 * parameters: a random value and a function from text to a 64-bit value.
 */
module Guests {
  import opened Wrappers
  import opened Text
  import opened Bits
  import opened Pcg

  /** GuestMembers: the cookie text and its hash. */
  datatype Members = Members(cookie: string, cookieU64: word)

  /** A guest record; `members` stands for the owned GuestMembers object. */
  datatype Guest = Guest(members: Members, userid: u32, keepalive: bool, deflateSupported: bool)

  function Pow8(k: nat): (r: nat)
    ensures r > 0
  {
    if k == 0 then 1 else 8 * Pow8(k - 1)
  }

  /** Cookie character 2 + k: `'0' + ((r >> 3k) & 7)`. */
  function CookieDigit(r: nat, k: nat): (c: char)
    ensures '0' <= c <= '7'
  {
    ('0' as int + (r / Pow8(k)) % 8) as char
  }

  /** The cookie the GuestMembers constructor builds from one random value: `c=` and ten
      octal digits of the value, lowest first. */
  function Cookie(r: u32): (c: string)
    ensures |c| == 12 && c[..2] == "c=" && c[1] == '='
    ensures forall k :: 2 <= k < 12 ==> '0' <= c[k] <= '7'
    ensures forall k :: 0 <= k < 10 ==> c[k + 2] == CookieDigit(r, k)
  {
    "c=" + seq(10, k requires 0 <= k < 10 => CookieDigit(r, k))
  }

  /** A new record: the cookie and its hash, user id 0, both flags clear. */
  function NewGuest(r: u32, hash: string -> word): (g: Guest)
    ensures g.userid == 0 && !g.keepalive && !g.deflateSupported
    ensures g.members.cookie == Cookie(r) && g.members.cookieU64 == hash(Cookie(r))
  {
    Guest(Members(Cookie(r), hash(Cookie(r))), 0, false, false)
  }

  /** The value of the first `n` octal digits of a cookie, lowest first. */
  function OctalValue(c: string, n: nat): nat
    requires n <= 10 && |c| == 12
    requires forall k :: 2 <= k < 12 ==> '0' <= c[k] <= '7'
  {
    if n == 0 then 0 else OctalValue(c, n - 1) + (c[n + 1] as int - '0' as int) * Pow8(n - 1)
  }

  /** The cookie keeps the low 30 bits of the random value: they read back from it. */
  lemma CookieKeepsLowBits(r: u32)
    ensures OctalValue(Cookie(r), 10) == r % Pow8(10)
    ensures Pow8(10) == 0x4000_0000
  {
    OctalDigits(r, 10);
  }

  lemma {:induction false} OctalDigits(r: u32, n: nat)
    requires n <= 10
    ensures OctalValue(Cookie(r), n) == r % Pow8(n)
  {
    if n > 0 {
      OctalDigits(r, n - 1);
      var p := Pow8(n - 1);
      var c := Cookie(r);
      assert c[n + 1] as int - '0' as int == (r / p) % 8 by {
        assert c[(n - 1) + 2] == CookieDigit(r, n - 1);
      }
      assert OctalValue(c, n) == r % p + (r / p) % 8 * p;
      ModSplit(r, p);
    }
  }

  /** Taking one more octal digit: r % 8p == r % p + p * ((r / p) % 8). */
  lemma ModSplit(r: nat, p: nat)
    requires p > 0
    ensures r % (8 * p) == r % p + p * ((r / p) % 8)
  {
    var q := r / p;
    RegroupDigit(r, p, q, r % p, q / 8, q % 8);
  }

  /** The same split, stated over the quotients and remainders as plain numbers. */
  lemma RegroupDigit(r: nat, p: nat, q: nat, m: nat, a: nat, d: nat)
    requires p > 0 && r == p * q + m && m < p
    requires q == 8 * a + d && d < 8
    ensures r % (8 * p) == m + p * d
  {
    Regroup(p, a, d);
    ScaleBelow(p, d);
    DivisionUnique(r, 8 * p, a, m + p * d);
  }

  lemma Regroup(p: nat, a: nat, d: nat)
    ensures p * (8 * a + d) == (8 * p) * a + p * d
  {
    assert p * (8 * a + d) == p * (8 * a) + p * d;
  }

  lemma ScaleBelow(p: nat, d: nat)
    requires d < 8
    ensures p * d <= p * 7
  {
    assert p * 7 - p * d == p * (7 - d);
  }

  // ---------------------------------------------------------------------------
  // Guest::swap

  /** The pair after `a.swap(b)`: members, keepalive and deflateSupported change places;
      the user ids stay. */
  function Exchange(a: Guest, b: Guest): (r: (Guest, Guest))
    ensures r.0.userid == a.userid && r.1.userid == b.userid
    ensures r.0.members == b.members && r.1.members == a.members
    ensures r.0.keepalive == b.keepalive && r.1.keepalive == a.keepalive
    ensures r.0.deflateSupported == b.deflateSupported && r.1.deflateSupported == a.deflateSupported
  {
    (a.(members := b.members, keepalive := b.keepalive, deflateSupported := b.deflateSupported),
     b.(members := a.members, keepalive := a.keepalive, deflateSupported := a.deflateSupported))
  }

  /** The registry after `guests[i].swap(guests[j])`. */
  function SwapAt(g: seq<Guest>, i: nat, j: nat): (h: seq<Guest>)
    requires i < |g| && j < |g|
    ensures |h| == |g|
  {
    var p := Exchange(g[i], g[j]);
    g[i := p.0][j := p.1]
  }

  /** Swapping twice restores the registry, and a swap never moves a user id. */
  lemma SwapInvolution(g: seq<Guest>, i: nat, j: nat)
    requires i < |g| && j < |g|
    ensures SwapAt(SwapAt(g, i, j), i, j) == g
    ensures forall k :: 0 <= k < |g| ==> SwapAt(g, i, j)[k].userid == g[k].userid
    ensures i != j ==> SwapAt(g, i, j)[i].members == g[j].members && SwapAt(g, i, j)[j].members == g[i].members
  {
  }

  // ---------------------------------------------------------------------------
  // Searches

  /** The first record with user id 0. */
  function FirstFree(g: seq<Guest>): (r: Option<nat>)
    ensures r.Some? ==> r.value < |g| && g[r.value].userid == 0
                        && forall k :: 0 <= k < r.value ==> g[k].userid != 0
    ensures r.None? ==> forall k :: 0 <= k < |g| ==> g[k].userid != 0
  {
    if |g| == 0 then None
    else if g[0].userid == 0 then Some(0)
    else match FirstFree(g[1..])
      case Some(k) => Some(k + 1)
      case None => None
  }

  /** The first record whose cookie hash is `h`. */
  function FirstCookie(g: seq<Guest>, h: word): (r: Option<nat>)
    ensures r.Some? ==> r.value < |g| && g[r.value].members.cookieU64 == h
                        && forall k :: 0 <= k < r.value ==> g[k].members.cookieU64 != h
    ensures r.None? ==> forall k :: 0 <= k < |g| ==> g[k].members.cookieU64 != h
  {
    if |g| == 0 then None
    else if g[0].members.cookieU64 == h then Some(0)
    else match FirstCookie(g[1..], h)
      case Some(k) => Some(k + 1)
      case None => None
  }

  // ---------------------------------------------------------------------------
  // restoreUser's needle

  const CookieKey: string := "cookie:"

  /** The text `restoreUser` hashes: from 9 bytes past `cookie:` (8 when it is absent, as
      npos + 9 wraps) to the end of the header; `None` when that start plus 2 reaches the
      end. */
  function RestoreNeedle(header: string): (r: Option<string>)
    requires |header| + 4 < SIZE_MOD
  {
    var pos := CookieStart(header);
    if SizeAdd(pos, 2) >= |header| then None else Some(header[pos..])
  }

  /** `find("cookie:") + 9` in size_t arithmetic. */
  function CookieStart(header: string): (pos: nat)
    requires |header| + 4 < SIZE_MOD
    ensures pos <= |header| + 2 || pos == 8
    ensures Find(header, CookieKey).None? ==> pos == 8
    ensures Find(header, CookieKey).Some? ==> pos == Find(header, CookieKey).value + 9
  {
    var i := FindIndex(header, CookieKey);
    assert i == NPOS || OccursAt(header, CookieKey, i);
    SizeAdd(i, 9)
  }

  /** For `cookie: c=...` the hashed text starts at the cookie's '=', one byte late, so it
      is never a cookie the registry made: a guest is found only through a hash collision. */
  lemma NeedleMissesCookie(p: string, r: u32, rest: string)
    requires |p + "cookie: " + Cookie(r) + rest| + 4 < SIZE_MOD
    requires Find(p + "cookie: " + Cookie(r) + rest, CookieKey) == Some(|p|)
    ensures RestoreNeedle(p + "cookie: " + Cookie(r) + rest) == Some(Cookie(r)[1..] + rest)
    ensures forall x: u32 :: Cookie(r)[1..] + rest != Cookie(x)
  {
    var h := p + "cookie: " + Cookie(r) + rest;
    assert h[|p| + 9..] == Cookie(r)[1..] + rest;
    forall x: u32
      ensures Cookie(r)[1..] + rest != Cookie(x)
    {
      assert (Cookie(r)[1..] + rest)[0] == '=';
      assert Cookie(x)[0] == 'c';
    }
  }

  /** Without a cookie field the hash covers the header from index 8. */
  lemma MissingCookieHashesFrom8(header: string)
    requires 10 < |header| && |header| + 4 < SIZE_MOD && !Contains(header, CookieKey)
    ensures RestoreNeedle(header) == Some(header[8..])
  {
  }

  // ---------------------------------------------------------------------------
  // The registry

  /** The `vector<Guest>` shared by the server's sessions; a session's guest pointer is an
      index into it. */
  class Registry {
    var guests: seq<Guest>

    constructor()
      ensures guests == []
    {
      guests := [];
    }

    /** `guest->keepalive = true` on the session's record. */
    method SetKeepalive(i: nat)
      requires i < |guests|
      modifies this
      ensures guests == old(guests)[i := old(guests)[i].(keepalive := true)]
    {
      guests := guests[i := guests[i].(keepalive := true)];
    }

    /** `guests[i].swap(guests[j])`. */
    method Swap(i: nat, j: nat)
      requires i < |guests| && j < |guests|
      modifies this
      ensures guests == SwapAt(old(guests), i, j)
    {
      var a, b := guests[i], guests[j];
      guests := guests[i := a.(members := b.members, keepalive := b.keepalive, deflateSupported := b.deflateSupported)];
      guests := guests[j := b.(members := a.members, keepalive := a.keepalive, deflateSupported := a.deflateSupported)];
    }

    /** The claim in `doAccept`: the first record with user id 0 gets the user id `r`;
        without one a new record (cookie from `cookieRand`, user id 0) is appended. The
        index of the record handed to the session is returned. */
    method Claim(r: u32, cookieRand: u32, hash: string -> word) returns (idx: nat)
      modifies this
      ensures idx < |guests|
      ensures FirstFree(old(guests)).Some? ==>
                idx == FirstFree(old(guests)).value && guests == old(guests)[idx := old(guests)[idx].(userid := r)]
      ensures FirstFree(old(guests)).None? ==>
                idx == |old(guests)| && guests == old(guests) + [NewGuest(cookieRand, hash)]
    {
      var i := 0;
      while i < |guests|
        invariant 0 <= i <= |guests| && guests == old(guests)
        invariant forall k :: 0 <= k < i ==> guests[k].userid != 0
      {
        if guests[i].userid == 0 {
          guests := guests[i := guests[i].(userid := r)];
          return i;
        }
        i := i + 1;
      }
      guests := guests + [NewGuest(cookieRand, hash)];
      idx := |guests| - 1;
    }

    /** The loop of `restoreUser`'s lambda: the first record holding the hash. */
    method FindCookie(h: word) returns (k: Option<nat>)
      ensures k == FirstCookie(guests, h)
    {
      var i := 0;
      while i < |guests|
        invariant 0 <= i <= |guests|
        invariant forall j :: 0 <= j < i ==> guests[j].members.cookieU64 != h
      {
        if guests[i].members.cookieU64 == h {
          return Some(i);
        }
        i := i + 1;
      }
      return None;
    }

    /** `restoreUser`: when the needle's hash names a record other than the session's
        record `cur`, the two records swap. */
    method RestoreUser(cur: nat, header: string, hash: string -> word)
      requires cur < |guests| && |header| + 4 < SIZE_MOD
      modifies this
      ensures guests == Restored(old(guests), cur, header, hash)
    {
      var cookiePos := CookieStart(header);
      if SizeAdd(cookiePos, 2) >= |header| {
        return;
      }
      var needle := header[cookiePos..];
      var k := FindCookie(hash(needle));
      if k.Some? && k.value != cur {
        Swap(cur, k.value);
      }
    }
  }

  /** The registry after `restoreUser` for the session's record `cur`: without a needle
      nothing changes; otherwise `cur` swaps with the first record holding the needle's
      hash, unless that record is `cur` itself or there is none. */
  function Restored(g: seq<Guest>, cur: nat, header: string, hash: string -> word): (h: seq<Guest>)
    requires cur < |g| && |header| + 4 < SIZE_MOD
    ensures |h| == |g|
  {
    match RestoreNeedle(header)
    case None => g
    case Some(needle) =>
      var k := FirstCookie(g, hash(needle));
      if k.Some? && k.value != cur then SwapAt(g, cur, k.value) else g
  }

  /** Restoring a user never changes which user id sits at which index, and the state of
      the record that carried the cookie now sits at the session's index. */
  lemma RestoredKeepsUserids(g: seq<Guest>, cur: nat, header: string, hash: string -> word)
    requires cur < |g| && |header| + 4 < SIZE_MOD
    ensures forall i :: 0 <= i < |g| ==> Restored(g, cur, header, hash)[i].userid == g[i].userid
    ensures RestoreNeedle(header).Some? && FirstCookie(g, hash(RestoreNeedle(header).value)).Some? ==>
              var k := FirstCookie(g, hash(RestoreNeedle(header).value)).value;
              Restored(g, cur, header, hash)[cur].members == g[k].members
  {
    if RestoreNeedle(header).Some? {
      var k := FirstCookie(g, hash(RestoreNeedle(header).value));
      if k.Some? && k.value != cur {
        var h := SwapAt(g, cur, k.value);
        assert forall i :: 0 <= i < |g| ==> h[i].userid == g[i].userid;
      }
    }
  }

  /** A record appended by a claim keeps user id 0, so the next claim hands the same
      record to a second session. */
  lemma AppendedGuestStaysFree(g: seq<Guest>, cookieRand: u32, hash: string -> word)
    requires FirstFree(g).None?
    ensures FirstFree(g + [NewGuest(cookieRand, hash)]) == Some(|g|)
  {
    var h := g + [NewGuest(cookieRand, hash)];
    assert forall k :: 0 <= k < |g| ==> h[k].userid != 0;
    assert h[|g|].userid == 0;
  }

  /** A claim that draws user id 0 leaves the claimed record free. */
  lemma ZeroUseridStaysFree(g: seq<Guest>)
    requires FirstFree(g).Some?
    ensures FirstFree(g[FirstFree(g).value := g[FirstFree(g).value].(userid := 0)]) == FirstFree(g)
  {
    var i := FirstFree(g).value;
    var h := g[i := g[i].(userid := 0)];
    assert forall k :: 0 <= k < i ==> h[k].userid != 0;
    assert h[i].userid == 0;
  }
}
