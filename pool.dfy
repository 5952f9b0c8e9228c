/**
 * The outbound connection pool (src_server/connection.cpp): two fixed arrays
 * of slots (`TcpConnection`), one for plain and one for TLS connections, and
 * one map of replies shared by all slots. A slot is free while its host
 * fingerprint is 0. The asynchronous completion handlers of a slot are the
 * event methods of `Connection`; each one is proved against a step function
 * on a `Slot` value, so that sequences of events can be reasoned about with
 * lemmas.
 *
 * Sockets, the resolver, TLS and the deadline timer are not modelled: what
 * their completions report (an error flag, a byte count, the SOCKS5 proxy's
 * answers, whether the socket is still open) arrives as parameters, and what
 * the slot starts next is returned as a value. The host hash `simplehash` is
 * the parameter `hash`.
 */
module Pool {
  import opened Wrappers
  import opened Bytes
  import opened Bits
  import opened Text
  import opened Sync
  import opened Endpoint
  import Base64

  datatype Method = GET | POST | PUT | DLETE | HEAD
  datatype Format = TEXT | JSON

  /** The arguments of one `request` call. */
  datatype Call = Call(callerId: int, site: string, url: string, data: string, auth: string,
                       xApiKey: string, verb: Method, format: Format)

  /** The request a slot keeps between requests: Beast's `req` member. */
  datatype Request = Request(verb: Method, target: string, fields: map<string, string>, body: string)

  const NoRequest: Request := Request(GET, "", map[], "")

  /** The header field names `setupHttpRequest` writes. */
  const HostField := "Host"
  const ConnectionField := "Connection"
  const AuthorizationField := "Authorization"
  const ContentTypeField := "Content-Type"
  const ContentLengthField := "Content-Length"
  const ApiKeyField := "X-Api-Key"

  /** The header fields `setupHttpRequest` may write. */
  predicate Written(k: string)
  {
    k == HostField || k == ConnectionField || k == AuthorizationField || k == ContentTypeField
    || k == ContentLengthField || k == ApiKeyField
  }

  /** The Authorization value for a userinfo text: `Basic` and its base64 form. */
  function BasicAuth(userpw: string): string
  {
    "Basic " + Base64.Encode(HostBytes(userpw))
  }

  /** `setupHttpRequest`: the request after one setup for the call `c` on top of the
      slot's previous request `r`; `SetupWrites` and `SetupKeeps` state which fields it
      writes and which it leaves as they were. */
  function SetupRequest(r: Request, c: Call, host: string, userpw: string): (q: Request)
    ensures q.verb == c.verb && q.target == c.url
    ensures q.body == if c.data != [] then c.data else r.body
  {
    Request(c.verb, c.url, SetupFields(r.fields, c, host, userpw),
            if c.data != [] then c.data else r.body)
  }

  /** The header fields after the six writes of one setup, in the source's order. */
  function SetupFields(f: map<string, string>, c: Call, host: string, userpw: string): map<string, string>
  {
    var f1 := SetIf(f, c.verb == POST, ContentLengthField, Decimal(|c.data|));
    var f2 := SetIf(SetIf(f1, true, HostField, host), true, ConnectionField, "Keep-Alive");
    var f3 := SetIf(f2, userpw != [] || c.auth != [], AuthorizationField, AuthValue(c, userpw));
    var f4 := SetIf(f3, c.format == JSON, ContentTypeField, "application/json");
    var f5 := SetIf(f4, c.data != [], ContentLengthField, Decimal(|c.data|));
    SetIf(f5, c.xApiKey != [], ApiKeyField, c.xApiKey)
  }

  /** The Authorization value: credentials from the userinfo win over the `auth` text. */
  function AuthValue(c: Call, userpw: string): string
  {
    if userpw != [] then BasicAuth(userpw) else c.auth
  }

  /** The fields one setup writes: the Host and Connection fields always, Basic
      credentials from the userinfo ahead of the `auth` text, the JSON content type,
      the body's length for a POST or a body, and the API key. */
  lemma SetupWrites(r: Request, c: Call, host: string, userpw: string)
    ensures var f := SetupRequest(r, c, host, userpw).fields;
            && HostField in f && f[HostField] == host
            && ConnectionField in f && f[ConnectionField] == "Keep-Alive"
            && (userpw != [] ==> AuthorizationField in f && f[AuthorizationField] == BasicAuth(userpw))
            && (userpw == [] && c.auth != [] ==> AuthorizationField in f && f[AuthorizationField] == c.auth)
            && (c.format == JSON ==> ContentTypeField in f && f[ContentTypeField] == "application/json")
            && (c.verb == POST || c.data != [] ==>
                  ContentLengthField in f && f[ContentLengthField] == Decimal(|c.data|))
            && (c.xApiKey != [] ==> ApiKeyField in f && f[ApiKeyField] == c.xApiKey)
  {
  }

  /** Fields persist across requests on a slot: a field one setup does not write keeps its
      value from the slot's previous request. */
  lemma SetupKeeps(r: Request, c: Call, host: string, userpw: string)
    ensures var f := SetupRequest(r, c, host, userpw).fields;
            && (userpw == [] && c.auth == [] ==> Persists(r.fields, f, AuthorizationField))
            && (c.format == TEXT ==> Persists(r.fields, f, ContentTypeField))
            && (c.verb != POST && c.data == [] ==> Persists(r.fields, f, ContentLengthField))
            && (c.xApiKey == [] ==> Persists(r.fields, f, ApiKeyField))
            && forall k :: !Written(k) ==> Persists(r.fields, f, k)
  {
    var f := SetupRequest(r, c, host, userpw).fields;
    if userpw == [] && c.auth == [] { KeepsField(r, c, host, userpw, AuthorizationField); }
    if c.format == TEXT { KeepsField(r, c, host, userpw, ContentTypeField); }
    if c.verb != POST && c.data == [] { KeepsField(r, c, host, userpw, ContentLengthField); }
    if c.xApiKey == [] { KeepsField(r, c, host, userpw, ApiKeyField); }
    forall k | !Written(k)
      ensures Persists(r.fields, f, k)
    {
      KeepsField(r, c, host, userpw, k);
    }
  }

  /** Whether one setup for the call `c` writes the field `k`. */
  predicate Touched(c: Call, userpw: string, k: string)
  {
    || k == HostField || k == ConnectionField
    || (k == AuthorizationField && (userpw != [] || c.auth != []))
    || (k == ContentTypeField && c.format == JSON)
    || (k == ContentLengthField && (c.verb == POST || c.data != []))
    || (k == ApiKeyField && c.xApiKey != [])
  }

  /** A field the setup does not write persists through each of its six steps. */
  lemma KeepsField(r: Request, c: Call, host: string, userpw: string, k: string)
    requires !Touched(c, userpw, k)
    ensures Persists(r.fields, SetupRequest(r, c, host, userpw).fields, k)
  {
    var f1 := SetIf(r.fields, c.verb == POST, ContentLengthField, Decimal(|c.data|));
    var f2 := SetIf(SetIf(f1, true, HostField, host), true, ConnectionField, "Keep-Alive");
    var f3 := SetIf(f2, userpw != [] || c.auth != [], AuthorizationField, AuthValue(c, userpw));
    var f4 := SetIf(f3, c.format == JSON, ContentTypeField, "application/json");
    var f5 := SetIf(f4, c.data != [], ContentLengthField, Decimal(|c.data|));
    var f6 := SetIf(f5, c.xApiKey != [], ApiKeyField, c.xApiKey);
    assert SetupRequest(r, c, host, userpw).fields == SetupFields(r.fields, c, host, userpw) == f6;
    SetIfKeeps(r.fields, c.verb == POST, ContentLengthField, Decimal(|c.data|), k);
    SetIfKeeps(f1, true, HostField, host, k);
    SetIfKeeps(SetIf(f1, true, HostField, host), true, ConnectionField, "Keep-Alive", k);
    SetIfKeeps(f2, userpw != [] || c.auth != [], AuthorizationField, AuthValue(c, userpw), k);
    SetIfKeeps(f3, c.format == JSON, ContentTypeField, "application/json", k);
    SetIfKeeps(f4, c.data != [], ContentLengthField, Decimal(|c.data|), k);
    SetIfKeeps(f5, c.xApiKey != [], ApiKeyField, c.xApiKey, k);
  }

  /** `req.set(k, v)` when `put` holds: only field `k` changes. */
  function SetIf(f: map<string, string>, put: bool, k: string, v: string): (g: map<string, string>)
    ensures put ==> k in g && g[k] == v
    ensures !put ==> g == f
  {
    if put then f[k := v] else f
  }

  /** Every field but `k` persists through `SetIf`. */
  lemma SetIfKeeps(f: map<string, string>, put: bool, k: string, v: string, j: string)
    requires j != k || !put
    ensures Persists(f, SetIf(f, put, k, v), j)
  {
  }

  /** Field `k` is present after exactly when it was before, with the same value. */
  predicate Persists(before: map<string, string>, after: map<string, string>, k: string)
  {
    (k in after <==> k in before) && (k in before ==> after[k] == before[k])
  }

  // ---------------------------------------------------------------------------
  // Replies

  datatype Reply = Reply(httpStatus: int, body: string)

  /** `unordered_map::emplace`: an existing entry for the id wins. */
  function Emplace(m: map<int, Reply>, id: int, r: Reply): (n: map<int, Reply>)
    ensures id in n && n.Keys == m.Keys + {id}
    ensures id in m ==> n == m
    ensures id !in m ==> n[id] == r && forall k :: k in m ==> n[k] == m[k]
  {
    if id in m then m else m[id := r]
  }

  /** `getReply`: the status, the caller's string and the map afterwards. An absent id
      gives status 999 and leaves the string alone; a present one hands over the stored
      status and body and erases the entry. */
  function Take(m: map<int, Reply>, id: int, dst: string): (r: (int, string, map<int, Reply>))
    ensures id !in r.2 && r.2.Keys == m.Keys - {id}
    ensures id !in m ==> r == (999, dst, m)
    ensures id in m ==> r.0 == m[id].httpStatus && r.1 == m[id].body
    ensures forall k :: k in r.2 ==> r.2[k] == m[k]
  {
    if id !in m then (999, dst, m) else (m[id].httpStatus, m[id].body, m - {id})
  }

  /** A reply is handed out once: asking again gives 999. */
  lemma TakeConsumes(m: map<int, Reply>, id: int, dst: string, dst2: string)
    requires id in m
    ensures Take(Take(m, id, dst).2, id, dst2) == (999, dst2, m - {id})
    ensures Take(Emplace(m - {id}, id, Reply(200, dst)), id, dst2).1 == dst
  {
  }

  /** A second reply for the same caller before the first was taken is dropped. */
  lemma EmplaceKeepsFirst(m: map<int, Reply>, id: int, first: Reply, second: Reply)
    ensures Take(Emplace(Emplace(m, id, first), id, second), id, []).1
              == if id in m then m[id].body else first.body
  {
  }

  /** The reply map shared by all slots of a pool. */
  class ReplyStore {
    var replies: map<int, Reply>

    constructor()
      ensures replies == map[]
    {
      replies := map[];
    }

    method Put(id: int, r: Reply)
      modifies this
      ensures replies == Emplace(old(replies), id, r)
    {
      if id !in replies {
        replies := replies[id := r];
      }
    }

    /** `Pool::getReply`. */
    method GetReply(id: int, dst: string) returns (status: int, out: string)
      modifies this
      ensures (status, out, replies) == Take(old(replies), id, dst)
    {
      if id !in replies {
        status := 999;
        out := dst;
        return;
      }
      status := replies[id].httpStatus;
      out := replies[id].body;
      replies := replies - {id};
    }
  }

  // ---------------------------------------------------------------------------
  // One slot

  /** The fields of a `TcpConnection` that its handlers change. `waits` counts the
      keep-alive waits whose handler has not run yet. */
  datatype Slot = Slot(busy: bool, hostHash: word, callerId: int, totalread: int,
                       totalConsecutiveReads: int, host: string, userpw: string,
                       req: Request, waits: nat)

  /** A slot as its constructor leaves it: released and free. */
  const Initial: Slot := Slot(false, 0, 0, 0, 0, "", "", NoRequest, 0)

  /** What a slot starts after `establish`. */
  datatype Next = Resolve(host: string, port: string) | Handshake | WriteRequest | Halt

  /** How the SOCKS5 proxy answers: whether the connect succeeds, and each reply, `None`
      when reading it throws. */
  datatype Proxy = Proxy(reachable: bool, reply1: Option<seq<byte>>, reply2: Option<seq<byte>>)

  predicate WellFormedProxy(p: Proxy)
  {
    (p.reply1.Some? ==> |p.reply1.value| == 2) && (p.reply2.Some? ==> |p.reply2.value| == 10)
  }

  /** The SOCKS5 exchange of `establish`: what the slot starts next and the messages it
      sent. Every failure, including a port text `stoi` rejects, ends the exchange. */
  function SocksExchange(host: string, port: string, tls: bool, p: Proxy): (r: (Next, seq<seq<byte>>))
    requires WellFormedProxy(p)
    ensures r.0 != Halt ==> p.reachable && p.reply1.Some? && GreetingAccepted(p.reply1.value)
                            && Stoi(port).Some? && p.reply2.Some? && ConnectAccepted(p.reply2.value)
                            && r.1 == [Greeting, ConnectRequest(host, PortNumber(Stoi(port).value))]
    ensures r.0 == Handshake || r.0 == WriteRequest || r.0 == Halt
    ensures r.0 != Halt ==> (r.0 == Handshake <==> tls)
    ensures !p.reachable ==> r == (Halt, [])
  {
    if !p.reachable then (Halt, [])
    else if p.reply1.None? || !GreetingAccepted(p.reply1.value) then (Halt, [Greeting])
    else match Stoi(port)
      case None => (Halt, [Greeting])
      case Some(v) =>
        var m := ConnectRequest(host, PortNumber(v));
        if p.reply2.None? || !ConnectAccepted(p.reply2.value) then (Halt, [Greeting, m])
        else (if tls then Handshake else WriteRequest, [Greeting, m])
  }

  /** The slot after `establish`: acquired whatever the flag was, the caller recorded,
      the userinfo and the fingerprint taken from the site, the request set up with the
      host still carrying its port, and the port split off the kept host. */
  function EstablishSlot(s: Slot, tls: bool, c: Call, hash: string -> word): (t: Slot)
  {
    var split := SplitUserinfo(c.site, s.userpw);
    EstablishedSlot(s, tls, c, split, hash(split.1))
  }

  /** The slot after `establish` once the site is split into `split` (userinfo, host) and
      the host's fingerprint is known. */
  function EstablishedSlot(s: Slot, tls: bool, c: Call, split: (string, string), fingerprint: word): Slot
  {
    SetUpSlot(ClaimedSlot(s, tls, c, split, fingerprint), c, split.1)
  }

  /** Acquired, with the caller, the userinfo, the fingerprint and the host without its port. */
  function ClaimedSlot(s: Slot, tls: bool, c: Call, split: (string, string), fingerprint: word): Slot
  {
    s.(busy := TestAndSet(s.busy).1, callerId := c.callerId, userpw := split.0,
       host := SplitPort(split.1, tls).0, hostHash := fingerprint)
  }

  /** The request set up for `host` with the slot's userinfo. */
  function SetUpSlot(s: Slot, c: Call, host: string): Slot
  {
    s.(req := SetupRequest(s.req, c, host, s.userpw))
  }

  /** What `establish` starts next, and the SOCKS5 messages it sent. */
  function EstablishNext(s: Slot, tls: bool, socks: bool, c: Call, p: Proxy): (r: (Next, seq<seq<byte>>))
    requires WellFormedProxy(p)
    ensures !socks ==> r == (Resolve(SplitPort(SplitUserinfo(c.site, s.userpw).1, tls).0,
                                     SplitPort(SplitUserinfo(c.site, s.userpw).1, tls).1), [])
    ensures socks && !p.reachable ==> r == (Halt, [])
  {
    var hp := SplitPort(SplitUserinfo(c.site, s.userpw).1, tls);
    if !socks then (Resolve(hp.0, hp.1), []) else SocksExchange(hp.0, hp.1, tls, p)
  }

  /** `nextRequest`: a new request on the kept host; it goes out only if the socket is
      still open. */
  function NextRequestStep(s: Slot, c: Call): (t: Slot)
  {
    s.(callerId := c.callerId,
       req := SetupRequest(s.req, c, s.host, s.userpw))
  }

  /** What `read` starts. */
  datatype ReadOutcome = Capped | ReadFailed | AwaitResponse

  const MaxRead: int := 1024 * 1024
  const MaxConsecutiveReads: int := 16

  /** `read`: count, then stop at either cap, before looking at the error. */
  function ReadStep(s: Slot, ec: bool, n: nat): (r: (Slot, ReadOutcome))
  {
    var t := s.(totalread := s.totalread + n, totalConsecutiveReads := s.totalConsecutiveReads + 1);
    if t.totalread > MaxRead || t.totalConsecutiveReads > MaxConsecutiveReads then (t, Capped)
    else if ec then (t.(hostHash := 0), ReadFailed)
    else (t, AwaitResponse)
  }

  /** Beast's field lookup: a response field matches a name regardless of ASCII case. */
  predicate HasField(names: seq<string>, name: string)
  {
    exists k :: 0 <= k < |names| && ToLower(names[k]) == ToLower(name)
  }

  /** The two names `doneRead` looks up. */
  const CloseName1: string := "onnection-close"
  const CloseName2: string := "onnection-Close"

  /** `doneRead` without an error: whether the keep-alive wait is armed, given the
      response's `keep_alive()` and its field names. */
  function WantsKeepalive(keepAlive: bool, names: seq<string>): bool
  {
    keepAlive || !HasField(names, CloseName1) || !HasField(names, CloseName2)
  }

  /** `doneRead`: on an error the fingerprint is cleared and nothing else changes;
      otherwise the slot is released, its counters reset and a wait armed if wanted. */
  function DoneReadStep(s: Slot, ec: bool, keepAlive: bool, names: seq<string>): (t: Slot)
  {
    if ec then s.(hostHash := 0)
    else
      s.(busy := false, totalread := 0, totalConsecutiveReads := 0,
         waits := if WantsKeepalive(keepAlive, names) then s.waits + 1 else s.waits)
  }

  /** The handler of a keep-alive wait: it closes the socket and frees the fingerprint
      whatever its error code, even when the wait was cancelled by re-arming. */
  function ExpireStep(s: Slot): (t: Slot)
    requires s.waits > 0
  {
    s.(hostHash := 0, waits := s.waits - 1)
  }

  /** Where a connection attempt after `establish` fails: the resolver, the TCP connect,
      or the TLS handshake of a TLS slot. */
  datatype ConnectFailure = ResolveFailed | TcpConnectFailed | HandshakeFailed

  /** The error paths after `establish`. The resolve handler and `writeSSL` (reached from
      a plain slot's connect, or from a TLS slot's handshake) clear the fingerprint; a TLS
      slot's failed TCP connect completes into `handshake`, which returns without touching
      anything. The slot stays busy either way. */
  function ConnectFailedStep(s: Slot, tls: bool, e: ConnectFailure): (t: Slot)
    requires e.HandshakeFailed? ==> tls
  {
    if tls && e.TcpConnectFailed? then s else s.(hostHash := 0)
  }

  /** A `TcpConnection`. */
  class Connection {
    const tls: bool
    var busy: bool
    var hostHash: word
    var callerId: int
    var totalread: int
    var totalConsecutiveReads: int
    var host: string
    var userpw: string
    var req: Request
    var waits: nat

    function State(): Slot
      reads this
    {
      Slot(busy, hostHash, callerId, totalread, totalConsecutiveReads, host, userpw, req, waits)
    }

    constructor(tls: bool)
      ensures this.tls == tls && State() == Initial
    {
      this.tls := tls;
      busy := false;
      hostHash := 0;
      callerId := 0;
      totalread := 0;
      totalConsecutiveReads := 0;
      host := "";
      userpw := "";
      req := NoRequest;
      waits := 0;
    }

    /** `busy->isAvail_then_lock()`. */
    method Acquire() returns (s: State)
      modifies this
      ensures (s, busy) == TestAndSet(old(busy))
      ensures State() == old(State()).(busy := true)
    {
      var r := TestAndSet(busy);
      s := r.0;
      busy := r.1;
    }

    /** `establish<socks>`; the acquisition's result is ignored. */
    method Establish(socks: bool, c: Call, hash: string -> word, p: Proxy) returns (next: Next, sent: seq<seq<byte>>)
      requires WellFormedProxy(p)
      modifies this
      ensures State() == EstablishSlot(old(State()), tls, c, hash)
      ensures (next, sent) == EstablishNext(old(State()), tls, socks, c, p)
    {
      var split := SplitUserinfo(c.site, userpw);
      var hp := TakeHost(c, split, hash(split.1));
      if !socks {
        next, sent := Resolve(hp.0, hp.1), [];
        return;
      }
      var x := SocksExchange(hp.0, hp.1, tls, p);
      next, sent := x.0, x.1;
    }

    /** The part of `establish` after the site is split into `split` (userinfo, host) and
        fingerprinted, before any I/O: acquire, record the caller, keep the userinfo, the
        fingerprint and the host without its port, set up the request; the host and port
        are returned. */
    method TakeHost(c: Call, split: (string, string), fingerprint: word) returns (hp: (string, string))
      modifies this
      ensures State() == EstablishedSlot(old(State()), tls, c, split, fingerprint)
      ensures hp == SplitPort(split.1, tls)
    {
      hp := Claim(c, split, fingerprint);
      SetUp(c, split.1);
    }

    /** Acquire the slot and keep the caller, the userinfo, the fingerprint and the host
        without its port, which is returned with the port. */
    method Claim(c: Call, split: (string, string), fingerprint: word) returns (hp: (string, string))
      modifies this
      ensures State() == ClaimedSlot(old(State()), tls, c, split, fingerprint)
      ensures hp == SplitPort(split.1, tls)
    {
      var acquired := TestAndSet(busy);
      hp := SplitPort(split.1, tls);
      busy, callerId, userpw, hostHash, host := acquired.1, c.callerId, split.0, fingerprint, hp.0;
    }

    /** `setupHttpRequest` for the host `host` with the slot's userinfo. */
    method SetUp(c: Call, host: string)
      modifies this
      ensures State() == SetUpSlot(old(State()), c, host)
    {
      req := SetupRequest(req, c, host, userpw);
    }

    /** `nextRequest`; `sockOpen` is whether the socket is still open, and `sent` whether
        the request goes out. */
    method NextRequest(c: Call, sockOpen: bool) returns (sent: bool)
      modifies this
      ensures State() == NextRequestStep(old(State()), c) && sent == sockOpen
    {
      callerId := c.callerId;
      req := SetupRequest(req, c, host, userpw);
      sent := sockOpen;
    }

    /** A connection attempt that fails after `establish` (see `ConnectFailedStep`). */
    method ConnectFailed(e: ConnectFailure)
      requires e.HandshakeFailed? ==> tls
      modifies this
      ensures State() == ConnectFailedStep(old(State()), tls, e)
    {
      if tls && e.TcpConnectFailed? {
        return;
      }
      hostHash := 0;
    }

    /** `read`, after the request was written (`ec` and `n` are the write's result). */
    method Read(ec: bool, n: nat) returns (outcome: ReadOutcome)
      modifies this
      ensures (State(), outcome) == ReadStep(old(State()), ec, n)
    {
      totalread := totalread + n;
      totalConsecutiveReads := totalConsecutiveReads + 1;
      if totalread > MaxRead {
        return Capped;
      }
      if totalConsecutiveReads > MaxConsecutiveReads {
        return Capped;
      }
      if ec {
        hostHash := 0;
        return ReadFailed;
      }
      return AwaitResponse;
    }

    /** `doneRead`: `status` and `body` are the parsed response, `keepAlive` its
        `keep_alive()`, and `names` the names of its fields. */
    method DoneRead(ec: bool, status: int, body: string, keepAlive: bool, names: seq<string>,
                    store: ReplyStore)
      modifies this, store
      ensures State() == DoneReadStep(old(State()), ec, keepAlive, names)
      ensures ec ==> store.replies == old(store.replies)
      ensures !ec ==> store.replies == Emplace(old(store.replies), callerId, Reply(status, body))
    {
      if ec {
        hostHash := 0;
        return;
      }
      var wants := keepAlive || !HasField(names, CloseName1) || !HasField(names, CloseName2);
      store.Put(callerId, Reply(status, body));
      busy := false;
      totalread := 0;
      totalConsecutiveReads := 0;
      if wants {
        waits := waits + 1;
      }
    }

    /** The keep-alive wait's handler. */
    method KeepaliveExpired()
      requires waits > 0
      modifies this
      ensures State() == ExpireStep(old(State()))
    {
      hostHash := 0;
      waits := waits - 1;
    }
  }

  // ---------------------------------------------------------------------------
  // Slot selection

  /** The first index holding `v`. */
  function FirstIndex(hashes: seq<word>, v: word): (r: Option<nat>)
    ensures r.Some? ==> r.value < |hashes| && hashes[r.value] == v
                        && forall k :: 0 <= k < r.value ==> hashes[k] != v
    ensures r.None? ==> v !in hashes
  {
    if |hashes| == 0 then None
    else if hashes[0] == v then Some(0)
    else match FirstIndex(hashes[1..], v)
      case Some(k) => Some(k + 1)
      case None => None
  }

  /** The first occurrence is where `v` occurs with no `v` before it. */
  lemma FirstIndexAt(hashes: seq<word>, v: word, i: nat)
    requires i < |hashes| && hashes[i] == v && forall k :: 0 <= k < i ==> hashes[k] != v
    ensures FirstIndex(hashes, v) == Some(i)
  {
  }

  /** The slot `request_internal` picks: the first whose fingerprint equals the key, else
      the first free one, else none. */
  datatype Selection = Match(i: nat) | Free(i: nat) | NoSlot

  function Choose(hashes: seq<word>, key: word): (sel: Selection)
    ensures sel.Match? ==> FirstIndex(hashes, key) == Some(sel.i)
    ensures sel.Free? ==> key !in hashes && FirstIndex(hashes, 0) == Some(sel.i)
    ensures sel.NoSlot? <==> key !in hashes && 0 !in hashes
  {
    match FirstIndex(hashes, key)
    case Some(i) => Match(i)
    case None =>
      match FirstIndex(hashes, 0)
      case Some(i) => Free(i)
      case None => NoSlot
  }

  /** A host whose key hashes to 0 matches the first free slot, which is then reused
      with `nextRequest` although it was never established. */
  lemma ZeroKeyTakesFreeSlot(hashes: seq<word>)
    requires 0 in hashes
    ensures Choose(hashes, 0) == Match(FirstIndex(hashes, 0).value)
  {
  }

  /** What a request did. */
  datatype Dispatch =
    | Reused(i: nat, written: bool)
    | Rejected(i: nat)
    | SslSetupFailed(i: nat)
    | Established(i: nat, next: Next, sent: seq<seq<byte>>)
    | Exhausted

  /** Pairwise different slots. */
  predicate Distinct(conns: seq<Connection>)
  {
    forall i, j :: 0 <= i < j < |conns| ==> conns[i] != conns[j]
  }

  function Hashes(conns: seq<Connection>): (h: seq<word>)
    reads conns
    ensures |h| == |conns| && forall i :: 0 <= i < |conns| ==> h[i] == conns[i].hostHash
  {
    if |conns| == 0 then [] else [conns[0].hostHash] + Hashes(conns[1..])
  }

  /** The connection pool. */
  class ConnectionPool {
    const connections: seq<Connection>
    const connectionsSSL: seq<Connection>
    const store: ReplyStore

    /** One plain slot and five TLS slots, all different. */
    predicate Valid()
    {
      && |connections| == 1 && |connectionsSSL| == 5 && Distinct(connectionsSSL)
      && connections[0] !in connectionsSSL
      && !connections[0].tls && (forall c :: c in connectionsSSL ==> c.tls)
    }

    constructor()
      ensures Valid() && fresh(store) && store.replies == map[]
      ensures forall c :: c in connections + connectionsSSL ==> fresh(c) && c.State() == Initial
    {
      var plain := NewSlots(1, false);
      var secure := NewSlots(5, true);
      connections := plain;
      connectionsSSL := secure;
      store := new ReplyStore();
      new;
      assert plain[0] in plain;
    }

    /** `request_internal<sni, socks>` on the slots `conns`. `sslOk` is the result of
        setting the server name; `sockOpen` whether a reused slot's socket is open. */
    method RequestInternal(conns: seq<Connection>, sni: bool, socks: bool, c: Call,
                           hash: string -> word, sslOk: bool, sockOpen: bool, p: Proxy)
      returns (d: Dispatch)
      requires Distinct(conns) && WellFormedProxy(p)
      modifies conns
      ensures var sel := Choose(old(Hashes(conns)), hash(LookupKey(c.site)));
              match sel
              case NoSlot => d == Exhausted
              case Match(i) =>
                if old(conns[i].busy) then d == Rejected(i) && conns[i].State() == old(conns[i].State())
                else d == Reused(i, sockOpen)
                     && conns[i].State() == NextRequestStep(old(conns[i].State()).(busy := true), c)
              case Free(i) =>
                if sni && !sslOk then d == SslSetupFailed(i) && conns[i].State() == old(conns[i].State())
                else
                  var r := EstablishNext(old(conns[i].State()), conns[i].tls, socks, c, p);
                  d == Established(i, r.0, r.1)
                  && conns[i].State() == EstablishSlot(old(conns[i].State()), conns[i].tls, c, hash)
      ensures forall j :: 0 <= j < |conns| && (d.Exhausted? || j != d.i) ==>
                conns[j].State() == old(conns[j].State())
    {
      var key := hash(LookupKey(c.site));
      var sel := Select(conns, key);
      match sel
      case NoSlot =>
        return Exhausted;
      case Match(i) =>
        var s := conns[i].Acquire();
        if s == AvailButNoMore {
          var written := conns[i].NextRequest(c, sockOpen);
          return Reused(i, written);
        }
        return Rejected(i);
      case Free(i) =>
        if sni && !sslOk {
          return SslSetupFailed(i);
        }
        var next, sent := conns[i].Establish(socks, c, hash, p);
        return Established(i, next, sent);
    }

    /** `Pool::request`: plain slots, no server name, no proxy. */
    method Request(c: Call, hash: string -> word, sockOpen: bool) returns (d: Dispatch)
      requires Valid()
      modifies connections
      ensures d.Established? ==> d.next.Resolve? && d.sent == []
      ensures !d.SslSetupFailed?
    {
      d := RequestInternal(connections, false, false, c, hash, true, sockOpen, Proxy(false, None, None));
    }

    /** `Pool::requestSSL`: TLS slots with the server name set. */
    method RequestSSL(c: Call, hash: string -> word, sslOk: bool, sockOpen: bool) returns (d: Dispatch)
      requires Valid()
      modifies connectionsSSL
      ensures d.Established? ==> d.next.Resolve? && d.sent == []
      ensures d.SslSetupFailed? ==> !sslOk
    {
      d := RequestInternal(connectionsSSL, true, false, c, hash, sslOk, sockOpen, Proxy(false, None, None));
    }

    /** `Pool::requestSocks5`: plain slots through the proxy. */
    method RequestSocks5(c: Call, hash: string -> word, sockOpen: bool, p: Proxy) returns (d: Dispatch)
      requires Valid() && WellFormedProxy(p)
      modifies connections
      ensures d.Established? ==> !d.next.Resolve? && !d.next.Handshake?
      ensures !d.SslSetupFailed?
    {
      d := RequestInternal(connections, false, true, c, hash, true, sockOpen, p);
    }

    /** `Pool::requestSocks5SSL` dispatches as `<false, false>`: TLS slots, but neither
        the server name nor the proxy; the slot resolves the host directly. */
    method RequestSocks5SSL(c: Call, hash: string -> word, sockOpen: bool, p: Proxy) returns (d: Dispatch)
      requires Valid() && WellFormedProxy(p)
      modifies connectionsSSL
      ensures d.Established? ==> d.next.Resolve? && d.sent == []
      ensures !d.SslSetupFailed?
    {
      d := RequestInternal(connectionsSSL, false, false, c, hash, false, sockOpen, p);
    }
  }

  /** The two scans of `request_internal`. */
  method Select(conns: seq<Connection>, key: word) returns (sel: Selection)
    ensures sel == Choose(Hashes(conns), key)
    ensures sel.Match? || sel.Free? ==> sel.i < |conns|
  {
    ghost var hashes := Hashes(conns);
    var i := 0;
    while i < |conns|
      invariant 0 <= i <= |conns|
      invariant forall k :: 0 <= k < i ==> hashes[k] != key
    {
      if conns[i].hostHash == key {
        assert FirstIndex(hashes, key) == Some(i);
        return Match(i);
      }
      i := i + 1;
    }
    i := 0;
    while i < |conns|
      invariant 0 <= i <= |conns|
      invariant forall k :: 0 <= k < i ==> hashes[k] != 0
    {
      if conns[i].hostHash == 0 {
        assert FirstIndex(hashes, 0) == Some(i);
        return Free(i);
      }
      i := i + 1;
    }
    return NoSlot;
  }

  /** NewSlots: `n` fresh, pairwise different slots in their initial state. */
  method NewSlots(n: nat, tls: bool) returns (s: seq<Connection>)
    ensures |s| == n && Distinct(s)
    ensures forall c :: c in s ==> fresh(c) && c.tls == tls && c.State() == Initial
  {
    s := [];
    while |s| < n
      invariant |s| <= n && Distinct(s)
      invariant forall c :: c in s ==> fresh(c) && c.tls == tls && c.State() == Initial
    {
      var c := new Connection(tls);
      s := s + [c];
    }
  }

  // ---------------------------------------------------------------------------
  // Properties of the slot life cycle

  /** `establish` always leaves the slot busy and fingerprinted with the host including
      its port, and a site without userinfo keeps the slot's previous userinfo. */
  lemma EstablishClaims(s: Slot, tls: bool, c: Call, hash: string -> word)
    ensures var t := EstablishSlot(s, tls, c, hash);
            t.busy && t.callerId == c.callerId
            && t.hostHash == hash(SplitUserinfo(c.site, s.userpw).1)
            && HostField in t.req.fields && t.req.fields[HostField] == SplitUserinfo(c.site, s.userpw).1
            && (!HasUserinfo(c.site) ==> t.userpw == s.userpw && t.hostHash == hash(c.site))
  {
    SplitUserinfoParts(c.site, s.userpw);
    SetupWrites(s.req, c, SplitUserinfo(c.site, s.userpw).1, SplitUserinfo(c.site, s.userpw).0);
  }

  /** Credentials outlive the host: a slot re-established for a site without userinfo
      sends the previous site's Basic credentials. */
  lemma StaleCredentials(s: Slot, tls: bool, c: Call, hash: string -> word)
    requires !HasUserinfo(c.site) && s.userpw != []
    ensures var f := EstablishSlot(s, tls, c, hash).req.fields;
            AuthorizationField in f && f[AuthorizationField] == BasicAuth(s.userpw)
  {
    SplitUserinfoParts(c.site, s.userpw);
    SetupWrites(s.req, c, c.site, s.userpw);
  }

  /** The first request's Host field carries the port; `nextRequest` uses the host with the
      port split off. */
  lemma HostFieldLosesPort(s: Slot, tls: bool, c: Call, c2: Call, hash: string -> word)
    requires !HasUserinfo(c.site) && HasPort(c.site)
    ensures var t := EstablishSlot(s, tls, c, hash);
            var f := NextRequestStep(t, c2).req.fields;
            && HostField in t.req.fields && t.req.fields[HostField] == c.site
            && HostField in f && f[HostField] == SplitPort(c.site, tls).0 != c.site
  {
    SplitUserinfoParts(c.site, s.userpw);
    SplitPortParts(c.site, tls);
    var t := EstablishSlot(s, tls, c, hash);
    SetupWrites(s.req, c, c.site, s.userpw);
    SetupWrites(t.req, c2, t.host, t.userpw);
  }

  /** A failed SOCKS5 exchange leaves the slot busy under the host's fingerprint: from
      then on every request for that site selects the slot and is rejected. */
  lemma SocksFailureHoldsSlot(hashes: seq<word>, i: nat, s: Slot, c: Call, hash: string -> word, p: Proxy)
    requires WellFormedProxy(p) && i < |hashes|
    requires |c.site| > 0 && c.site[0] != '@'
    requires EstablishNext(s, false, true, c, p).0 == Halt
    requires forall k :: 0 <= k < i ==> hashes[k] != hash(LookupKey(c.site))
    ensures var t := EstablishSlot(s, false, c, hash);
            t.busy && Choose(hashes[i := t.hostHash], hash(LookupKey(c.site))) == Match(i)
            && TestAndSet(t.busy).0 == NotAvail
  {
    var t := EstablishSlot(s, false, c, hash);
    var key := hash(LookupKey(c.site));
    assert t.busy && t.hostHash == key by {
      EstablishClaims(s, false, c, hash);
      KeyIsEstablishedHost(c.site, s.userpw);
    }
    FirstIndexAt(hashes[i := t.hostHash], key, i);
  }

  /** A TLS slot whose TCP connect fails keeps the host's fingerprint and stays busy, as
      after a failed SOCKS5 exchange: every later request for that site selects the slot
      and is rejected. */
  lemma TlsConnectFailureHoldsSlot(hashes: seq<word>, i: nat, s: Slot, c: Call, hash: string -> word)
    requires i < |hashes|
    requires |c.site| > 0 && c.site[0] != '@'
    requires forall k :: 0 <= k < i ==> hashes[k] != hash(LookupKey(c.site))
    ensures var t := ConnectFailedStep(EstablishSlot(s, true, c, hash), true, TcpConnectFailed);
            t.busy && t.hostHash == hash(LookupKey(c.site))
            && Choose(hashes[i := t.hostHash], hash(LookupKey(c.site))) == Match(i)
            && TestAndSet(t.busy).0 == NotAvail
  {
    var t := EstablishSlot(s, true, c, hash);
    var key := hash(LookupKey(c.site));
    assert t.busy && t.hostHash == key by {
      EstablishClaims(s, true, c, hash);
      KeyIsEstablishedHost(c.site, s.userpw);
    }
    FirstIndexAt(hashes[i := t.hostHash], key, i);
  }

  /** Every other failure after `establish` clears the fingerprint but keeps the slot
      busy, so the next request for any host can take the slot over. */
  lemma ConnectFailureFrees(s: Slot, tls: bool, e: ConnectFailure, hashes: seq<word>, i: nat, key: word)
    requires e.HandshakeFailed? ==> tls
    requires !(tls && e.TcpConnectFailed?) && i < |hashes|
    ensures var t := ConnectFailedStep(s, tls, e);
            t.hostHash == 0 && t.busy == s.busy
            && Choose(hashes[i := t.hostHash], key) != NoSlot
  {
    assert hashes[i := 0][i] == 0;
  }

  /** The error paths of `read` and `doneRead` clear the fingerprint but never release
      the slot; a capped `read` changes neither. */
  lemma ErrorsNeverRelease(s: Slot, n: nat, keepAlive: bool, names: seq<string>)
    ensures ReadStep(s, true, n).1 == ReadFailed ==> ReadStep(s, true, n).0.hostHash == 0
    ensures ReadStep(s, true, n).0.busy == s.busy
    ensures ReadStep(s, false, n).0.busy == s.busy
    ensures ReadStep(s, true, n).1 == Capped ==> ReadStep(s, true, n).0.hostHash == s.hostHash
    ensures DoneReadStep(s, true, keepAlive, names) == s.(hostHash := 0)
  {
  }

  /** The read counters only grow between two successful `doneRead`s, so the 17th read
      without one is capped whatever it carries. */
  lemma {:induction false} ReadsAreCapped(s: Slot, ns: seq<nat>)
    requires |ns| > 0 && |ns| + s.totalConsecutiveReads > MaxConsecutiveReads
    ensures Reads(s, ns).1 == Capped
    decreases |ns|
  {
    var t := ReadStep(s, false, ns[0]);
    if |ns| > 1 && t.1 != Capped {
      ReadsAreCapped(t.0, ns[1..]);
    }
  }

  /** Reads whose writes all succeeded, one per element of `ns`, until one is capped. */
  function Reads(s: Slot, ns: seq<nat>): (r: (Slot, ReadOutcome))
    requires |ns| > 0
    ensures r.1 == Capped || r.1 == AwaitResponse
    decreases |ns|
  {
    var t := ReadStep(s, false, ns[0]);
    if |ns| == 1 || t.1 == Capped then t else Reads(t.0, ns[1..])
  }

  /** A successful `doneRead` releases the slot, resets both counters and keeps its
      fingerprint; the slot is selected again for its host and acquired. */
  lemma DoneReadReleases(s: Slot, keepAlive: bool, names: seq<string>)
    ensures var t := DoneReadStep(s, false, keepAlive, names);
            !t.busy && t.totalread == 0 && t.totalConsecutiveReads == 0 && t.hostHash == s.hostHash
            && TestAndSet(t.busy).0 == AvailButNoMore
            && (t.waits == s.waits + 1 <==> WantsKeepalive(keepAlive, names))
  {
  }

  /** The two names differ only in case, so the two lookups always agree: only a
      response that is not keep-alive and has a field named `onnection-close`, in any
      case, goes without a wait. */
  lemma KeepaliveUnlessCloseField(keepAlive: bool, names: seq<string>)
    ensures HasField(names, CloseName1) == HasField(names, CloseName2)
    ensures !WantsKeepalive(keepAlive, names)
            <==> !keepAlive && exists k :: 0 <= k < |names| && ToLower(names[k]) == "onnection-close"
  {
    assert ToLower(CloseName1) == ToLower(CloseName2) == "onnection-close";
  }

  /** No field of a real response is named `onnection-close`: the `Connection` field
      itself is one character longer. So a response without a field name of 15
      characters always arms the wait, `Connection: close` included. */
  lemma StandardCloseKeepsAlive(keepAlive: bool, names: seq<string>)
    requires forall k :: 0 <= k < |names| ==> |names[k]| != |CloseName1|
    ensures WantsKeepalive(keepAlive, names)
  {
  }

  /** Every armed wait frees the slot's fingerprint when its handler runs, so a released
      slot becomes free for any host. */
  lemma ExpiryFrees(s: Slot, hashes: seq<word>, i: nat, key: word)
    requires !s.busy && s.waits > 0 && i < |hashes|
    ensures ExpireStep(s).hostHash == 0 && !ExpireStep(s).busy
    ensures Choose(hashes[i := ExpireStep(s).hostHash], key) != NoSlot
  {
    assert hashes[i := 0][i] == 0;
  }
}
