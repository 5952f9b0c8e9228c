/**
 * The inbound HTTP session (`HttpSession` in src_server/tcp_server.cpp): one object per
 * accepted connection, driven by two completion events, a finished read and a finished
 * write. A read is classified by a method sniff on the first bytes of the zero-filled
 * read buffer and a four-state CR LF CR LF recogniser whose state survives from read to
 * read; the header bytes and the rest of the read are split apart, and a GET is answered,
 * a POST is answered once its body is complete, and anything else waits for the next read.
 * A finished write either writes again, closes, or resets the session for the next request.
 *
 * The page's virtual hooks (`found`, `findRequestedPage`, `placeChunk`, `getType`,
 * `delivered`) and the connection count are parameters of the events; `submitBody` is
 * returned as the body handed over.
 */
module Session {
  import opened Wrappers
  import opened Text
  import opened Bits
  import opened Headers
  import opened Guests
  import opened Response

  /** The classification of a read. */
  datatype Method = GET | POST | HEAD | BAD | BODY | INDETERMINATE

  /** How the session goes on after an event: close, write, or read again. */
  datatype Next = Close | Write | Read

  /** The error code a read completes with; only end-of-stream and unexpected errors
      stop the handler. */
  datatype ReadStatus = ReadOk | EndOfStream | TimedOut | Aborted | Eof | ReadFailed

  predicate Fatal(status: ReadStatus)
  {
    status == EndOfStream || status == ReadFailed
  }

  /** The size of the read buffer. */
  const BufferSize: nat := 4096

  /** Writing more than 8 MiB on one session closes it. */
  const WriteCap: nat := 8 * 1024 * 1024

  function Zeros(k: nat): (z: seq<char>)
    ensures |z| == k && forall i :: 0 <= i < k ==> z[i] == '\0'
  {
    seq(k, i => '\0')
  }

  /** The buffer after a read of `data` into the zero-filled buffer. */
  function Padded(data: string): (b: seq<char>)
    requires |data| <= BufferSize
    ensures |b| == BufferSize && b[..|data|] == data
  {
    data + Zeros(BufferSize - |data|)
  }

  // ---------------------------------------------------------------------------
  // The CR LF CR LF recogniser

  /** The recogniser's next state after a byte that does not end the header: CR from 0,
      LF from 1 and CR from 2 advance, and every other byte, CR in states 1 and 3
      included, falls back to 0. */
  function Step(e: int, c: char): int
  {
    if c == '\r' && e == 0 then 1
    else if c == '\n' && e == 1 then 2
    else if c == '\r' && e == 2 then 3
    else 0
  }

  /** An LF in state 3 ends the header. */
  predicate Ends(e: int, c: char)
  {
    c == '\n' && e == 3
  }

  /** The state after scanning `s` from state `e`. */
  function Run(e: int, s: string): (r: int)
    requires 0 <= e <= 3
    ensures 0 <= r <= 3
    decreases |s|
  {
    if s == [] then e else Step(Run(e, s[..|s| - 1]), s[|s| - 1])
  }

  /** The first index at or after `i` whose byte ends the header, scanning from `e`. */
  function EndFrom(e: int, s: string, i: nat): (r: Option<nat>)
    requires 0 <= e <= 3 && i <= |s|
    ensures r.Some? ==> i <= r.value < |s|
    decreases |s| - i
  {
    if i == |s| then None
    else if Ends(Run(e, s[..i]), s[i]) then Some(i)
    else EndFrom(e, s, i + 1)
  }

  /** Where the header ends in `s`, scanning from state `e`. */
  function FirstEnd(e: int, s: string): Option<nat>
    requires 0 <= e <= 3
  {
    EndFrom(e, s, 0)
  }

  /** The bytes the scanner counts into `headerLength`: all of them, or those before the
      final LF. */
  function Consumed(e: int, s: string): (k: nat)
    requires 0 <= e <= 3
    ensures k <= |s|
  {
    match FirstEnd(e, s)
    case Some(t) => t
    case None => |s|
  }

  // ---------------------------------------------------------------------------
  // `parse`

  /** The method named by the first bytes of the buffer: GET needs three bytes, POST and
      HEAD four. */
  function Sniff(b: seq<char>): Method
    requires |b| >= 4
  {
    if b[0] == 'G' && b[1] == 'E' && b[2] == 'T' then GET
    else if b[0] == 'P' && b[1] == 'O' && b[2] == 'S' && b[3] == 'T' then POST
    else if b[0] == 'H' && b[1] == 'E' && b[2] == 'A' && b[3] == 'D' then HEAD
    else INDETERMINATE
  }

  /** What `parse` returns for the first `n` bytes of buffer `b` from scanner state `e`:
      BAD without scanning when the sniff fails in the header phase, the sniffed method
      once the header ends, INDETERMINATE while it has not. */
  function ParseOutcome(b: seq<char>, n: nat, e: int, body: bool): Method
    requires |b| >= 4 && n <= |b| && 0 <= e <= 3
  {
    var m := Sniff(b);
    if m == INDETERMINATE && !body then BAD
    else if FirstEnd(e, b[..n]).Some? then m
    else INDETERMINATE
  }

  /** How many bytes of a header-phase read go to the header: none when the sniff fails,
      otherwise every byte the scanner counted. */
  function HeaderPart(b: seq<char>, n: nat, e: int): (k: nat)
    requires |b| >= 4 && n <= |b| && 0 <= e <= 3
    ensures k <= n
  {
    if Sniff(b) == INDETERMINATE then 0 else Consumed(e, b[..n])
  }

  /** The scanner state a header-phase read leaves behind: untouched when the sniff
      fails, 3 once the header ended (it is not cleared), the running state otherwise. */
  function StateAfter(b: seq<char>, n: nat, e: int): int
    requires |b| >= 4 && n <= |b| && 0 <= e <= 3
  {
    if Sniff(b) == INDETERMINATE then e
    else if FirstEnd(e, b[..n]).Some? then 3
    else Run(e, b[..n])
  }

  /** Where a read splits into header bytes and body bytes: nothing goes to the header
      in the body phase. */
  function Cut(b: seq<char>, n: nat, e: int, body: bool): (k: nat)
    requires |b| >= 4 && n <= |b| && 0 <= e <= 3
    ensures k <= n
  {
    if body then 0 else HeaderPart(b, n, e)
  }

  /** How the read handler classifies a read: BODY in the body phase, else `parse`. */
  function Classify(b: seq<char>, n: nat, e: int, body: bool): Method
    requires |b| >= 4 && n <= |b| && 0 <= e <= 3
  {
    if body then BODY else ParseOutcome(b, n, e, false)
  }

  /** Which way the handler goes for a read classified as `m`, given the settled
      `bodyLength` and the size of `receivedBody`: a GET is answered; a POST when the body
      holds one byte more than the length or the length is below 2; a BODY read when the
      body holds one byte more than the length; anything else reads again. */
  function Decide(m: Method, bodyLength: int, received: nat): Next
  {
    if m == GET then Write
    else if m == POST then (if bodyLength + 1 == received || bodyLength < 2 then Write else Read)
    else if m == BODY then (if bodyLength + 1 == received then Write else Read)
    else Read
  }

  /** The registry after the GET/POST preamble: `restoreUser`, then keep-alive switched
      on for the session's record when it is off and the header asks for it. */
  function Admitted(g: seq<Guest>, cur: nat, header: string, hash: string -> word): (h: seq<Guest>)
    requires cur < |g| && |header| + 4 < SIZE_MOD
    ensures |h| == |g|
  {
    var r := Restored(g, cur, header, hash);
    if !r[cur].keepalive && CheckKeepalive(header) then r[cur := r[cur].(keepalive := true)] else r
  }

  /** Which way a finished write goes: past the 8 MiB cap, on an error or after
      `connection; close` the session closes; an unfinished page writes again; a
      finished page waits for the next request on a keep-alive guest and closes otherwise. */
  function AfterWrite(total: nat, failed: bool, close: bool, delivered: bool, keepalive: bool): Next
  {
    if total > WriteCap || failed || close then Close
    else if !delivered then Write
    else if keepalive then Read
    else Close
  }

  /** The part of a session a branch of the read handler may change, as it was before
      the branch: the header, the registry's records, `connectionclose`, `bodyLength`,
      `standby`, `out`, the buffer and the page's two flags. */
  datatype Before = Before(header: string, guests: seq<Guest>, close: bool, bodyLength: int,
                           standby: nat, out: string, buffer: seq<char>,
                           sendHeader: bool, done: bool)

  // ---------------------------------------------------------------------------
  // The session

  class HttpSession {
    var buffer: array<char>
    var totalReceived: nat
    var totalDelivered: nat
    var body: bool
    var endrequest: int
    var headerLength: int
    var bodyLength: int
    var standby: nat
    var httpCode: int
    var receivedHeader: string
    var receivedBody: string
    var out: string
    var connectionclose: bool
    /** The seconds of the last `expires_after` on the stream. */
    var expiry: nat
    var page: Page
    var registry: Registry
    /** The session's guest, as an index into the registry. */
    var guest: nat

    ghost predicate Valid()
      reads this, registry
    {
      buffer.Length == BufferSize && 0 <= endrequest <= 3 && headerLength == 0
      && guest < |registry.guests|
    }

    /** The reception state a new or reset session starts from. */
    ghost predicate Initial()
      reads this
    {
      totalReceived == 0 && totalDelivered == 0 && !body && endrequest == 0
      && headerLength == 0 && bodyLength == -1 && httpCode == 200
      && receivedHeader == [] && receivedBody == []
    }

    ghost function Snapshot(): Before
      reads this, registry, buffer, page
    {
      Before(receivedHeader, registry.guests, connectionclose, bodyLength, standby, out,
             buffer[..], page.sendHeader, page.done)
    }

    /** A write of the page's next piece from the state `b`: the write expiry, `out` as
        the page writes it for the guest's keep-alive and the status, the page's flags
        advanced, and `standby` and the buffer as they were. */
    ghost predicate Wrote(connected: nat, chunk: string, mime: Mime, b: Before)
      reads this, registry, buffer, page
      requires guest < |registry.guests|
    {
      expiry == WriteTimeout(connected)
      && out == Output(b.sendHeader, chunk, mime, registry.guests[guest].keepalive, httpCode)
      && page.Advanced(b.sendHeader, b.done, chunk)
      && standby == b.standby && buffer[..] == b.buffer
    }

    /** A fresh read from the state `b`: the buffer zero-filled, the read expiry set from
        the old `standby`, which drops to 0, and `out` and the page as they were. */
    ghost predicate ReadAgain(connected: nat, b: Before)
      reads this, buffer, page
    {
      expiry == ReadTimeout(connected, b.standby) && standby == 0
      && buffer[..] == Zeros(BufferSize)
      && out == b.out && page.sendHeader == b.sendHeader && page.done == b.done
    }

    /** What the branch for a read classified as `m` leaves behind, from the state `b`:
        GET and POST lower-case the header, admit the guest and note `connection; close`;
        a POST settles `bodyLength` from the header the first time; the way on is
        `Decide`, a body is handed over on a POST or BODY write, the body phase holds
        after a BODY read or an unanswered POST and ends otherwise, and the session then
        writes or reads again. */
    ghost predicate Dispatched(m: Method, next: Next, submitted: Option<string>, connected: nat,
                               chunk: string, mime: Mime, hash: string -> word, b: Before)
      reads this, registry, buffer, page
      requires guest < |registry.guests| && guest < |b.guests| && |b.header| + 4 < SIZE_MOD
    {
      var admitted := m == GET || m == POST;
      && receivedHeader == (if admitted then ToLower(b.header) else b.header)
      && registry.guests == (if admitted then Admitted(b.guests, guest, receivedHeader, hash) else b.guests)
      && connectionclose == (if admitted then CheckClose(receivedHeader) else b.close)
      && bodyLength == (if m == POST && b.bodyLength == -1 then CheckContentLength(receivedHeader)
                        else b.bodyLength)
      && next == Decide(m, bodyLength, |receivedBody|)
      && submitted == (if next == Write && m != GET then Some(receivedBody) else None)
      && body == (m == BODY || (m == POST && next == Read))
      && (next == Write ==> Wrote(connected, chunk, mime, b))
      && (next == Read ==> ReadAgain(connected, b))
    }

    constructor(registry: Registry, guest: nat, page: Page)
      requires guest < |registry.guests|
      ensures Valid() && Initial() && standby == 1 && !connectionclose
      ensures this.registry == registry && this.guest == guest && this.page == page
      ensures fresh(buffer) && buffer[..] == Zeros(BufferSize)
    {
      buffer := new char[BufferSize](i => '\0');
      totalReceived, totalDelivered := 0, 0;
      body, endrequest, headerLength, bodyLength := false, 0, 0, -1;
      standby, httpCode := 1, 200;
      receivedHeader, receivedBody, out := [], [], [];
      connectionclose := false;
      expiry := 0;
      this.page, this.registry, this.guest := page, registry, guest;
    }

    /** `parse` over the first `n` bytes of the buffer: the sniff, then the recogniser,
        which counts every byte it consumes into `headerLength` except the LF that ends
        the header. */
    method Parse(n: nat) returns (m: Method)
      requires Valid() && n <= BufferSize
      modifies this`endrequest, this`headerLength
      ensures 0 <= endrequest <= 3
      ensures m == ParseOutcome(old(buffer[..]), n, old(endrequest), body)
      ensures !body ==>
                headerLength == HeaderPart(old(buffer[..]), n, old(endrequest))
                && endrequest == StateAfter(old(buffer[..]), n, old(endrequest))
      ensures body ==>
                headerLength == Consumed(old(endrequest), old(buffer[..])[..n])
                && endrequest == if FirstEnd(old(endrequest), old(buffer[..])[..n]).Some? then 3
                                 else Run(old(endrequest), old(buffer[..])[..n])
    {
      ghost var b := buffer[..];
      var result := INDETERMINATE;
      if buffer[0] == 'G' && buffer[1] == 'E' && buffer[2] == 'T' {
        result := GET;
      } else if buffer[0] == 'P' && buffer[1] == 'O' && buffer[2] == 'S' && buffer[3] == 'T' {
        result := POST;
      } else if buffer[0] == 'H' && buffer[1] == 'E' && buffer[2] == 'A' && buffer[3] == 'D' {
        result := HEAD;
      } else if !body {
        return BAD;
      }
      assert result == Sniff(b);
      ghost var e0 := endrequest;
      ghost var s := b[..n];
      var i := 0;
      while i < n
        invariant 0 <= i <= n && headerLength == i
        invariant endrequest == Run(e0, s[..i])
        invariant EndFrom(e0, s, 0) == EndFrom(e0, s, i)
      {
        var input := buffer[i];
        ScanAt(e0, s, i);
        if input == '\r' && endrequest == 0 {
          endrequest := 1;
        } else if input == '\n' && endrequest == 1 {
          endrequest := 2;
        } else if input == '\r' && endrequest == 2 {
          endrequest := 3;
        } else if input == '\n' && endrequest == 3 {
          return result;
        } else {
          endrequest := 0;
        }
        headerLength := headerLength + 1;
        i := i + 1;
      }
      assert s[..n] == s;
      return INDETERMINATE;
    }

    /** The header phase of the read handler: the bytes `parse` counted go to
        `receivedHeader` and the rest, starting with the header's final LF, to
        `receivedBody`; a header longer than 128 bytes on a page not yet found is looked
        up, and a failed lookup sets the status to 404. */
    method TakeHeader(n: nat, found: bool, locate: string -> bool) returns (m: Method)
      requires Valid() && !body && n <= BufferSize && |receivedHeader| + n + 4 < SIZE_MOD
      modifies this`endrequest, this`headerLength, this`receivedHeader, this`receivedBody, this`httpCode
      ensures Valid()
      ensures m == ParseOutcome(old(buffer[..]), n, old(endrequest), false)
      ensures endrequest == StateAfter(old(buffer[..]), n, old(endrequest))
      ensures var cut := HeaderPart(old(buffer[..]), n, old(endrequest));
              receivedHeader == old(receivedHeader) + old(buffer[..])[..cut]
              && receivedBody == old(receivedBody) + old(buffer[..])[cut..n]
      ensures httpCode == if !found && |receivedHeader| > 128 && !locate(ExtractUrl(receivedHeader))
                          then 404 else old(httpCode)
    {
      var b := buffer[..];
      m := Parse(n);
      receivedHeader := receivedHeader + b[..headerLength];
      LookUp(found, locate);
      receivedBody := receivedBody + b[headerLength..n];
      headerLength := 0;
    }

    /** `findRequestedPage` is consulted once the header holds more than 128 bytes and
        the page is not yet found; a page it does not know is a 404. */
    method LookUp(found: bool, locate: string -> bool)
      requires |receivedHeader| < NPOS
      modifies this`httpCode
      ensures httpCode == if !found && |receivedHeader| > 128 && !locate(ExtractUrl(receivedHeader))
                          then 404 else old(httpCode)
    {
      if !found && |receivedHeader| > 128 {
        if !locate(ExtractUrl(receivedHeader)) {
          httpCode := 404;
        }
      }
    }

    /** The body phase of the read handler: the whole read goes to `receivedBody`. */
    method TakeBody(n: nat)
      requires n <= buffer.Length
      modifies this`receivedBody
      ensures receivedBody == old(receivedBody) + old(buffer[..])[..n]
    {
      receivedBody := receivedBody + buffer[..n];
    }

    /** The preamble of the GET and POST branches: the header is lower-cased, the user is
        restored from the cookie, keep-alive is switched on (with its longer expiry) when
        the guest lacks it and the header asks for it, and `connection; close` is noted. */
    method Admit(connected: nat, post: bool, hash: string -> word)
      requires Valid() && |receivedHeader| + 4 < SIZE_MOD
      modifies this`receivedHeader, this`expiry, this`connectionclose, registry
      ensures Valid()
      ensures receivedHeader == ToLower(old(receivedHeader))
      ensures registry.guests == Admitted(old(registry.guests), guest, receivedHeader, hash)
      ensures var r := Restored(old(registry.guests), guest, receivedHeader, hash);
              expiry == if !r[guest].keepalive && CheckKeepalive(receivedHeader)
                        then (if post then PostKeepaliveTimeout(connected) else GetKeepaliveTimeout(connected))
                        else old(expiry)
      ensures connectionclose == CheckClose(receivedHeader)
    {
      receivedHeader := ToLower(receivedHeader);
      registry.RestoreUser(guest, receivedHeader, hash);
      if !registry.guests[guest].keepalive && CheckKeepalive(receivedHeader) {
        registry.SetKeepalive(guest);
        expiry := if post then PostKeepaliveTimeout(connected) else GetKeepaliveTimeout(connected);
      }
      connectionclose := CheckClose(receivedHeader);
    }

    /** `doReadSome`: the buffer is zero-filled, the read expiry is set from `standby`,
        which then drops to 0. */
    method DoReadSome(connected: nat)
      requires Valid()
      modifies buffer, this`expiry, this`standby
      ensures buffer[..] == Zeros(BufferSize)
      ensures expiry == ReadTimeout(connected, old(standby)) && standby == 0
    {
      var i := 0;
      while i < buffer.Length
        invariant 0 <= i <= buffer.Length
        invariant forall k :: 0 <= k < i ==> buffer[k] == '\0'
        invariant standby == old(standby)
      {
        buffer[i] := '\0';
        i := i + 1;
      }
      expiry := ReadTimeout(connected, standby);
      standby := 0;
    }

    /** The read itself: the bytes received land at the front of the buffer. */
    method Fill(data: string)
      requires Valid() && |data| <= BufferSize
      modifies buffer
      ensures buffer[..] == data + old(buffer[..])[|data|..]
    {
      var i := 0;
      while i < |data|
        invariant 0 <= i <= |data|
        invariant forall k :: 0 <= k < i ==> buffer[k] == data[k]
        invariant forall k :: i <= k < buffer.Length ==> buffer[k] == old(buffer[k])
      {
        buffer[i] := data[i];
        i := i + 1;
      }
    }

    /** `doWrite`: the write expiry is set and the page's next piece goes to `out`. */
    method DoWrite(connected: nat, chunk: string, mime: Mime)
      requires Valid()
      modifies this`expiry, this`out, page
      ensures expiry == WriteTimeout(connected)
      ensures out == Output(old(page.sendHeader), chunk, mime, registry.guests[guest].keepalive, httpCode)
      ensures page.Advanced(old(page.sendHeader), old(page.done), chunk)
    {
      expiry := WriteTimeout(connected);
      out := page.Buffers(chunk, mime, registry.guests[guest].keepalive, httpCode);
    }

    /** The GET branch: the preamble, then the first write; the keep-alive expiry the
        preamble may set is at once replaced by the write expiry. */
    method AnswerGet(connected: nat, chunk: string, mime: Mime, hash: string -> word)
      requires Valid() && |receivedHeader| + 4 < SIZE_MOD
      modifies this`receivedHeader, this`expiry, this`connectionclose, this`out, page, registry
      ensures Valid()
      ensures receivedHeader == ToLower(old(receivedHeader))
      ensures registry.guests == Admitted(old(registry.guests), guest, receivedHeader, hash)
      ensures connectionclose == CheckClose(receivedHeader)
      ensures expiry == WriteTimeout(connected)
      ensures out == Output(old(page.sendHeader), chunk, mime, registry.guests[guest].keepalive, httpCode)
      ensures page.Advanced(old(page.sendHeader), old(page.done), chunk)
    {
      Admit(connected, false, hash);
      DoWrite(connected, chunk, mime);
    }

    /** The preamble of the POST branch: the preamble of GET, then `bodyLength` settled
        from the header the first time the header is complete. */
    method PostPreamble(connected: nat, hash: string -> word)
      requires Valid() && |receivedHeader| + 4 < SIZE_MOD
      modifies this`receivedHeader, this`expiry, this`connectionclose, this`bodyLength, registry
      ensures Valid()
      ensures receivedHeader == ToLower(old(receivedHeader))
      ensures registry.guests == Admitted(old(registry.guests), guest, receivedHeader, hash)
      ensures connectionclose == CheckClose(receivedHeader)
      ensures var r := Restored(old(registry.guests), guest, receivedHeader, hash);
              expiry == if !r[guest].keepalive && CheckKeepalive(receivedHeader)
                        then PostKeepaliveTimeout(connected) else old(expiry)
      ensures bodyLength == if old(bodyLength) == -1 then CheckContentLength(receivedHeader) else old(bodyLength)
    {
      Admit(connected, true, hash);
      SettleLength();
    }

    /** `bodyLength` is read from the header the first time a POST header is complete. */
    method SettleLength()
      requires |receivedHeader| + 4 < SIZE_MOD
      modifies this`bodyLength
      ensures bodyLength == if old(bodyLength) == -1 then CheckContentLength(receivedHeader) else old(bodyLength)
    {
      if bodyLength == -1 {
        bodyLength := CheckContentLength(receivedHeader);
      }
    }

    /** The shared tail of the POST and BODY branches: a complete body is handed to the
        page and the first write follows; otherwise the body phase continues with a
        read. */
    method Respond(connected: nat, chunk: string, mime: Mime, complete: bool)
      returns (next: Next, submitted: Option<string>)
      requires Valid()
      modifies this`expiry, this`out, this`standby, this`body, buffer, page
      ensures Valid()
      ensures next == (if complete then Write else Read)
      ensures submitted == (if complete then Some(receivedBody) else None)
      ensures body == (if complete then old(body) else true)
      ensures complete ==> Wrote(connected, chunk, mime, old(Snapshot()))
      ensures !complete ==> ReadAgain(connected, old(Snapshot()))
    {
      if complete {
        submitted := Some(receivedBody);
        DoWrite(connected, chunk, mime);
        next := Write;
      } else {
        submitted := None;
        body := true;
        DoReadSome(connected);
        next := Read;
      }
    }

    /** The first half of the read handler: the read is counted, then split by `parse`
        in the header phase or taken whole in the body phase. */
    method Receive(n: nat, found: bool, locate: string -> bool) returns (m: Method)
      requires Valid() && n <= BufferSize && |receivedHeader| + n + 4 < SIZE_MOD
      modifies this`totalReceived, this`endrequest, this`headerLength, this`receivedHeader,
               this`receivedBody, this`httpCode
      ensures Valid()
      ensures totalReceived == old(totalReceived) + n
      ensures m == Classify(old(buffer[..]), n, old(endrequest), body)
      ensures receivedBody == old(receivedBody) + old(buffer[..])[Cut(old(buffer[..]), n, old(endrequest), body)..n]
      ensures body ==> receivedHeader == old(receivedHeader) && endrequest == old(endrequest)
                       && httpCode == old(httpCode)
      ensures !body ==> receivedHeader == old(receivedHeader) + old(buffer[..])[..HeaderPart(old(buffer[..]), n, old(endrequest))]
                        && endrequest == StateAfter(old(buffer[..]), n, old(endrequest))
                        && httpCode == if !found && |receivedHeader| > 128 && !locate(ExtractUrl(receivedHeader))
                                       then 404 else old(httpCode)
      ensures Snapshot() == old(Snapshot()).(header := receivedHeader)
    {
      if !body {
        m := TakeHeader(n, found, locate);
      } else {
        TakeBody(n);
        m := BODY;
      }
      totalReceived := totalReceived + n;
    }

    /** The second half of the read handler: the branch for the read's classification
        (HEAD, BAD and INDETERMINATE go back to the header phase and read again). */
    method Dispatch(m: Method, connected: nat, chunk: string, mime: Mime, hash: string -> word)
      returns (next: Next, submitted: Option<string>)
      requires Valid() && |receivedHeader| + 4 < SIZE_MOD && (m == BODY <==> body)
      modifies this`receivedHeader, this`expiry, this`connectionclose, this`bodyLength, this`body,
               this`out, this`standby, buffer, page, registry
      ensures Valid()
      ensures next == Decide(m, bodyLength, |receivedBody|)
      ensures submitted == if next == Write && m != GET then Some(receivedBody) else None
      ensures Dispatched(m, next, submitted, connected, chunk, mime, hash, old(Snapshot()))
    {
      if m == GET {
        AnswerGet(connected, chunk, mime, hash);
        next, submitted := Write, None;
      } else if m == POST {
        next, submitted := AnswerPost(connected, chunk, mime, hash);
      } else if m == BODY {
        next, submitted := ContinueBody(connected, chunk, mime, hash);
      } else {
        body := false;
        DoReadSome(connected);
        next, submitted := Read, None;
      }
    }

    /** The POST branch: the preamble, then the body handed over and the first write
        when the body is complete or the length is below 2, a read in the body phase
        otherwise. */
    method AnswerPost(connected: nat, chunk: string, mime: Mime, hash: string -> word)
      returns (next: Next, submitted: Option<string>)
      requires Valid() && |receivedHeader| + 4 < SIZE_MOD && !body
      modifies this`receivedHeader, this`expiry, this`connectionclose, this`bodyLength, this`body,
               this`out, this`standby, buffer, page, registry
      ensures Valid()
      ensures receivedHeader == ToLower(old(receivedHeader))
      ensures registry.guests == Admitted(old(registry.guests), guest, receivedHeader, hash)
      ensures connectionclose == CheckClose(receivedHeader)
      ensures bodyLength == (if old(bodyLength) == -1 then CheckContentLength(receivedHeader) else old(bodyLength))
      ensures next == Decide(POST, bodyLength, |receivedBody|)
      ensures submitted == (if next == Write then Some(receivedBody) else None)
      ensures body == (next == Read)
      ensures next == Write ==> Wrote(connected, chunk, mime, old(Snapshot()))
      ensures next == Read ==> ReadAgain(connected, old(Snapshot()))
    {
      PostPreamble(connected, hash);
      next, submitted := Respond(connected, chunk, mime, bodyLength + 1 == |receivedBody| || bodyLength < 2);
    }

    /** The BODY branch: the body handed over and the first write once the body holds one
        byte more than the length, another read in the body phase otherwise. */
    method ContinueBody(connected: nat, chunk: string, mime: Mime, hash: string -> word)
      returns (next: Next, submitted: Option<string>)
      requires Valid() && |receivedHeader| + 4 < SIZE_MOD && body
      modifies this`expiry, this`out, this`standby, this`body, buffer, page
      ensures Valid()
      ensures Dispatched(BODY, next, submitted, connected, chunk, mime, hash, old(Snapshot()))
    {
      next, submitted := Respond(connected, chunk, mime, bodyLength + 1 == |receivedBody|);
    }

    /** The read completion handler for a read of `n` bytes: end-of-stream and unexpected
        errors close; otherwise the read is taken in and dispatched. */
    method OnRead(status: ReadStatus, n: nat, connected: nat, found: bool, locate: string -> bool,
                  chunk: string, mime: Mime, hash: string -> word)
      returns (next: Next, submitted: Option<string>)
      requires Valid() && n <= BufferSize && |receivedHeader| + n + 4 < SIZE_MOD
      modifies this`totalReceived, this`endrequest, this`headerLength, this`receivedHeader,
               this`receivedBody, this`httpCode, this`expiry, this`connectionclose, this`bodyLength,
               this`body, this`out, this`standby, buffer, page, registry
      ensures Valid()
      ensures Fatal(status) ==>
                next == Close && submitted == None
                && unchanged(this) && unchanged(buffer) && unchanged(page) && unchanged(registry)
      ensures !Fatal(status) ==>
                var m := Classify(old(buffer[..]), n, old(endrequest), old(body));
                totalReceived == old(totalReceived) + n
                && receivedBody == old(receivedBody) + old(buffer[..])[Cut(old(buffer[..]), n, old(endrequest), old(body))..n]
                && next == Decide(m, bodyLength, |receivedBody|)
                && submitted == if next == Write && m != GET then Some(receivedBody) else None
      ensures !Fatal(status) ==>
                var b0, e0 := old(buffer[..]), old(endrequest);
                var header := if old(body) then old(receivedHeader)
                              else old(receivedHeader) + b0[..HeaderPart(b0, n, e0)];
                && endrequest == (if old(body) then e0 else StateAfter(b0, n, e0))
                && httpCode == (if !old(body) && !found && |header| > 128 && !locate(ExtractUrl(header))
                                then 404 else old(httpCode))
                && Dispatched(Classify(b0, n, e0, old(body)), next, submitted, connected, chunk, mime, hash,
                              old(Snapshot()).(header := header))
    {
      if Fatal(status) {
        return Close, None;
      }
      next, submitted := TakeRead(n, connected, found, locate, chunk, mime, hash);
    }

    /** A read that did not fail: received, then dispatched. */
    method TakeRead(n: nat, connected: nat, found: bool, locate: string -> bool,
                    chunk: string, mime: Mime, hash: string -> word)
      returns (next: Next, submitted: Option<string>)
      requires Valid() && n <= BufferSize && |receivedHeader| + n + 4 < SIZE_MOD
      modifies this`totalReceived, this`endrequest, this`headerLength, this`receivedHeader,
               this`receivedBody, this`httpCode, this`expiry, this`connectionclose, this`bodyLength,
               this`body, this`out, this`standby, buffer, page, registry
      ensures Valid()
      ensures var m := Classify(old(buffer[..]), n, old(endrequest), old(body));
              totalReceived == old(totalReceived) + n
              && receivedBody == old(receivedBody) + old(buffer[..])[Cut(old(buffer[..]), n, old(endrequest), old(body))..n]
              && next == Decide(m, bodyLength, |receivedBody|)
              && submitted == if next == Write && m != GET then Some(receivedBody) else None
      ensures var b0, e0 := old(buffer[..]), old(endrequest);
              var header := if old(body) then old(receivedHeader)
                            else old(receivedHeader) + b0[..HeaderPart(b0, n, e0)];
              && endrequest == (if old(body) then e0 else StateAfter(b0, n, e0))
              && httpCode == (if !old(body) && !found && |header| > 128 && !locate(ExtractUrl(header))
                              then 404 else old(httpCode))
      ensures var b0, e0 := old(buffer[..]), old(endrequest);
              var header := if old(body) then old(receivedHeader)
                            else old(receivedHeader) + b0[..HeaderPart(b0, n, e0)];
              Dispatched(Classify(b0, n, e0, old(body)), next, submitted, connected, chunk, mime, hash,
                         old(Snapshot()).(header := header))
    {
      ghost var before, b0, e0, body0 := Snapshot(), buffer[..], endrequest, body;
      ghost var header := if body then receivedHeader else receivedHeader + b0[..HeaderPart(b0, n, e0)];
      var m := Receive(n, found, locate);
      assert m == Classify(b0, n, e0, body0);
      assert Snapshot() == before.(header := header);
      next, submitted := Dispatch(m, connected, chunk, mime, hash);
    }

    /** The write completion handler for a write of `n` bytes. */
    method OnWriteDone(failed: bool, n: nat, delivered: bool, connected: nat, chunk: string, mime: Mime)
      returns (next: Next)
      requires Valid()
      modifies this`totalReceived, this`totalDelivered, this`body, this`endrequest, this`headerLength,
               this`bodyLength, this`standby, this`httpCode, this`receivedHeader, this`receivedBody,
               this`expiry, this`out, buffer, page
      ensures Valid()
      ensures next == AfterWrite(old(totalDelivered) + n, failed, old(connectionclose), delivered,
                                 old(registry.guests[guest].keepalive))
      ensures next != Read ==>
                totalDelivered == old(totalDelivered) + n
                && unchanged(this`totalReceived, this`body, this`endrequest, this`headerLength,
                             this`bodyLength, this`httpCode, this`receivedHeader, this`receivedBody)
      ensures next == Close ==> unchanged(this`expiry, this`out, this`standby, buffer, page)
      ensures next == Write ==>
                out == Output(old(page.sendHeader), chunk, mime, registry.guests[guest].keepalive, httpCode)
                && Wrote(connected, chunk, mime, old(Snapshot()))
      ensures next == Read ==>
                Initial() && buffer[..] == Zeros(BufferSize) && expiry == ReadTimeout(connected, 1)
                && standby == 0 && unchanged(this`out, page)
    {
      totalDelivered := totalDelivered + n;
      if totalDelivered > WriteCap || failed || connectionclose {
        return Close;
      }
      if !delivered {
        DoWrite(connected, chunk, mime);
        next := Write;
      } else if registry.guests[guest].keepalive {
        Reset();
        DoReadSome(connected);
        next := Read;
      } else {
        next := Close;
      }
    }

    /** `reset`: the reception state returns to that of a new session. */
    method Reset()
      modifies this`totalReceived, this`totalDelivered, this`body, this`endrequest, this`headerLength,
               this`bodyLength, this`standby, this`httpCode, this`receivedHeader, this`receivedBody
      ensures Initial() && standby == 1
    {
      totalReceived, totalDelivered := 0, 0;
      body, endrequest, headerLength, bodyLength := false, 0, 0, -1;
      standby, httpCode := 1, 200;
      receivedHeader, receivedBody := [], [];
    }
  }

  // ---------------------------------------------------------------------------
  // The recogniser across reads

  /** Scanning one more byte. */
  lemma RunSnoc(e: int, s: string, i: nat)
    requires 0 <= e <= 3 && i < |s|
    ensures Run(e, s[..i + 1]) == Step(Run(e, s[..i]), s[i])
  {
    assert s[..i + 1][..i] == s[..i];
  }

  /** One byte of the scan: the state advances by `Step`, and the first end from `i` is
      `i` itself or the first end from `i + 1`. */
  lemma ScanAt(e: int, s: string, i: nat)
    requires 0 <= e <= 3 && i < |s|
    ensures Run(e, s[..i + 1]) == Step(Run(e, s[..i]), s[i])
    ensures EndFrom(e, s, i) == if Ends(Run(e, s[..i]), s[i]) then Some(i) else EndFrom(e, s, i + 1)
  {
    RunSnoc(e, s, i);
  }

  /** Scanning `a` then `b` is scanning `a + b`: the state is carried from read to read. */
  lemma {:induction false} RunAppend(e: int, a: string, b: string)
    requires 0 <= e <= 3
    ensures Run(e, a + b) == Run(Run(e, a), b)
    decreases |b|
  {
    if b == [] {
      assert a + b == a;
    } else {
      var b' := b[..|b| - 1];
      RunAppend(e, a, b');
      assert (a + b)[..|a + b| - 1] == a + b';
    }
  }

  /** What `EndFrom` finds: an index whose byte ends the header, with no such index
      between `i` and it (or none at all when it finds nothing). */
  lemma {:induction false} EndFromMeans(e: int, s: string, i: nat)
    requires 0 <= e <= 3 && i <= |s|
    ensures var r := EndFrom(e, s, i);
            (r.Some? ==> Ends(Run(e, s[..r.value]), s[r.value]))
            && forall k :: i <= k < |s| && (r.None? || k < r.value) ==> !Ends(Run(e, s[..k]), s[k])
    decreases |s| - i
  {
    if i < |s| && !Ends(Run(e, s[..i]), s[i]) {
      EndFromMeans(e, s, i + 1);
    }
  }

  /** Conversely, an index whose byte ends the header with none before it from `i` is
      what `EndFrom` finds. */
  lemma {:induction false} EndFromIs(e: int, s: string, i: nat, t: nat)
    requires 0 <= e <= 3 && i <= t < |s| && Ends(Run(e, s[..t]), s[t])
    requires forall k :: i <= k < t ==> !Ends(Run(e, s[..k]), s[k])
    ensures EndFrom(e, s, i) == Some(t)
    decreases t - i
  {
    if i < t {
      EndFromIs(e, s, i + 1, t);
    }
  }

  /** And with no such index from `i` on, `EndFrom` finds nothing. */
  lemma {:induction false} EndFromNone(e: int, s: string, i: nat)
    requires 0 <= e <= 3 && i <= |s|
    requires forall k :: i <= k < |s| ==> !Ends(Run(e, s[..k]), s[k])
    ensures EndFrom(e, s, i) == None
    decreases |s| - i
  {
    if i < |s| {
      EndFromNone(e, s, i + 1);
    }
  }

  /** The first end is the only candidate: a qualifying index with no earlier one is it. */
  lemma FirstEndIs(e: int, s: string, t: nat)
    requires 0 <= e <= 3 && t < |s| && Ends(Run(e, s[..t]), s[t])
    requires forall k :: 0 <= k < t ==> !Ends(Run(e, s[..k]), s[k])
    ensures FirstEnd(e, s) == Some(t)
  {
    EndFromIs(e, s, 0, t);
  }

  /** Scanning a header split over two header-phase reads finds the end where scanning
      the joined bytes would: in the first read if it ends there, else in the second,
      started from the state the first left behind. */
  lemma EndAcrossReads(e: int, a: string, b: string)
    requires 0 <= e <= 3
    ensures FirstEnd(e, a + b) ==
              if FirstEnd(e, a).Some? then FirstEnd(e, a)
              else Shifted(FirstEnd(Run(e, a), b), |a|)
  {
    EndInJoined(e, a, b, 0);
  }

  /** An index found in the second of two reads, as an index into both. */
  function Shifted(r: Option<nat>, offset: nat): (q: Option<nat>)
    ensures q.Some? <==> r.Some?
    ensures r.Some? ==> q.value - offset == r.value
  {
    match r
    case Some(j) => Some(offset + j)
    case None => None
  }

  /** The scan of `a + b` from index `k` of `a` finds what the scan of `a` finds from
      `k`, or else what the scan of `b` finds from the state `a` left behind. */
  lemma {:induction false} EndInJoined(e: int, a: string, b: string, k: nat)
    requires 0 <= e <= 3 && k <= |a|
    ensures EndFrom(e, a + b, k) ==
              if EndFrom(e, a, k).Some? then EndFrom(e, a, k)
              else Shifted(EndFrom(Run(e, a), b, 0), |a|)
    decreases |a| - k
  {
    if k == |a| {
      EndInSecond(e, a, b, 0);
    } else {
      JoinedScan(e, a, b, k);
      EndInJoined(e, a, b, k + 1);
    }
  }

  /** Past `a`, the scan of `a + b` is the scan of `b` from the state `a` left behind. */
  lemma {:induction false} EndInSecond(e: int, a: string, b: string, i: nat)
    requires 0 <= e <= 3 && i <= |b|
    ensures EndFrom(e, a + b, |a| + i) == Shifted(EndFrom(Run(e, a), b, i), |a|)
    decreases |b| - i
  {
    if i < |b| {
      JoinedScan(e, a, b, |a| + i);
      EndInSecond(e, a, b, i + 1);
    }
  }

  /** Byte `k` of `a + b` is scanned in the state the scan of `a` reaches there, or, past
      `a`, in the state the scan of `b` reaches from where `a` left off. */
  lemma JoinedScan(e: int, a: string, b: string, k: nat)
    requires 0 <= e <= 3 && k < |a + b|
    ensures k < |a| ==> Run(e, (a + b)[..k]) == Run(e, a[..k]) && (a + b)[k] == a[k]
    ensures k >= |a| ==> Run(e, (a + b)[..k]) == Run(Run(e, a), b[..k - |a|]) && (a + b)[k] == b[k - |a|]
  {
    if k < |a| {
      assert (a + b)[..k] == a[..k];
    } else {
      assert (a + b)[..k] == a + b[..k - |a|];
      RunAppend(e, a, b[..k - |a|]);
    }
  }

  /** From the initial state, state 3 means the bytes so far end in CR LF CR. */
  lemma StateThree(p: string)
    requires Run(0, p) == 3
    ensures |p| >= 3 && p[|p| - 3..] == "\r\n\r"
  {
    var p1 := p[..|p| - 1];
    assert p1 != [];
    var p2 := p1[..|p1| - 1];
    assert Run(0, p1) == 2 && p2 != [];
    assert Run(0, p2) == 1;
    assert p[|p| - 3..] == [p2[|p2| - 1], p1[|p1| - 1], p[|p| - 1]];
  }

  /** Soundness: from the initial state the header ends on the LF of a CR LF CR LF. */
  lemma EndMeansBlankLine(s: string, t: nat)
    requires FirstEnd(0, s) == Some(t)
    ensures 3 <= t < |s| && s[t - 3..t + 1] == "\r\n\r\n"
  {
    EndFromMeans(0, s, 0);
    StateThree(s[..t]);
    assert s[t - 3..t + 1] == s[..t][t - 3..] + [s[t]];
  }

  /** Completeness, where the recogniser does not trip over a preceding CR: a CR LF CR LF
      at `p` that follows a byte other than CR (or starts the scan from state 0) ends the
      header at its last LF or earlier. */
  lemma BlankLineFound(e: int, s: string, p: nat)
    requires 0 <= e <= 3 && p + 4 <= |s| && s[p..p + 4] == "\r\n\r\n"
    requires if p == 0 then e == 0 else s[p - 1] != '\r'
    ensures FirstEnd(e, s).Some? && FirstEnd(e, s).value <= p + 3
  {
    assert s[p] == '\r' && s[p + 1] == '\n' && s[p + 2] == '\r' && s[p + 3] == '\n';
    var x := Run(e, s[..p]);
    if p > 0 {
      RunSnoc(e, s, p - 1);
    } else {
      assert s[..p] == [];
    }
    assert x == 0 || x == 2;
    RunSnoc(e, s, p);
    if x == 2 {
      EndFromBefore(e, s, 0, p + 1);
    } else {
      RunSnoc(e, s, p + 1);
      RunSnoc(e, s, p + 2);
      EndFromBefore(e, s, 0, p + 3);
    }
  }

  /** An index whose byte ends the header bounds the first end from `i`. */
  lemma {:induction false} EndFromBefore(e: int, s: string, i: nat, t: nat)
    requires 0 <= e <= 3 && i <= t < |s| && Ends(Run(e, s[..t]), s[t])
    ensures EndFrom(e, s, i).Some? && EndFrom(e, s, i).value <= t
    decreases t - i
  {
    if i < t && !Ends(Run(e, s[..i]), s[i]) {
      EndFromBefore(e, s, i + 1, t);
    }
  }

  /** The recogniser misses a blank line right after a CR: `\r\r\n\r\n` leaves it in
      state 2 although it holds CR LF CR LF. */
  lemma DoubleCrMissed()
    ensures OccursAt("\r\r\n\r\n", "\r\n\r\n", 1)
    ensures FirstEnd(0, "\r\r\n\r\n") == None
    ensures Run(0, "\r\r\n\r\n") == 2
  {
    var s := "\r\r\n\r\n";
    assert s[1..5] == "\r\n\r\n";
    assert s[..0] == [];
    RunSnoc(0, s, 0);
    RunSnoc(0, s, 1);
    RunSnoc(0, s, 2);
    RunSnoc(0, s, 3);
    RunSnoc(0, s, 4);
    assert s[..5] == s;
    EndFromNone(0, s, 0);
  }

  // ---------------------------------------------------------------------------
  // The sniff

  /** A header-phase read that does not start with a method word is BAD, unscanned, and
      lands whole in `receivedBody`, even in the middle of a header. */
  lemma ContinuationIsBad(data: string, e: int)
    requires |data| <= BufferSize && 0 <= e <= 3
    requires |data| > 0 && data[0] != 'G' && data[0] != 'P' && data[0] != 'H'
    ensures ParseOutcome(Padded(data), |data|, e, false) == BAD
    ensures HeaderPart(Padded(data), |data|, e) == 0
    ensures StateAfter(Padded(data), |data|, e) == e
  {
    assert Padded(data)[0] == data[0];
  }

  /** A read too short to hold its method word is BAD: the sniff sees the zero fill. */
  lemma ShortReadIsBad(data: string, e: int)
    requires |data| < 3 || (|data| == 3 && data != "GET")
    requires 0 <= e <= 3
    ensures ParseOutcome(Padded(data), |data|, e, false) == BAD
  {
    var b := Padded(data);
    assert b[3] == '\0';
    if |data| < 3 {
      assert b[2] == '\0';
    } else {
      assert b[..3] == data;
      assert b[0] == 'G' && b[1] == 'E' ==> b[2] != 'T';
    }
  }

  // ---------------------------------------------------------------------------
  // POST bodies

  /** A POST whose header ends within the read: the header part stops before the final
      LF, so `receivedBody` starts with that LF followed by the bytes after the blank
      line. */
  lemma PostReadSplit(data: string, t: nat)
    requires 4 <= |data| <= BufferSize && data[..4] == "POST"
    requires FirstEnd(0, data) == Some(t)
    ensures var b := Padded(data);
            ParseOutcome(b, |data|, 0, false) == POST && HeaderPart(b, |data|, 0) == t
            && StateAfter(b, |data|, 0) == 3
            && b[t..|data|] == "\n" + data[t + 1..]
            && data[t - 3..t] == "\r\n\r"
  {
    var b := Padded(data);
    assert b[..4] == data[..4];
    assert b[..|data|] == data;
    EndMeansBlankLine(data, t);
    assert data[t - 3..t] == data[t - 3..t + 1][..3];
    assert b[t..|data|] == data[t..] == [data[t]] + data[t + 1..];
  }

  /** The POST rule counts the LF the recogniser left in the body: with a length of at
      least 2 the POST is answered exactly when the bytes after the blank line number
      the length; below 2 it is always answered. */
  lemma PostCompletes(bodyLength: int, rest: string)
    ensures bodyLength >= 2 ==> (Decide(POST, bodyLength, |"\n" + rest|) == Write <==> |rest| == bodyLength)
    ensures bodyLength < 2 ==> Decide(POST, bodyLength, |"\n" + rest|) == Write
  {
  }

  /** Once `receivedBody` holds more than one byte past the length (a client that sends
      more than it announced), no later body read completes the request. */
  lemma OverrunNeverCompletes(bodyLength: int, received: string, more: seq<string>)
    requires |received| > bodyLength + 1
    ensures forall k :: 0 <= k <= |more| ==> Decide(BODY, bodyLength, |received + Joined(more[..k])|) == Read
  {
    forall k | 0 <= k <= |more|
      ensures Decide(BODY, bodyLength, |received + Joined(more[..k])|) == Read
    {
      assert |received + Joined(more[..k])| >= |received|;
    }
  }

  function Joined(parts: seq<string>): string
  {
    if parts == [] then [] else Joined(parts[..|parts| - 1]) + parts[|parts| - 1]
  }

  /** After the buffer is zero-filled, the read leaves exactly its bytes followed by zeros. */
  lemma FillAfterZeros(data: string)
    requires |data| <= BufferSize
    ensures data + Zeros(BufferSize)[|data|..] == Padded(data)
  {
    assert Zeros(BufferSize)[|data|..] == Zeros(BufferSize - |data|);
  }
}
