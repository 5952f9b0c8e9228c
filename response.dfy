/**
 * The response writer of the inbound engine (src_server/tcp_server.cpp,
 * `Page_base::buffers` and the `PageMembers` builders): a page answers in
 * the chunked transfer coding of section 7.1 of RFC 9112. The first call
 * writes the status line and headers together with the first chunk, later
 * calls write one chunk each, and an empty body writes the last-chunk.
 *
 * The page's own hooks (`placeChunk`, `getType`) are the parameters `body`
 * and `mime` of `Buffers`.
 */
module Response {
  import opened Wrappers
  import opened Text

  datatype Mime = HTML | CSS | JS | JSON | ICON | PNG | FLV | JPG | GIF | SVG

  function MimeName(m: Mime): string
  {
    match m
    case HTML => "text/html"
    case CSS => "text/css"
    case JS => "application/javascript"
    case JSON => "application/json"
    case ICON => "image/vnd.microsoft.icon"
    case PNG => "image/png"
    case FLV => "video/x-flv"
    case JPG => "image/jpeg"
    case GIF => "image/gif"
    case SVG => "image/svg+xml"
  }

  /** Only 200 and 404 get a status line; any other status gets none. */
  function StatusLine(httpStatus: int): string
  {
    if httpStatus == 200 then "HTTP/1.1 200 OK\r\n"
    else if httpStatus == 404 then "HTTP/1.1 404 Not Found\r\n"
    else ""
  }

  /** The header block of the first write, blank line included. */
  function HeaderBlock(httpStatus: int, mime: Mime, keepalive: bool): (r: string)
    ensures |r| >= 4 && r[|r| - 4..] == "\r\n\r\n"
  {
    StatusLine(httpStatus)
    + "Transfer-Encoding: chunked\r\n"
    + "Content-Type: " + MimeName(mime) + "; charset=utf-8\r\n"
    + (if keepalive then "Connection: keep-alive\r\n" else "Connection: close\r\n")
    + "\r\n"
  }

  /** `insertBodyChunk`: the size in lower-case hexadecimal, CRLF, the data, CRLF. */
  function Chunk(body: string): string
  {
    Hex(|body|) + CRLF + body + CRLF
  }

  /** The last-chunk with an empty trailer section. */
  const LastChunk: string := "0\r\n\r\n"

  /** An empty body framed as a chunk is exactly the last-chunk. */
  lemma EmptyChunkIsLast()
    ensures Chunk([]) == LastChunk
  {
    assert Hex(0) == "0";
  }

  /** What one `buffers` call writes: the header block and the first chunk when a response
      starts, a chunk while the page places text, and the last-chunk once it places none. */
  function Output(sendHeader: bool, body: string, mime: Mime, keepalive: bool, httpStatus: int): string
  {
    if sendHeader then HeaderBlock(httpStatus, mime, keepalive) + Chunk(body)
    else if body != [] then Chunk(body)
    else LastChunk
  }

  /** A page's writer state: `sendHeader` while the next write starts a response,
      `done` once the last-chunk went out. */
  class Page {
    var sendHeader: bool
    var done: bool

    constructor()
      ensures sendHeader && !done
    {
      sendHeader := true;
      done := false;
    }

    /** The flags after one write of `body` from flags `sendHeader0` and `done0`: the
        header write clears both, a data chunk keeps them, and the last chunk sets both. */
    ghost predicate Advanced(sendHeader0: bool, done0: bool, body: string)
      reads this
    {
      (sendHeader0 ==> !sendHeader && !done)
      && (!sendHeader0 && body != [] ==> sendHeader == sendHeader0 && done == done0)
      && (!sendHeader0 && body == [] ==> sendHeader && done)
    }

    /** One write. `body` is what the page placed for this call. */
    method Buffers(body: string, mime: Mime, keepalive: bool, httpStatus: int) returns (out: string)
      modifies this
      ensures out == Output(old(sendHeader), body, mime, keepalive, httpStatus)
      ensures old(sendHeader) ==> !sendHeader && !done
      ensures !old(sendHeader) && body != [] ==> sendHeader == old(sendHeader) && done == old(done)
      ensures !old(sendHeader) && body == [] ==> sendHeader && done
    {
      if sendHeader {
        sendHeader := false;
        done := false;
        out := StatusLine(httpStatus);
        out := out + "Transfer-Encoding: chunked\r\n";
        out := out + "Content-Type: " + MimeName(mime) + "; charset=utf-8\r\n";
        out := out + (if keepalive then "Connection: keep-alive\r\n" else "Connection: close\r\n");
        out := out + "\r\n";
        assert out == HeaderBlock(httpStatus, mime, keepalive);
        out := out + Chunk(body);
      } else if body != [] {
        out := Chunk(body);
      } else {
        done := true;
        sendHeader := true;
        out := LastChunk;
      }
    }
  }

  // ---------------------------------------------------------------------------
  // Reading the chunked coding back (section 7.1 of RFC 9112)

  /** The number of leading lower-case hexadecimal digits. */
  function HexRun(s: string): (n: nat)
    ensures n <= |s|
    ensures forall i :: 0 <= i < n ==> IsLowerHexDigit(s[i])
    ensures n < |s| ==> !IsLowerHexDigit(s[n])
  {
    if |s| > 0 && IsLowerHexDigit(s[0]) then 1 + HexRun(s[1..]) else 0
  }

  /** One chunk: its data and what follows it, or `None` when `s` does not start with
      a well-formed chunk. */
  function ParseChunk(s: string): (r: Option<(string, string)>)
    ensures r.Some? ==> |r.value.1| + 5 <= |s|
  {
    var n := HexRun(s);
    if n == 0 then None
    else
      var size := HexValue(s[..n]);
      if |s| < n + size + 4 || s[n..n + 2] != CRLF || s[n + 2 + size..n + 4 + size] != CRLF then None
      else Some((s[n + 2..n + 2 + size], s[n + 4 + size..]))
  }

  /** The body a chunked stream carries: the data of its chunks up to the last-chunk. */
  function DecodeChunked(s: string): (r: Option<string>)
    decreases |s|
  {
    match ParseChunk(s)
    case None => None
    case Some((data, rest)) => if data == [] then Some([]) else
      match DecodeChunked(rest)
      case None => None
      case Some(more) => Some(data + more)
  }

  /** Every chunk `Buffers` frames reads back as its data. */
  lemma ChunkRoundTrip(body: string, rest: string)
    ensures ParseChunk(Chunk(body) + rest) == Some((body, rest))
  {
    var h := Hex(|body|);
    var s := Chunk(body) + rest;
    assert s == h + (CRLF + body + CRLF + rest);
    HexRunPrefix(h, CRLF + body + CRLF + rest);
    HexRoundTrip(|body|);
    ChunkPieces(h, body, rest);
  }

  /** Where the pieces of a framed chunk sit. */
  lemma ChunkPieces(h: string, body: string, rest: string)
    ensures var s := h + (CRLF + body + CRLF + rest);
            var n := |h|;
            |s| >= n + |body| + 4 && s[..n] == h && s[n..n + 2] == CRLF
            && s[n + 2..n + 2 + |body|] == body && s[n + 2 + |body|..n + 4 + |body|] == CRLF
            && s[n + 4 + |body|..] == rest
  {
    var s := h + (CRLF + body + CRLF + rest);
    var n := |h|;
    assert s[..n] == h;
    assert s[n..] == CRLF + body + CRLF + rest;
  }

  lemma {:induction false} HexRunPrefix(h: string, t: string)
    requires forall c :: c in h ==> IsLowerHexDigit(c)
    requires |t| > 0 && t[0] == '\r'
    ensures HexRun(h + t) == |h|
    decreases |h|
  {
    if |h| > 0 {
      assert h[0] in h;
      assert (h + t)[1..] == h[1..] + t;
      HexRunPrefix(h[1..], t);
    }
  }

  /** The chunks of a sequence of non-empty bodies. */
  function Chunks(bodies: seq<string>): string
  {
    if |bodies| == 0 then [] else Chunk(bodies[0]) + Chunks(bodies[1..])
  }

  function Concat(bodies: seq<string>): string
  {
    if |bodies| == 0 then [] else bodies[0] + Concat(bodies[1..])
  }

  /** What a page writes after its header block — one chunk per non-empty body, then the
      last-chunk — decodes to the bodies in order. */
  lemma {:induction false} DecodeWrites(bodies: seq<string>, rest: string)
    requires forall i :: 0 <= i < |bodies| ==> bodies[i] != []
    ensures DecodeChunked(Chunks(bodies) + LastChunk + rest) == Some(Concat(bodies))
  {
    if |bodies| == 0 {
      EmptyChunkIsLast();
      ChunkRoundTrip([], rest);
      assert Chunks(bodies) + LastChunk + rest == Chunk([]) + rest;
    } else {
      var tail := Chunks(bodies[1..]) + LastChunk + rest;
      assert Chunks(bodies) + LastChunk + rest == Chunk(bodies[0]) + tail;
      ChunkRoundTrip(bodies[0], tail);
      DecodeWrites(bodies[1..], rest);
    }
  }

  /** A page whose first body is empty frames it inside the header write as the
      last-chunk, without setting `done`; whatever it writes next is past the end of the
      response as a client reads it. */
  lemma EmptyFirstChunkEndsResponse(more: string)
    ensures DecodeChunked(Chunk([]) + more) == Some([])
  {
    ChunkRoundTrip([], more);
  }
}
