# net_base engine core in Dafny

This project models the core of net_base, a Boost.Asio/Beast HTTP engine. The core has
two halves:

- **Inbound server.** Sessions accept HTTP requests, recognise where the header ends,
  split it from the body and answer GET and POST requests with chunked pages.
- **Outbound pool.** Connection slots send requests to remote hosts, optionally through a
  SOCKS5 proxy, and keep the replies for their callers.

Around these sit a timer director (an intrusive ring of tasks), test-and-set flags,
base64, a word-at-a-time FNV-1a hash and a PCG random generator.

Every asynchronous completion handler becomes an explicit event method. The read
handler becomes `HttpSession.OnRead`, the write handler `HttpSession.OnWriteDone`,
`doneRead` becomes `Connection.DoneRead` and the keep-alive timer becomes
`Connection.KeepaliveExpired`. What the I/O layer would report arrives as parameters:
an error flag, a byte count, the proxy's replies and whether a socket is still open.
The page's virtual hooks, `simplehash`/`simplehash_x86_64` and the random source are
parameters too, given as functions or values.

Objects whose fields the source updates in place are classes, with the same fields:

- `HttpSession`, `Page` and `Registry` of the server;
- `Connection`, `ReplyStore` and `ConnectionPool` of the pool;
- `Circular`, `Timers` and `Director` of the scheduler;
- `AtomicFlag`, `AtomicBool`, `Pcg64` and `RandSource`.

Each method of these classes states its whole new state in terms of the old one, under
a frame that names only the fields it may change. Some do this through a specification
function of the old state (`State() == Step(old(State()), …)`). The others state it
field by field over `old(…)` values, or through a predicate over a snapshot of the old
fields, such as `HttpSession.Dispatched`. The properties of the engine are lemmas about
those functions. The codecs
work on caller-supplied arrays, as in the source. Each one is proved to write what a
specification function computes, and the round trips are lemmas about the functions.

Modules, one per file:

| module | file | models |
|---|---|---|
| `Wrappers` | wrappers.dfy | `Option` |
| `Bits` | bits.dfy | 64-bit words, XOR and shifts written out as arithmetic |
| `Text` | text.dfy | lower-casing, `find`/`rfind`/`contains`, `npos` wrap-around, decimal and hexadecimal rendering |
| `Base64` | encode.dfy | `base64encode_impl`, `base64decode_impl`, the run-length table, the required sizes |
| `Fnv` | fnv.dfy | `FNV1a` |
| `Pcg` | pcg.dfy | `pcg64` and `pcg64Rand` |
| `Sync` | sync.dfy | `AtomicFlag`, `AtomicBool` |
| `Schedule` | schedule.dfy | `Node`/`Circular`, `Task`, `Director` |
| `Endpoint` | endpoint.dfy | userinfo/host/port splitting, `stoi`, the SOCKS5 messages |
| `Pool` | pool.dfy | `TcpConnection`, `Pool::request_internal`, `Pool::getReply` |
| `Headers` | headers.dfy | `checkKeepalive`, `checkClose`, `checkContentLength`, `findRequestedPage`'s URL, the timeouts, `clean` |
| `Response` | response.dfy | `Page_base::buffers` and the `PageMembers` builders |
| `Guests` | guests.dfy | `Guest`, `Guest::swap`, `restoreUser`, the claim in `doAccept` |
| `Session` | session.dfy | `HttpSession` |

The ring, the director and the flag of src_server/global.hpp are repeated almost verbatim
in src_net/global.hpp. They are modelled once, and the rows below cite whichever copy
shows the modelled lines.

## Model

| member | source | states |
|---|---|---|
| Text.SizeAdd | src_server/tcp_server.cpp:211-214 | size_t addition wraps modulo 2^64, so `npos + k` is `k - 1` |
| Text.ToLower | src_server/tcp_server.cpp:190-201 | same length; each character is its ASCII lower-case form, and other characters are unchanged |
| Text.FindFrom | src_server/tcp_server.cpp:211 | the index found holds the needle, and no earlier index at or after the start does; `None` exactly when no such index exists |
| Text.Find | src_server/tcp_server.cpp:211 | `string_view::find`: the first occurrence, and `None` exactly when the needle does not occur |
| Text.FindIndex | src_server/tcp_server.cpp:264 | the index of the first occurrence, or `npos` when there is none |
| Text.ContainsIff | src_server/tcp_server.cpp:252 | `contains` holds exactly when `find` finds the needle |
| Text.FindChar | src_server/connection.cpp:205 | the first index holding the character, with none before it, or `None` when it is absent |
| Text.RFind | src_server/connection.cpp:222 | the last index holding the character, with none after it, or `None` when it is absent |
| Text.DecimalRoundTrip | src_server/connection.cpp:136 | the decimal rendering of a size is all digits and reads back as the size |
| Text.HexRoundTrip | src_server/tcp_server.cpp:118 | the `std::hex` rendering of a size is lower-case hex digits, without leading zeros, and reads back as the size |
| Base64.BuildTable | src_server/encode.cpp:97-113 | the 256-entry table expanded from the run-length string gives every character its index in the RFC 4648 alphabet, -2 for '=' and -1 otherwise |
| Base64.ExpandRuns | src_server/encode.cpp:102-107 | the expansion loop: entry i is the run value of the number of run bounds passed before i |
| Base64.TableEntry | src_server/encode.cpp:97-113 | entry i of the run-length table equals the reference value of character i |
| Base64.CursorOfBounds | src_server/encode.cpp:102-107 | the run cursor at index i counts the run bounds below i |
| Base64.SextetOfValid | src_server/encode.cpp:130-137 | the decoder's validity test accepts exactly the characters that have an alphabet index |
| Base64.SextetOfAlphabet | src_server/encode.cpp:61-67 | alphabet character k has index k |
| Base64.EncodedSizeGroups | src_server/encode.hpp:68-72 | `((n+2)/3)*4` is four characters per whole group plus four for a remainder, that is 4 * ceil(n/3) |
| Base64.EncodeGroupsChars | src_server/encode.cpp:61-67 | each whole group gives four alphabet characters |
| Base64.Encode | src_server/encode.cpp:54-83 | the text has `EncodedSize(n)` characters |
| Base64.EncodeInto | src_server/encode.cpp:54-83 | writes `Encode(src)` into `dst[..EncodedSize(n)]` and nothing else, with no terminator |
| Base64.EncodeLoop | src_server/encode.cpp:61-67 | the main loop has written the characters of every whole group, four per three bytes |
| Base64.EncodeGroupAt | src_server/encode.cpp:62-66 | one pass writes the four characters of the group at `src[3g..3g+3]` to `dst[4g..4g+4]` and nothing else |
| Base64.EncodeTail | src_server/encode.cpp:68-82 | a 1-byte tail is two characters and `==`; a 2-byte tail is three characters and `=` |
| Base64.Decode | src_server/encode.cpp:94-165 | accepted exactly when the length is a positive multiple of 4 and every character before the trailing '=' run passes the test; then floor(3m/4) bytes, m being the length without the '=' run, never more than `(n/4)*3` |
| Base64.DecodeInto | src_server/encode.cpp:94-165 | on acceptance writes `Decode(src)` at the front of `dst`; otherwise writes nothing |
| Base64.TrimmedLength | src_server/encode.cpp:127-129 | the length of the source without its trailing '=' run |
| Base64.AllValid | src_server/encode.cpp:130-137 | true exactly when all of the first n characters pass the test |
| Base64.DecodeTrimmed | src_server/encode.cpp:141-164 | the main loop and the tail write the bytes of the trimmed, valid text |
| Base64.DecodeLoop | src_server/encode.cpp:141-149 | the main loop writes three bytes per group while more than four characters remain |
| Base64.DecodeGroupAt | src_server/encode.cpp:143-148 | one pass writes the three table-computed bytes of one group |
| Base64.DecodeLast | src_server/encode.cpp:150-164 | the last one to four characters give 0 to 3 bytes; a lone character gives none |
| Base64.DecodedSizeBound | src_server/encode.hpp:86-90 | the decoded bytes never exceed `(n/4)*3` |
| Base64.QuadDecodes | src_server/encode.cpp:141-149 | the four characters of a group decode back to its three bytes |
| Base64.DecodeEncodeGroups | src_server/encode.cpp:141-149 | the whole groups of any input decode back to its bytes |
| Base64.DecodeEncode | src_server/encode.cpp:187-196 | decoding undoes encoding for every non-empty input |
| Base64.DecodeEncodeWhole | src_server/encode.cpp:141-164 | the round trip when the length is a multiple of three |
| Base64.DecodeEncodePadded | src_server/encode.cpp:68-82 | the round trip when one or two bytes follow the whole groups |
| Base64.DecodeAccepts | src_server/encode.cpp:115-137 | a text whose length is a positive multiple of 4 and which is valid once trimmed is accepted |
| Base64.EmptyRoundTrip | src_server/encode.cpp:115-125 | the empty input encodes to nothing, and the decoder rejects nothing |
| Base64.DecodeAcceptsExtraPadding | src_server/encode.cpp:127-129 | any number of trailing '=' is dropped: "QQ======" decodes to 'A' |
| Base64.DecodeAcceptsOnlyPadding | src_server/encode.cpp:127-137 | a text of '=' alone is accepted and decodes to nothing |
| Base64.EncodeLoginExample | src_server/encode.cpp:173-185 | "login:passwor" encodes to "bG9naW46cGFzc3dvcg==", whose required size is 20 |
| Fnv.Hash | src_server/encode.hpp:32-62 | computes `Fnv1a(str, len)`: the block loop over `len & ~7` bytes, the fall-through switch, then the final multiplication |
| Fnv.Fnv1a | src_server/encode.hpp:32-62 | the hash of the first `(unsigned)len` bytes: eight-byte blocks, the remaining bytes by the switch, then one last multiplication by the prime |
| Fnv.HashBlocks | src_server/encode.hpp:38-50 | the loop's accumulator is the fold of one XOR and one multiplication per eight-byte block |
| Fnv.SwitchTail | src_server/encode.hpp:51-60 | the switch XORs byte `len-k` in at bit 8(k-1) for each k up to `len % 8` |
| Fnv.BlockBound | src_server/encode.hpp:38 | `len & ~7` is the largest multiple of 8 not above len |
| Fnv.EmptyHash | src_server/encode.hpp:35-61 | empty input, or a length that is 0 in 32 bits, hashes to basis * prime mod 2^64 |
| Fnv.HashPrefix | src_server/encode.hpp:35-61 | only the first `(unsigned)len` bytes are read |
| Fnv.OneBlockHash | src_server/encode.hpp:49-61 | eight bytes get two multiplications: one for the block and the final one |
| Fnv.OneByteHash | src_server/encode.hpp:59-61 | one byte is one XOR of the sign-extended byte and one multiplication |
| Fnv.AsciiByteAgrees | src_server/encode.hpp:59-61 | a single ASCII byte hashes as in standard FNV-1a |
| Fnv.HighByteDiffers | src_server/encode.hpp:59 | a single byte of 0x80 or more hashes differently from standard FNV-1a, so the variant is not byte-compatible |
| Fnv.ZeroTailCollides | src_server/encode.hpp:51-61 | up to seven zero bytes hash like the empty input, which standard FNV-1a tells apart (`StandardSeesZeros`) |
| Fnv.StandardSeesZeros | src_server/encode.hpp:32-62 | standard FNV-1a tells two zero bytes from the empty input |
| Fnv.FinishUndone | src_server/encode.hpp:61 | the multiplication by the prime is invertible mod 2^64 |
| Fnv.RoundSeparates | src_server/encode.hpp:40-49 | different words XORed into one accumulator give different rounds |
| Fnv.WidenSignExtends | src_server/encode.hpp:40-47 | a char widened to 64 bits keeps its byte and fills the upper bits with its sign bit |
| Fnv.BlockFirstByteLow | src_server/encode.hpp:40-47 | in a block, `str[i]` lands in bits 0 to 7 whatever its sign |
| Fnv.TailLastByteLow | src_server/encode.hpp:51-60 | in the tail the last byte lands in bits 0 to 7, the reverse of the block order |
| Fnv.AsciiBlockLanes | src_server/encode.hpp:40-47 | an ASCII block is its bytes read as a little-endian number |
| Fnv.SignExtendedBlock | src_server/encode.hpp:40-47 | a negative char sign-extends over the higher lanes of its block |
| Pcg.Pcg64.constructor | src/platform.cpp:8-16 | inc is `(s<<1)|1`, which is odd, and state is `(s+inc)*MULT + inc` with `s = seed<<31 | seed`, all mod 2^64 |
| Pcg.Pcg64.Generate | src/platform.cpp:18-28 | call k returns the permutation of state k; the state advances by one LCG step and inc never changes |
| Pcg.RandSource.Rand | src/platform.cpp:30-34 | the first call seeds the static generator; later seeds are ignored and the same generator advances |
| Pcg.IncIsOdd | src/platform.cpp:13 | the increment is odd for every seed |
| Pcg.AdvanceIsLcg | src/platform.cpp:23 | since inc is odd, `inc | 1` is inc, and each call is a plain LCG step |
| Pcg.Rotation | src/platform.cpp:26 | `oldstate >> 59` lies in 0..31 |
| Pcg.ZeroSeed | src/platform.cpp:8-16 | seed 0 gives inc 1 and state MULT + 1 |
| Pcg.PermuteIsNotRotation | src/platform.cpp:27 | the left shift is by 31 - rot rather than (-rot) & 31: for x = 1 and rot = 0 the output is 0x80000001, not the rotation's 1 |
| Pcg.Permute | src/platform.cpp:25-27 | the output permutation as written: `x >> rot` OR-ed with `x << ((~rot) & 31)`, which is `x << (31 - rot)`, on 32 bits |
| Sync.TestAndSet | src_net/global.hpp:29-36 | test-and-set always leaves the flag set, and reports success exactly when it was clear |
| Sync.AcquireExcludes | src_server/global.hpp:28-36 | a second acquisition without a release always fails |
| Sync.AtomicFlag.constructor | src_server/global.hpp:20-23 | a new flag starts clear |
| Sync.AtomicFlag.IsAvailThenLock | src_server/global.hpp:28-36 | `avail_but_no_more` and the flag set exactly when it was clear; otherwise `not_avail` and no change |
| Sync.AtomicFlag.MakeAvail | src_server/global.hpp:38-41 | clears the flag |
| Sync.AtomicBool.constructor | src_net/global.hpp:50-52 | the stored value is the initial one |
| Sync.AtomicBool.Store | src_net/global.hpp:54-59 | assignment stores the value |
| Sync.AtomicBool.Equals | src_net/global.hpp:61-64 | `==` compares the last stored value |
| Sync.AtomicBool.Load | src_net/global.hpp:66-69 | the `bool` conversion reads back the last stored value |
| Schedule.Circular.constructor | src_server/global.hpp:97-104 | an empty list: null head, no links |
| Schedule.Circular.Insert | src_server/global.hpp:109-128 | in an empty list the node keeps its self-links; otherwise it is spliced between `head` and `head->next`; it becomes `head`, `cnt` grows by one, and the ring invariant holds |
| Schedule.Circular.Next | src_server/global.hpp:130-137 | null on an empty list; otherwise `head` moves to `head->next` and is returned; nothing else changes |
| Schedule.Circular.Disconnect | src_server/global.hpp:71-84 | the neighbours are joined, `head` moves to the successor or to null when `cnt` reaches 0, `cnt` drops by one, and the ring invariant holds |
| Schedule.InsertRing | src_server/global.hpp:109-128 | `insert` keeps the ring invariant: `cnt` distinct nodes linked by `next`, `prev` its inverse, head null iff cnt is 0 |
| Schedule.InsertFirst | src_server/global.hpp:64-69 | a self-linked node alone makes a one-node ring |
| Schedule.NextRing | src_server/global.hpp:130-137 | `next` keeps the ring invariant and moves the cursor one position on |
| Schedule.CutRing | src_net/global.hpp:119-132 | `disconnect` keeps the ring invariant over the remaining nodes |
| Schedule.InsertMembers | src_server/global.hpp:109-128 | inserting adds just the new node |
| Schedule.InsertDistinct | src_server/global.hpp:109-128 | inserting a fresh node keeps the ring free of duplicates |
| Schedule.InsertLinked | src_server/global.hpp:113-123 | the splice behind the head keeps the ring linked both ways |
| Schedule.CutLinked | src_server/global.hpp:71-84 | the ring without the node is linked once its neighbours are joined, and the successor takes its position |
| Schedule.CutDistinct | src_server/global.hpp:71-84 | cutting a node out keeps the ring free of duplicates |
| Schedule.WithoutMembers | src_server/global.hpp:71-84 | cutting a node out leaves exactly the other nodes |
| Schedule.RotateLinked | src_server/global.hpp:130-137 | the ring seen from any position is linked by the same pointers |
| Schedule.ScanReady | src_server/global.hpp:212-219 | after the first `next()`, the scan visits every node once and ends at the stop node |
| Schedule.ScanOrder | src_server/global.hpp:217-227 | the scan order holds every node once and ends two places after the old head |
| Schedule.Timers.Cancel | src_server/global.hpp:224 | `timer->cancel()` adds one to that timer's cancel count only |
| Schedule.Director.constructor | src_server/global.hpp:183-188 | an empty ring, and the counter at 1 |
| Schedule.Director.SubmitTask | src_server/global.hpp:193-208 | returns the counter, then increments it mod 2^32; the new task's node is linked in and becomes head; submission k gets id k + 1 |
| Schedule.IdsCount | src_server/global.hpp:183 | the id after k submissions is (k + 1) mod 2^32 |
| Schedule.Director.Retire | src_server/global.hpp:166-169 | the task's destructor unlinks its node: the ring loses it, its count drops by one, and the head moves to the node's successor, or to none when the ring empties |
| Schedule.Director.CancelTask | src_server/global.hpp:210-228 | on an empty list nothing is cancelled; otherwise one revolution in scan order cancels only the first task with the id and stops there, and an unknown id cancels nothing |
| Schedule.Director.CancelFrom | src_server/global.hpp:217-227 | the cursor stops on the first match or on the stop node, and at most that one timer is cancelled |
| Schedule.Director.FindTask | src_server/global.hpp:219-227 | the do-while finds the first node of the scan whose task has the id, if any |
| Schedule.Director.Shutdown | src_server/global.hpp:230-245 | on an empty list nothing happens; otherwise every task's timer is cancelled exactly once in one revolution |
| Schedule.Director.ShutdownFrom | src_server/global.hpp:237-243 | after the stop node is chosen, every node is cancelled once and the cursor ends on it |
| Schedule.Director.CancelAll | src_server/global.hpp:239-243 | the do-while cancels each node of the scan order once |
| Schedule.Director.CancelNext | src_server/global.hpp:241-242 | one turn advances the cursor to the next node and cancels its timer |
| Schedule.BumpedAll | src_server/global.hpp:239-243 | one cancel per node of a duplicate-free scan is exactly one cancel each |
| Schedule.FirstWith | src_server/global.hpp:222 | the first scan position whose task has the id, with none before it |
| Endpoint.SplitUserinfoParts | src_server/connection.cpp:205-215 | with a first '@' after index 0 the site is userinfo '@' host; otherwise the host is the whole site and the previous userinfo stays |
| Endpoint.SplitPortParts | src_server/connection.cpp:221-236 | the port is the text after the last ':' when that ':' is after index 0; an empty or missing port is "443" for TLS and "80" otherwise; the host is the text before the ':' |
| Endpoint.LookupKey | src_server/connection.cpp:550-551 | the text after the first '@', or the whole site when there is none (npos + 1 wraps to 0) |
| Endpoint.KeyIsEstablishedHost | src_server/connection.cpp:551-554 | the pool looks a site up under the text `establish` fingerprints, unless the site starts with '@' |
| Endpoint.LeadingAtKeyDiffers | src_server/connection.cpp:205-217 | a site starting with '@' is looked up without the '@' but fingerprinted with it |
| Endpoint.SplitUserinfo | src_server/connection.cpp:205-215 | (userinfo, host): split at the first '@' when it is past index 0; otherwise the previous userinfo and the whole site |
| Endpoint.SplitPort | src_server/connection.cpp:221-236 | (host, port): split at the last ':' when it is past index 0; an empty or missing port becomes "443" for TLS and "80" otherwise |
| Endpoint.Stoi | src_server/connection.cpp:280 | a value `stoi` returns lies in the 32-bit `int` range; text outside it throws |
| Endpoint.PortNumber | src_server/connection.cpp:280 | `(unsigned short)stoi(port) & 0xffff` is the value mod 2^16 |
| Endpoint.StoiOfDecimal | src_server/connection.cpp:280 | a rendered port number reads back as the number |
| Endpoint.ConnectRequest | src_server/connection.cpp:273-284 | the CONNECT request is 7 + the name's length bytes long |
| Endpoint.ConnectRoundTrip | src_server/connection.cpp:273-285 | a SOCKS5 server (section 4 of RFC 1928) reads back the host and port for every name shorter than 256 bytes |
| Endpoint.LongHostMalformed | src_server/connection.cpp:277 | a name of 256 bytes or more is announced with its length mod 256, so the request no longer parses |
| Pool.SetupRequest | src_server/connection.cpp:117-174 | the verb and target are the call's; the body is the call's data, or the previous body when the data is empty |
| Pool.SetupWrites | src_server/connection.cpp:153-173 | Host and Connection are always written; Basic credentials from the userinfo win over `auth`; the JSON content type, the body length and the API key are written when asked for |
| Pool.SetupKeeps | src_server/connection.cpp:117-174 | every field one setup does not write keeps its value from the slot's previous request |
| Pool.KeepsField | src_server/connection.cpp:135-173 | a field the setup does not touch persists through each of its writes |
| Pool.Emplace | src_server/connection.cpp:419-423 | an existing entry for the id wins; otherwise the reply is added and the other entries are unchanged |
| Pool.Take | src_server/connection.cpp:758-777 | an absent id gives 999 and leaves dst and the map alone; a present one gives its status and body and erases the entry |
| Pool.TakeConsumes | src_server/connection.cpp:762-776 | a second `getReply` for the same id gives 999 |
| Pool.EmplaceKeepsFirst | src_server/connection.cpp:419-423 | a second reply for a caller before the first is taken is dropped |
| Pool.ReplyStore.Put | src_server/connection.cpp:416-424 | the map becomes `Emplace` of the old map |
| Pool.ReplyStore.GetReply | src_server/connection.cpp:758-777 | status, string and new map are `Take` of the old map |
| Pool.SocksExchange | src_server/connection.cpp:260-305 | the exchange goes on only if the proxy is reachable and both replies pass (byte 1 is 0), and then to the TLS handshake exactly for TLS slots; otherwise it halts |
| Pool.EstablishNext | src_server/connection.cpp:238-310 | without the proxy the slot resolves the split host and port; with an unreachable proxy it halts |
| Pool.EstablishSlot | src_server/connection.cpp:200-236 | the slot after `establish`: acquired, the caller recorded, userinfo and host split at the first '@', the fingerprint the hash of the host with its port, the request set up for that host, and the port then split off the kept host |
| Pool.ConnectFailedStep | src_server/connection.cpp:238-367 | after `establish`: a TLS slot's failed TCP connect changes nothing (`handshake` returns at 317-318); a resolve error (240-243), a plain slot's connect error or a handshake error (`writeSSL`, 356-361) clears the fingerprint |
| Pool.ReadStep | src_server/connection.cpp:369-395 | `read`: the bytes and the read are counted; past 1 MiB or 16 consecutive reads it stops; otherwise an error clears the fingerprint and success waits for the response |
| Pool.HasField | src_server/connection.cpp:411-412 | a response field matches a looked-up name regardless of ASCII case, as Beast's `find` does |
| Pool.WantsKeepalive | src_server/connection.cpp:410-414 | the wait is wanted when the response is keep-alive or either lookup of the close name fails |
| Pool.DoneReadStep | src_server/connection.cpp:397-435 | `doneRead`: an error clears the fingerprint only; success releases the slot, zeroes both counters and arms a wait when `WantsKeepalive` |
| Pool.ExpireStep | src_server/connection.cpp:437-464 | the wait's handler clears the fingerprint and consumes the wait, whatever its error code |
| Pool.Connection.constructor | src_server/connection.cpp:176-186 | a new slot is free: released flag, fingerprint 0 |
| Pool.Connection.Acquire | src_server/global.hpp:28-36 | test-and-set on the slot's busy flag |
| Pool.Connection.Establish | src_server/connection.cpp:188-313 | the slot becomes `EstablishSlot` of its old state, and the next step and the SOCKS5 messages sent are `EstablishNext` |
| Pool.Connection.TakeHost | src_server/connection.cpp:200-228 | acquire, record the caller, keep the userinfo and the fingerprint, set up the request, then split the port off the kept host |
| Pool.Connection.Claim | src_server/connection.cpp:200-228 | the slot is acquired whatever the flag was and keeps the caller, the userinfo, the fingerprint and the host without its port |
| Pool.Connection.SetUp | src_server/connection.cpp:219 | the request is set up for the host with the slot's userinfo |
| Pool.Connection.NextRequest | src_server/connection.cpp:326-347 | new caller and request on the kept host; the request goes out exactly when the socket is open |
| Pool.Connection.ConnectFailed | src_server/connection.cpp:238-367 | the slot becomes `ConnectFailedStep` of its old state |
| Pool.Connection.Read | src_server/connection.cpp:369-395 | counts the bytes and the read, stops at 1 MiB or 16 reads before looking at the error, and clears only the fingerprint on an error |
| Pool.Connection.DoneRead | src_server/connection.cpp:397-435 | the slot becomes `DoneReadStep` of its old state; on an error the reply map is untouched, otherwise the reply is emplaced for the caller |
| Pool.Connection.KeepaliveExpired | src_server/connection.cpp:437-464 | the wait's handler frees the fingerprint whatever its error code |
| Pool.FirstIndex | src_server/connection.cpp:555-558 | the first slot with the fingerprint, or `None` exactly when no slot has it |
| Pool.Choose | src_server/connection.cpp:553-599 | a fingerprint match first; otherwise the first free slot; "Exhausted" exactly when neither exists |
| Pool.Select | src_server/connection.cpp:555-597 | the two scans return `Choose` of the slots' fingerprints |
| Pool.ConnectionPool.constructor | src_server/connection.cpp:494-501 | one plain slot and five TLS slots, all new and distinct, and an empty reply map |
| Pool.ConnectionPool.RequestInternal | src_server/connection.cpp:532-620 | a matching slot is locked and reused, or the request is rejected as busy; otherwise the first free slot is established; otherwise nothing changes; other slots are untouched |
| Pool.ConnectionPool.Request | src_server/connection.cpp:626-656 | touches only the plain slots; an established slot resolves the host directly and sends no SOCKS5 message; no server-name failure |
| Pool.ConnectionPool.RequestSSL | src_server/connection.cpp:658-688 | touches only the TLS slots; an established slot resolves directly; a server-name failure only when the setup fails |
| Pool.ConnectionPool.RequestSocks5 | src_server/connection.cpp:690-722 | touches only the plain slots; an established slot goes through the proxy, neither resolving nor handshaking directly |
| Pool.ConnectionPool.RequestSocks5SSL | src_server/connection.cpp:724-756 | dispatches as `<false,false>`: touches the TLS slots, never fails on the server name, and an established slot resolves the host directly with no SOCKS5 message |
| Pool.NewSlots | src_server/connection.cpp:497-500 | n new, distinct slots in their initial state |
| Pool.ZeroKeyTakesFreeSlot | src_server/connection.cpp:554-572 | a key hashing to 0 matches the first free slot, which is then reused although never established |
| Pool.EstablishClaims | src_server/connection.cpp:200-217 | `establish` leaves the slot busy, fingerprinted with the host including its port, and keeps the old userinfo for a site without one |
| Pool.StaleCredentials | src_server/connection.cpp:155-160 | a slot re-established for a site without userinfo still sends the previous Basic credentials |
| Pool.HostFieldLosesPort | src_server/connection.cpp:219-228 | the first request's Host field carries the port; `nextRequest` uses the host without it |
| Pool.SocksFailureHoldsSlot | src_server/connection.cpp:271-293 | a failed SOCKS5 exchange leaves the slot busy and fingerprinted, so every later request for that site selects it and is rejected |
| Pool.TlsConnectFailureHoldsSlot | src_server/connection.cpp:249-250 | a TLS slot whose TCP connect fails goes to `handshake`, which returns on the error at 317-318 without clearing anything: the slot stays busy under the host's fingerprint, so every later request for that site selects it and is rejected |
| Pool.ConnectFailureFrees | src_server/connection.cpp:240-243 | a resolve error, a plain slot's connect error or a TLS handshake error (`writeSSL`, 356-361) clears the fingerprint and leaves the slot busy, so the slot is free for the next request to any host |
| Pool.ErrorsNeverRelease | src_server/connection.cpp:377-408 | the error paths of `read` and `doneRead` clear the fingerprint and never release the slot; a capped read changes neither |
| Pool.ReadsAreCapped | src_server/connection.cpp:371-380 | the counters only grow between two successful `doneRead`s, so the 17th read without one is capped |
| Pool.Reads | src_server/connection.cpp:369-395 | a run of successful writes ends either capped or awaiting the response |
| Pool.DoneReadReleases | src_server/connection.cpp:426-431 | a successful `doneRead` releases the slot, zeroes both counters and keeps the fingerprint, so the slot is selected and acquired again |
| Pool.KeepaliveUnlessCloseField | src_server/connection.cpp:410-414 | the lookups of `onnection-close` and `onnection-Close` always agree, so only a non-keep-alive response with a field of that name, in any case, goes without a wait |
| Pool.StandardCloseKeepsAlive | src_server/connection.cpp:410-414 | a response without a 15-character field name, `Connection: close` included, always arms the wait |
| Pool.ExpiryFrees | src_server/connection.cpp:439-455 | when a wait's handler runs, a released slot becomes free for any host |
| Headers.StandardCloseMissed | src_server/tcp_server.cpp:255-259 | the usual `connection: close` is not recognised; only `connection; close` is |
| Headers.CheckKeepalive | src_server/tcp_server.cpp:249-253 | true exactly when `keep-alive` occurs in the lower-cased header |
| Headers.CheckClose | src_server/tcp_server.cpp:255-259 | true exactly when `connection; close` occurs in the lower-cased header |
| Headers.CheckContentLength | src_server/tcp_server.cpp:261-279 | 0 when the key is at index 0; what it reads elsewhere is stated by `ContentLengthReadsNumber` and `MissingKeyScansFrom15` |
| Headers.ScanStart | src_server/tcp_server.cpp:264-267 | the scan starts 16 past the key, or at 15 when the key is absent (npos + 16 wraps) |
| Headers.DigitsEnd | src_server/tcp_server.cpp:270-277 | the scan stops at the first non-digit or before the last byte |
| Headers.ContentLengthReadsNumber | src_server/tcp_server.cpp:261-279 | `content-length: N` followed by a non-digit reads back as N wherever the key is, except at index 0 |
| Headers.MissingKeyScansFrom15 | src_server/tcp_server.cpp:264-271 | without the key the digits are read from index 15 |
| Headers.ExtractUrl | src_server/tcp_server.cpp:281-298 | the text handed to the page lookup always starts with `http://a.bc/` |
| Headers.ExtractUrlOfRequestLine | src_server/tcp_server.cpp:286-290 | for `GET /path HTTP...` (or a four-letter method) the page lookup sees the path after the base |
| Headers.GetKeepaliveTimeout | src_server/tcp_server.cpp:499 | min(90, 1000/(n+1) + 15) seconds, n the open connections |
| Headers.PostKeepaliveTimeout | src_server/tcp_server.cpp:530 | min(120, 1000/(n+1) + 15) seconds |
| Headers.ReadTimeout | src_server/tcp_server.cpp:597 | min(60, 1000/(n+1) + 5) * standby + 1 seconds |
| Headers.WriteTimeout | src_server/tcp_server.cpp:647 | min(10, 1000/(n+1) + 7) seconds |
| Headers.TimeoutBounds | src_server/tcp_server.cpp:499-647 | each timeout lies between its added constant and its cap, and never grows as more connections are open |
| Headers.TimeoutExamples | src_server/tcp_server.cpp:597-600 | the caps apply while few connections are open; at capacity only the floors remain |
| Headers.ShareMonotone | src_server/tcp_server.cpp:493-502 | more connections never give a larger share of the budget |
| Headers.CleanRemovesBanned | src_server/tcp_server.cpp:300-334 | no banned character, control character or byte from 0x80 up survives `clean` |
| Headers.Clean | src_server/tcp_server.cpp:300-335 | the seventeen `replace_all`s in order, then the compaction |
| Headers.Entity | src_server/tcp_server.cpp:302-324 | the entity each of the sixteen one-character targets is replaced with; any other character is itself |
| Headers.EscapeEach | src_server/tcp_server.cpp:302-324 | every character replaced by its `Entity`, left to right |
| Headers.CleanEscapesOnce | src_server/tcp_server.cpp:302-325 | for every input the sixteen one-character escapes equal `EscapeEach`: each character becomes its entity exactly once, as '&' goes first and no later target occurs in an earlier entity; `clean` is then the CRLF replacement and the compaction of that |
| Headers.CleanLessThan | src_server/tcp_server.cpp:300-335 | `clean("<")` is `&lt;` |
| Headers.EscapeLessThan | src_server/tcp_server.cpp:315 | '<' becomes `&lt;` |
| Headers.EscapeRemovesRule | src_server/tcp_server.cpp:302-324 | once a one-character target's escape has run, that character is gone for good |
| Headers.ReplaceAllMembers | src_server/tcp_server.cpp:302 | a replacement never leaves the replaced character behind and never adds one that neither text had |
| Headers.Kept | src_server/tcp_server.cpp:328-334 | the compaction keeps only characters of the input that are not below ' ' as a signed char |
| Headers.Compact | src_server/tcp_server.cpp:327-334 | the in-place compaction leaves `Kept` of the old contents at the front and returns its length |
| Guests.Cookie | src_server/tcp_server.cpp:41-55 | `c=` and ten octal digits of the random value, lowest first |
| Guests.NewGuest | src_server/tcp_server.cpp:38-63 | a new record has the cookie and its hash, user id 0 and both flags clear |
| Guests.CookieKeepsLowBits | src_server/tcp_server.cpp:46-55 | the cookie keeps the low 30 bits of the random value: they read back from it |
| Guests.Exchange | src_server/tcp_server.cpp:72-77 | `swap` exchanges members, keepalive and deflateSupported; user ids stay |
| Guests.SwapInvolution | src_server/tcp_server.cpp:72-77 | swapping twice restores the registry, and a swap never moves a user id |
| Guests.FirstFree | src_server/tcp_server.cpp:763-771 | the first record with user id 0, or `None` exactly when no record has it |
| Guests.FirstCookie | src_server/tcp_server.cpp:223-233 | the first record with the hash, or `None` exactly when no record has it |
| Guests.CookieStart | src_server/tcp_server.cpp:211-212 | 9 past `cookie:`, or 8 when it is absent (npos + 9 wraps) |
| Guests.RestoreNeedle | src_server/tcp_server.cpp:209-216 | the text hashed for the cookie: from 9 past `cookie:` (8 when it is absent) to the end of the header, or none when that start plus 2 reaches the end |
| Guests.NeedleMissesCookie | src_server/tcp_server.cpp:210-218 | for `cookie: c=...` the hashed text starts one byte late, so it is never a cookie the registry made |
| Guests.MissingCookieHashesFrom8 | src_server/tcp_server.cpp:211-218 | without a cookie field the hash covers the header from index 8 |
| Guests.Registry.constructor | src_server/tcp_server.cpp:743-747 | an empty registry |
| Guests.Registry.SetKeepalive | src_server/tcp_server.cpp:493-496 | only the session's record gets keepalive set |
| Guests.Registry.Swap | src_server/tcp_server.cpp:229 | the registry becomes `SwapAt` of the old one |
| Guests.Registry.Claim | src_server/tcp_server.cpp:760-774 | the first record with user id 0 gets the random user id and is returned; without one a new record with user id 0 is appended and returned |
| Guests.Registry.FindCookie | src_server/tcp_server.cpp:223-233 | the loop finds the first record holding the hash |
| Guests.Registry.RestoreUser | src_server/tcp_server.cpp:203-247 | the registry becomes `Restored` of the old one |
| Guests.Restored | src_server/tcp_server.cpp:203-234 | no needle means no change; otherwise the session's record swaps with the first record holding the hash, unless that is itself or there is none |
| Guests.RestoredKeepsUserids | src_server/tcp_server.cpp:220-234 | user ids stay at their indices, and the matched record's state now sits at the session's index |
| Guests.AppendedGuestStaysFree | src_server/tcp_server.cpp:772-773 | an appended record keeps user id 0, so the next claim hands it to a second session |
| Guests.ZeroUseridStaysFree | src_server/tcp_server.cpp:765-769 | a claim that draws user id 0 leaves the record free |
| Response.EmptyChunkIsLast | src_server/tcp_server.cpp:118 | an empty body framed as a chunk is exactly `0\r\n\r\n` |
| Response.StatusLine | src_server/tcp_server.cpp:94-95 | `HTTP/1.1 200 OK` or `HTTP/1.1 404 Not Found` with CRLF; nothing for any other status |
| Response.HeaderBlock | src_server/tcp_server.cpp:94-117 | the status line, the chunked, Content-Type and Connection lines; the block always ends with CR LF CR LF, the blank line that ends the header |
| Response.Chunk | src_server/tcp_server.cpp:118 | the size in lower-case hexadecimal, CRLF, the data, CRLF |
| Response.Page.constructor | src_server/tcp_server.cpp:132-134 | a new page starts a response on its next write |
| Response.Page.Buffers | src_server/tcp_server.cpp:136-173 | with `sendHeader`: a status line (only for 200 or 404), the chunked, Content-Type and Connection lines, a blank line and the first chunk, and `sendHeader` cleared; then a chunk per non-empty body; an empty body gives `0\r\n\r\n` and sets `done` and `sendHeader` |
| Response.ParseChunk | src_server/tcp_server.cpp:118 | what follows a parsed chunk is at least five framing bytes shorter than the input |
| Response.ChunkRoundTrip | src_server/tcp_server.cpp:118 | every chunk `insertBodyChunk` frames reads back as its data (section 7.1 of RFC 9112) |
| Response.DecodeWrites | src_server/tcp_server.cpp:160-172 | the chunks a page writes after its header block, then the last-chunk, decode to its bodies in order |
| Response.EmptyFirstChunkEndsResponse | src_server/tcp_server.cpp:142-159 | an empty first body is framed inside the header write as the last-chunk without setting `done`, so later writes fall past the end of the response |
| Session.Run | src_server/tcp_server.cpp:397-407 | the recogniser's state is always in 0..3 |
| Session.Step | src_server/tcp_server.cpp:400-404 | one byte of the CR LF CR LF recogniser: CR from 0 to 1, LF from 1 to 2, CR from 2 to 3, anything else back to 0 |
| Session.Sniff | src_server/tcp_server.cpp:388-395 | GET on `GET`, POST on `POST`, HEAD on `HEAD`, INDETERMINATE otherwise |
| Session.EndFrom | src_server/tcp_server.cpp:397-403 | an end found lies between the start and the end of the bytes |
| Session.Consumed | src_server/tcp_server.cpp:397-407 | the count never exceeds the bytes scanned |
| Session.HeaderPart | src_server/tcp_server.cpp:386-407 | at most the bytes read go to the header |
| Session.Cut | src_server/tcp_server.cpp:435-477 | the split point lies within the read |
| Session.Admitted | src_server/tcp_server.cpp:490-502 | `restoreUser` and the keep-alive switch keep the registry's size |
| Session.HttpSession.constructor | src_server/tcp_server.cpp:666-682 | a new session starts in the initial reception state: header phase, scanner state 0, empty header and body |
| Session.HttpSession.Parse | src_server/tcp_server.cpp:383-410 | the result is `ParseOutcome`: BAD without scanning when the sniff fails in the header phase, the sniffed method once the header ends, INDETERMINATE otherwise; `headerLength` and `endrequest` are the recogniser's count and state |
| Session.HttpSession.TakeHeader | src_server/tcp_server.cpp:435-467 | the first `headerLength` bytes go to `receivedHeader` and the rest, starting with the final LF, to `receivedBody`; a header over 128 bytes on a page not found is looked up, and a failed lookup sets 404 |
| Session.HttpSession.LookUp | src_server/tcp_server.cpp:448-452 | the status becomes 404 exactly when the page was not found, the header is over 128 bytes and the lookup fails |
| Session.HttpSession.TakeBody | src_server/tcp_server.cpp:469-480 | the whole read is appended to `receivedBody` |
| Session.HttpSession.Admit | src_server/tcp_server.cpp:486-504 | the header is lower-cased, the user restored, keep-alive switched on with its longer expiry when the guest lacks it and the header asks, and `connection; close` noted |
| Session.HttpSession.DoReadSome | src_server/tcp_server.cpp:412-414 | the buffer is zero-filled, the read expiry is set from `standby`, which drops to 0 |
| Session.HttpSession.Fill | src_server/tcp_server.cpp:597-602 | the bytes received land at the front of the buffer, the rest unchanged |
| Session.HttpSession.DoWrite | src_server/tcp_server.cpp:605-650 | the write expiry is set, the output is the page's next write for the guest's keepalive and the status, and the page's flags advance as `Page.Buffers` leaves them (`Page.Advanced`): the header write clears both, a data chunk keeps them, the last chunk sets both |
| Session.HttpSession.AnswerGet | src_server/tcp_server.cpp:483-511 | lower-cased header, the admitted registry, `connection; close` noted, the write expiry, the page's first write and the page's flags advanced |
| Session.HttpSession.PostPreamble | src_server/tcp_server.cpp:514-540 | the GET preamble, with the longer POST keep-alive expiry when keep-alive is switched on and the old expiry otherwise, then `bodyLength` read from the header the first time a POST header is complete |
| Session.HttpSession.SettleLength | src_server/tcp_server.cpp:539-540 | `bodyLength` is settled from `checkContentLength` |
| Session.HttpSession.Respond | src_server/tcp_server.cpp:548-580 | a complete body is handed over and the first write follows (`Wrote`): write expiry, the page's output, the page's flags advanced, `standby` and the buffer kept. Otherwise nothing is handed over and the body phase is entered or kept. The session then reads again (`ReadAgain`): zeroed buffer, read expiry from the old `standby`, `standby` at 0, `out` and the page kept |
| Session.HttpSession.AnswerPost | src_server/tcp_server.cpp:514-565 | the POST branch: lower-cased header, admitted registry, `connection; close` noted, `bodyLength` settled from the lower-cased header when it was -1, the way on is `Decide(POST, …)`, and the body phase holds exactly when the session reads again; then the write or the read as in `Respond` |
| Session.HttpSession.ContinueBody | src_server/tcp_server.cpp:567-579 | the BODY branch, as `Dispatched` states it for BODY: header, registry and length kept, the write once the body holds one byte more than the length, another read otherwise |
| Session.HttpSession.Receive | src_server/tcp_server.cpp:431-480 | the read is counted and classified; the header phase splits it at `HeaderPart`, and the body phase appends it whole, leaving header and scanner alone |
| Session.HttpSession.Dispatch | src_server/tcp_server.cpp:482-595 | the next step is `Decide`: a GET is answered; a POST when the body holds one byte more than the length or the length is below 2; a BODY read on the same equality; anything else reads again in the header phase; a body is handed over exactly on a POST or BODY write. `Dispatched` states the whole new state per branch over the old fields. GET and POST lower-case the header, admit the guest and note `connection; close`; a POST settles `bodyLength` from the header when it was -1; the body phase holds after a BODY read or an unanswered POST and ends otherwise. A write leaves `Wrote`, a read `ReadAgain` |
| Session.HttpSession.OnRead | src_server/tcp_server.cpp:417-595 | end-of-stream and unexpected errors close and change nothing. Otherwise the read is received: counted, split at `Cut`, with the scanner state and the 404 lookup as in `Receive`. It is then dispatched as `Dispatched` states over the old fields, with the header as the read left it |
| Session.HttpSession.TakeRead | src_server/tcp_server.cpp:431-595 | a read that did not fail, received and dispatched, with the same state as `OnRead` states for it |
| Session.HttpSession.OnWriteDone | src_server/tcp_server.cpp:608-645 | delivered bytes are counted. The decision is over the old `connectionclose` and the guest's old keep-alive: past 8 MiB, on an error or after `connection; close` the session closes; an unfinished page writes again; a finished page resets for the next request on a keep-alive guest and closes otherwise. A close changes nothing else. A write keeps the reception state and leaves `Wrote`. A reset leaves the initial state, a zeroed buffer, the read expiry for `standby` 1 and `standby` at 0, with `out` and the page kept |
| Session.HttpSession.Reset | src_server/tcp_server.cpp:706-719 | the reception state returns to that of a new session |
| Session.RunAppend | src_server/tcp_server.cpp:397-407 | scanning two reads in turn is scanning their concatenation: the state survives across reads |
| Session.EndAcrossReads | src_server/tcp_server.cpp:397-409 | a header split over two reads ends where it ends in the joined bytes |
| Session.EndFromMeans | src_server/tcp_server.cpp:397-403 | the end found is the first index whose byte ends the header, and none is found exactly when there is no such index |
| Session.FirstEndIs | src_server/tcp_server.cpp:397-403 | a qualifying index with no earlier one is the end found |
| Session.EndMeansBlankLine | src_server/tcp_server.cpp:400-403 | soundness: from state 0 the header ends on the LF of a CR LF CR LF |
| Session.BlankLineFound | src_server/tcp_server.cpp:400-404 | completeness: a CR LF CR LF not preceded by a CR ends the header at its last LF or earlier |
| Session.DoubleCrMissed | src_server/tcp_server.cpp:400-404 | a CR in state 1 resets to 0, so `\r\r\n\r\n` leaves the recogniser in state 2 although it holds CR LF CR LF |
| Session.ContinuationIsBad | src_server/tcp_server.cpp:388-395 | a header-phase read that does not start with a method word is BAD, unscanned, and lands whole in the body |
| Session.ShortReadIsBad | src_server/tcp_server.cpp:388-395 | a read too short for its method word sees the zero fill and is BAD |
| Session.PostReadSplit | src_server/tcp_server.cpp:442-465 | when a POST header ends in the read, the body starts with the final LF followed by the bytes after the blank line |
| Session.PostCompletes | src_server/tcp_server.cpp:548-564 | with a length of at least 2 the POST is answered exactly when the bytes after the blank line number the length; below 2 it always is |
| Session.OverrunNeverCompletes | src_server/tcp_server.cpp:568-580 | once the body holds more than one byte past the length, no later body read completes the request |
| Session.FillAfterZeros | src_server/tcp_server.cpp:412-414 | after the zero fill a read leaves exactly its bytes followed by zeros |

## Left out

- I/O and scheduling are not modelled. That covers async read, write, connect and resolve, the TLS handshake and SNI, the acceptor, socket options, socket shutdown and stream replacement, and deadline timers. Their results are event parameters, and an expiry is the seconds of the last `expires_after`, kept in a field.
- Concurrency is not modelled: mutexes, `shared_mutex`, atomics and memory orders. Every operation is one sequential step, and an atomic flag is a boolean.
- `simplehash`, `simplehash_x86_64`, `pcg64Rand` as seen by the guest code, and the page's virtual hooks are function or value parameters. Their bodies are not part of this model.
- Beast's request object is a map of header fields keyed by name; `prepare_payload` is modelled as writing the body's length only. The parsed response enters `doneRead` as its status, body, `keep_alive()` and the names of its fields.
- Pointers are indices. A `Guest*` is an index into the registry, so a `vector` reallocation on append is not modelled. Ring nodes are ids whose links live in two maps.
- `maxLenExceeded` (src_server/tcp_server.cpp:454) is a non-virtual member that always answers no in the base page, so that branch is left out.
- `page->reset()` in `reset` is a virtual hook and is not modelled.
- The HEAD branch is commented out in the source, and so are the session pool, zombie handling and the pool growth after "Exhausted". None of these is modelled.
- Debug printing, `snprintf` formatting and the STOPWATCH timing are not modelled.
- u32 (`std::uint_fast32_t`) is taken to be 32 bits wide. `char` is taken to be signed, as on x86-64.
- Headers.CheckContentLength: the signed `int` accumulator is unbounded, so the overflow of a very long digit run is not modelled. A scan start past the header's end is undefined behaviour in C++ and reads as 0 here.
- Session.HttpSession.Receive: `totalReceived` is an unbounded count, so its `int` overflow is not modelled. It is bumped after the split rather than before, which changes nothing because `parse` does not read it.
- Session.HttpSession.TakeHeader: requires the header's length to stay below 2^64 - 4, so the size_t wrap of `npos + 9` and `pos + 2` stays as the source has it.
- Guests.RestoreNeedle: the `substr` up to the blank line (src_server/tcp_server.cpp:217) discards its result, so it has no effect and is not modelled.
- Session.HttpSession.Admit: the keep-alive expiry it sets is at once replaced by the write or read expiry, as in the source.
- Pcg.ShiftRight: the right shift is modelled as repeated halving.
- Endpoint.Stoi: only the base-10 syntax without a `0x` prefix is modelled, which is what `stoi` uses by default.
- `Task`'s timer object and its dispatch callback are not modelled. A task is its node and its id, and a cancel is counted per node.
