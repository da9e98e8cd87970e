# Verified model of the reverse proxy

A Dafny model of the proxy's data plane and route reconciler, with proofs about
whole runs. `dafny verify dfyconfig.toml` checks every file.

| file | what it models |
|---|---|
| `Connection.dfy`, `ConnectionRuns.dfy`, `RunAgreement.dfy` | the keep-alive loop of the monoio data plane: one reused buffer, pipelining, body and response relaying, over any split of the streams into reads |
| `Http1.dfy`, `Http1Writer.dfy`, `Http1Framing.dfy` | HTTP/1.1 head parsing, head rewriting, and the fact that rewriting preserves framing |
| `Grammar.dfy`, `Utf8.dfy`, `Readings.dfy`, `ForwardedFields.dfy` | which lines and texts parse, what a complete head means, said on its header values, and every header of a rewritten head, name by name |
| `HopByHop.dfy` | the header-map form of hop-by-hop removal, compared with the byte-line form |
| `Nominations.dfy` | concrete messages whose `Connection` header breaks framing or the filters' agreement |
| `RouteTable.dfy`, `RouteScan.dfy`, `RouteMatching.dfy` | the route compiler and tiered lookup, refining a plain scan of the spec list, and what hostnames and paths match, said on the strings |
| `SharedGroups.dfy` | requests through one table: all patterns of a route share one target group and cursor |
| `UrlRewrite.dfy` | path rewriting and how it composes with matching |
| `Forwarding.dfy` | from a lookup in a compiled cluster state to the target sent upstream |
| `Gateway.dfy`, `Resolution.dfy`, `Reconciler.dfy` | compilation of cluster state into a table, and the watch / notify / debounce / publish protocol |
| `WeightedTable.dfy`, `Selection.dfy` | smooth weighted round robin and selection through a shared cursor |
| `Pool.dfy` | the upstream connection pool |
| `Simd.dfy`, `FxHash.dfy`, `CivilDate.dfy`, `Csv.dfy` | vector case folding, the routing hasher, civil dates, CSV quoting |

Conventions of the model:

- Byte strings are `string` in the HTTP modules and `seq<Byte>` in `Simd` and
  `FxHash`. Wrap-around (the 64-bit cursor, the 64-bit hash, the `u16` table index,
  the `u64` Content-Length) is written out; buffer lengths and counters are unbounded.
- A read returns an error, end of stream, or any non-empty chunk that fits the
  slot, chosen freely; a write puts out any prefix of its bytes and fails exactly
  when that is not all of them. A theorem about a run therefore holds for every split
  of the streams into reads and every failure. An environment may be `reliable`: then
  no read or write of an open connection fails, and the theorems say more.
- `httparse` is a line-level parser for CRLF heads that start at the request or
  status line; `matchit` is a first-wins map in which an equal static pattern wins and
  otherwise the longest `B/{*rest}` with a non-empty remainder.
- Scaling of weights above the cap uses exact rationals where the code uses `f64`.
- Clocks, the peer address, the upstream's bytes, the choice of endpoint per request, the instruction set and
  the iteration order of hash maps are parameters.

Results worth reading first:

1. `Connection.ServeConnection` with `ConnectionRuns.ForwardsMessages`,
   `ReadsDoNotMatter` and `UpstreamSeesMessage`: byte conservation over a whole
   connection. What is forwarded is exactly the stream's own messages, however the
   reads fell, and the upstream sees the same boundaries. `ForwardsAll`: nothing is
   dropped. `RunAgreement.RunsAgree`: the whole run is decided by the stream and the
   environment. `DispositionHonoured` and `ErrorsClose`: what the client is told about the
   connection is what the loop does.
2. `RouteScan.LookupRefinesScan`: building the table and looking up equals one scan
   of the spec list for the best (host tier, path) rank, earliest spec first;
   `RouteMatching.LookupPicksPreferred` says the same on the strings of the list, and
   `Resolution.FoundWasAskedFor` on the objects of the cluster state.
3. `WeightedTable.ExactShare`, `Spread`, `NoStarvation` and
   `SharedGroups.RouteFair`: exact shares, bounded deviation at every prefix, and
   fairness per route under every interleaving of requests.
4. `Http1Framing.ForwardPreservesFraming` and `ReturnPreservesFraming`: a rewritten
   head parses back to the same message framing exactly when `Connection` nominates
   no header that decides it.
5. `Reconciler.NoLostUpdate`, `QuietLookups` and `Settles`: no update is lost, and the
   rebuild task always reaches the state in which the published table is current.

Properties that do not hold of the code, with their exact conditions:

- A framing header named by `Connection` is removed by the rewriters, which changes
  the framing of the forwarded message: the `<==>` in `ForwardPreservesFraming` and
  `ReturnPreservesFraming`; instances `ForwardedFramingLost` and `ReturnedFramingLost`.
- A `ReplacePrefixMatch` filter on a route written with the `/*` shorthand is skipped
  (the stored prefix keeps the star): `RewriteTakesEffect` gives the condition,
  `ShorthandRewriteSkipped` an instance.
- A watcher's `Init` clears its map without notifying, so a quiet system can serve
  a stale table until `InitDone`: `RouteInitStale` and `SliceInitStale` give the
  conditions, `InitLeavesStaleTable` a run; `NoLostUpdate` asks for a completed `Init`.
- The two hop-by-hop filters differ on `Connection` values that are not visible
  ASCII, which only the byte-line form reads: the `<==>` in `FiltersAgree`; instance
  `FiltersDiffer`.
- Above 65536 endpoints of a weighted group the `u16` index loses shares: the `<==>` in
  `StoredTableExact`; instance `IndexInstance`.
- The weight table is not strictly capped at 4096 slots: `CapExceeded` gives the
  condition, `CapInstance` a table of 4097; `ScaledTable` bounds the excess.
- A run of selections that wraps the 64-bit cursor is fair only under the conditions
  of `WrapFairness` (round robin) and `WrapFairnessOf` (any cycle); instance `WrapInstance`.
- `split_header_lines` does not join folded lines, although its comment says that
  it does; the model follows the code, and folded lines do not parse as headers.
- `escape` also quotes fields with a line feed, although its comment mentions
  only commas and quotes; the model follows the code.

## Model

| member | source | states |
|---|---|---|
| `Connection.SlotNeverEmpty` | crates/proxy-monoio/src/server.rs:575-586 | growing never offers an empty read slot and never cuts off buffered bytes, so a zero-byte read always means close |
| `Connection.GrowthIsGeometric` | crates/proxy-monoio/src/server.rs:568-586 | buffers start at 4 KiB, at most double, grow towards 32 KiB of room, and stay as they are while 4 KiB are free |
| `Connection.FallbackEmpties` | crates/proxy-monoio/src/server.rs:331-339 | the fallback compaction branch always leaves nothing buffered |
| `Connection.CompactKeeps` | crates/proxy-monoio/src/server.rs:327-330 | compaction moves exactly the unconsumed tail to the front |
| `Connection.ReadInto` | crates/proxy-monoio/src/server.rs:218-231 | one read takes a prefix of the unread stream, puts it at the offset and leaves the bytes before it alone |
| `Connection.RelayStep` | crates/proxy-monoio/src/server.rs:491-504 | one read is written on as it is: what was put out and what is unread are the old stream, and a failed write put out only a prefix |
| `Connection.RelayExact` | crates/proxy-monoio/src/server.rs:478-507 | sent plus unread is the old stream; success sends exactly the length asked for, end of stream means fewer bytes arrived |
| `Connection.RelayChunked` | crates/proxy-monoio/src/server.rs:513-540 | bytes are copied verbatim, in order, without loss, and the relay stops before the end of the stream only behind a zero-length chunk |
| `Connection.RelayUntilClose` | crates/proxy-monoio/src/server.rs:543-566 | on success the whole remaining stream has been copied |
| `Connection.ReadMore` | crates/proxy-monoio/src/server.rs:218-231 | buffered plus unread bytes are conserved and progress is made |
| `Connection.ReadHead` | crates/proxy-monoio/src/server.rs:154-232 | bytes are conserved; each outcome (head, malformed, too large, HTTP/2, end) is what the buffered bytes say, the preface mattering before the first request only |
| `Connection.SendFixed` | crates/proxy-monoio/src/server.rs:295-310 | exactly the Content-Length body is taken from buffered then unread bytes, and the rest keeps its order |
| `Connection.SendChunked` | crates/proxy-monoio/src/server.rs:311-321 | everything buffered and then the relayed bytes go out in order, none lost |
| `Connection.SendBody` | crates/proxy-monoio/src/server.rs:289-325 | body sent, left over and unread bytes make up the old bytes, for every framing |
| `Connection.RelayRequestBody` | crates/proxy-monoio/src/server.rs:289-340 | after the body the buffer starts at the very next byte of the client's stream |
| `Connection.ReadResponseHead` | crates/proxy-monoio/src/server.rs:391-423 | the head found is the one at the front of the upstream's stream, and bytes are conserved |
| `Connection.SendReplyBody` | crates/proxy-monoio/src/server.rs:434-469 | the body returned is a prefix of the upstream's bytes behind its head, complete as framing says |
| `Connection.SendReply` | crates/proxy-monoio/src/server.rs:425-475 | the reply is the rewritten head with the disposition it announces, followed by the body |
| `Connection.RelayResponse` | crates/proxy-monoio/src/server.rs:384-475 | a relayed reply is faithful to the upstream's stream and is exactly what the client got; a malformed stream is answered with the 502 (all of it unless writing fails) and no reply, an incomplete one with nothing; where no I/O fails an unfinished reply means that the upstream closed inside a Content-Length body |
| `Connection.PrepareForward` | crates/proxy-monoio/src/server.rs:236-271 | the head to send is the original head rewritten for the route found, or there is no route |
| `Connection.FinishExchange` | crates/proxy-monoio/src/server.rs:342-358 | the loop goes on if and only if the exchange finished and announced keep-alive; every other end says what the upstream stream did |
| `Connection.RelayExchange` | crates/proxy-monoio/src/server.rs:288-358 | the exchange consumes the next bytes of the stream and leaves all others in order |
| `Connection.ServeRequest` | crates/proxy-monoio/src/server.rs:234-358 | one pass accounts for every byte read and every byte written to the client, and says why the run ends if it does; the 404 or 502 is written whole unless writing fails |
| `Connection.Turn` | crates/proxy-monoio/src/server.rs:152-359 | one turn keeps the history faithful, exchanges plus buffered plus unread bytes equal to the stream, and the log equal to the replies |
| `Connection.Handle` | crates/proxy-monoio/src/server.rs:234-358 | the part of a turn behind a complete head keeps the same account, or ends the run with its explanation |
| `Connection.EndTurn` | crates/proxy-monoio/src/server.rs:183-215 | the part of a turn without a complete head: the bytes read say why it ends, and the 400 or 431 of that end is written whole unless writing fails |
| `Connection.TakeExchange` | crates/proxy-monoio/src/server.rs:327-340 | appending a served exchange keeps the byte account and the history |
| `Connection.TakeReply` | crates/proxy-monoio/src/server.rs:398-432 | appending a served exchange keeps the log of the client's bytes |
| `Connection.ServeConnection` | crates/proxy-monoio/src/server.rs:137-360 | for every stream and every split into reads: exchanges plus rest are the stream; each exchange is routed, forwarded and answered faithfully; all earlier ones finished with keep-alive, and the last one did if and only if the run ended while reading for another request; at most 100000 are served; the run ends by announced close exactly when the last reply says so; every other end is explained by the bytes, or, in an environment where reads or writes can fail, by such a failure; and the client was sent the replies in order, then the error of that end, whole unless writing fails |
| `ConnectionRuns.RunFollowsMessages` | crates/proxy-monoio/src/server.rs:152-340 | after k exchanges the messages still to come are those of the bytes still to come |
| `ConnectionRuns.ForwardsMessages` | crates/proxy-monoio/src/server.rs:152-340 | the k-th exchange carries head and body of the k-th message of the byte stream, defined without any buffer |
| `ConnectionRuns.ForwardsAll` | crates/proxy-monoio/src/server.rs:152-340 | when the client closed or sent something malformed, and no body was chunked, every message of the stream was forwarded |
| `ConnectionRuns.PrefaceIsNoRequest` | crates/proxy-monoio/src/http2.rs:46-56 | bytes that may still become the HTTP/2 preface frame no HTTP/1.1 request |
| `ConnectionRuns.PrefaceSniffed` | crates/proxy-monoio/src/http2.rs:46-56 | HTTP/2 if the bytes start with the whole preface, undecided while they are a proper part of it, otherwise not |
| `ConnectionRuns.ReadsDoNotMatter` | crates/proxy-monoio/src/server.rs:152-340 | two runs on one stream, whatever their reads, forward the same bytes for the k-th request |
| `RunAgreement.RunsAgree` | crates/proxy-monoio/src/server.rs:152-358 | two runs on one stream, whatever their reads, serve the same number of requests, forward the same bytes, relay the same replies (up to where a chunked one was cut), end for the same reason and leave the same bytes; excepted are failed I/O, chunked requests and heads over 64 KiB |
| `RunAgreement.ClientSeesTheSame` | crates/proxy-monoio/src/server.rs:152-358 | where no I/O fails and no reply is chunked, the client is sent the same bytes whatever the reads |
| `RunAgreement.SameEnding` | crates/proxy-monoio/src/server.rs:342-358 | an exchange that ends two runs ends them for the same reason |
| `RunAgreement.EndedNotKept` | crates/proxy-monoio/src/server.rs:342-358 | an exchange that ends one run does not keep another one going |
| `ConnectionRuns.UpstreamSeesMessage` | crates/proxy-monoio/src/server.rs:263-325 | the upstream, parsing what it is sent, finds exactly this head and this body |
| `ConnectionRuns.DispositionHonoured` | crates/proxy-monoio/src/server.rs:343-358 | a finished response head says close if and only if the connection then ends by announcement, and keep-alive if and only if another exchange follows or the run ends while reading for one; the 100000th says close; the head stands in the client's log behind the earlier replies |
| `ConnectionRuns.DispositionDue` | crates/proxy-monoio/src/server.rs:343-358 | after a finished exchange the connection ends, and the returned head says close, if and only if the client asked for it, the reply runs to the end of the upstream connection, or it was request number 100000 |
| `ConnectionRuns.ErrorsClose` | crates/proxy-monoio/src/server.rs:196-281 | a run that ends in a proxy-made error (400, 404, 431, 502) sent, after the replies, nothing but that error, all of it unless writing fails, and it parses as its status with an empty body and close |
| `ConnectionRuns.RefusedForSize` | crates/proxy-monoio/src/server.rs:206-215 | only a head of which 65536 bytes arrived without its end is refused for its size |
| `ConnectionRuns.ReliableRun` | crates/proxy-monoio/src/server.rs:137-360 | where no read or write fails, no run ends in a failure, every client byte is accounted for and the client got every reply and the error due |
| `Http1.ApplyConnection` | crates/proxy-monoio/src/http1.rs:123-134 | the token loop gives the disposition of the last close or keep-alive token |
| `Http1.ScanRequest` | crates/proxy-monoio/src/http1.rs:103-156 | the header loop equals declarative framing: last Host, every Content-Length valid and the last one taken, Transfer-Encoding first |
| `Http1.ParseRequest` | crates/proxy-monoio/src/http1.rs:79-156 | the parser computes the declarative reading of the head |
| `Http1.ScanResponse` | crates/proxy-monoio/src/http1.rs:176-231 | the response header loop equals declarative framing, bodyless statuses included |
| `Http1.ParseResponse` | crates/proxy-monoio/src/http1.rs:163-231 | the response parser computes the declarative reading of the head |
| `Http1.ReadLinesShape` | crates/proxy-monoio/src/http1.rs:79-86 | the bytes of a complete head are its lines and a blank line, nothing more |
| `Http1.ParseStable` | crates/proxy-monoio/src/http1.rs:79-86 | a decision made on a prefix stays the same on every extension, for requests and responses |
| `Http1.HeadAlone` | crates/proxy-monoio/src/http1.rs:79-156 | a complete head is decided by its own bytes alone |
| `Http1.ResponseHeadAlone` | crates/proxy-monoio/src/http1.rs:163-231 | the same for responses |
| `Http1.ReadUnlines` | crates/proxy-monoio/src/http1.rs:239-297 | printing clean lines and a blank line reads back as those lines, whatever follows |
| `Readings.RequestBodyIs` | crates/proxy-monoio/src/http1.rs:137-145 | chunked if the last readable Transfer-Encoding ends in chunked, whatever Content-Length says; otherwise as long as the decimal number of the last Content-Length, or empty |
| `Readings.ResponseBodyIs` | crates/proxy-monoio/src/http1.rs:205-223 | no body to HEAD or with 204, 304 and 1xx; otherwise chunked, as long as Content-Length says, or up to the end of the connection |
| `Readings.RequestCloseIs` | crates/proxy-monoio/src/http1.rs:103-134 | the last close or keep-alive token of all readable Connection values decides, and without one the version HTTP/1.0 |
| `Readings.ResponseCloseIs` | crates/proxy-monoio/src/http1.rs:178-202 | the same for responses |
| `Readings.DecimalReads` | crates/proxy-monoio/src/http1.rs:111-115 | the decimal text of every 64-bit number is read as that number |
| `Readings.LengthIs` | crates/proxy-monoio/src/http1.rs:110-115 | a Content-Length is read as n if and only if it is UTF-8 text that, trimmed, is an optional plus, any zeros and the decimal text of n, within 64 bits |
| `Readings.ChunkedIs` | crates/proxy-monoio/src/http1.rs:116-122 | a Transfer-Encoding counts as chunked by what follows the last comma of the last readable value |
| `Utf8.EncodingsValid` | crates/core/src/simd.rs:22-27 | the UTF-8 encoding of any scalar values is accepted as text |
| `Utf8.ValidIsEncoded` | crates/core/src/simd.rs:22-27 | and nothing else is: an accepted text is the encoding of scalar values, so overlong forms and surrogates are refused |
| `Utf8.TrimTextIs` | crates/proxy-monoio/src/http1.rs:111-122 | trimming the bytes of a text removes exactly the Unicode white space characters at both ends |
| `Grammar.RequestLineIs` | crates/proxy-monoio/src/http1.rs:79-94 | a line parses as method, target and version if and only if it is a token, a visible text and one of the two versions between single spaces |
| `Grammar.HeaderLineIs` | crates/proxy-monoio/src/http1.rs:80-86 | a line parses as a header if and only if it is a token, a colon and a field text; the value is that text without the blanks around it |
| `Grammar.StatusLineIs` | crates/proxy-monoio/src/http1.rs:163-174 | a line parses as a status if and only if it is a version, a space, its three digits and a reason |
| `Readings.HeaderLimit` | crates/proxy-monoio/src/http1.rs:79-86 | a head of well-formed lines is accepted exactly up to 96 headers and with readable lengths |
| `Http1Writer.CopyLines` | crates/proxy-monoio/src/http1.rs:265-280 | the copy loop writes exactly the surviving lines in order and keeps the last X-Forwarded-For value |
| `Http1Writer.AppendOwnLines` | crates/proxy-monoio/src/http1.rs:282-296 | the proxy's own lines: Host, the extended X-Forwarded-For, X-Forwarded-Proto |
| `Http1Writer.WriteForwardHead` | crates/proxy-monoio/src/http1.rs:239-297 | the writer produces the forwarded head as a function of the original head, target, host and peer |
| `Http1Writer.WriteReturnHead` | crates/proxy-monoio/src/http1.rs:301-332 | the writer produces the returned head as a function of the original head and the disposition |
| `Http1Framing.BlockIsLines` | crates/proxy-monoio/src/http1.rs:393-400 | splitting the header block gives back the parsed header lines |
| `Http1Framing.SurvivingName` | crates/proxy-monoio/src/http1.rs:266-280 | which header names pass the filter |
| `Http1Framing.SurvivingValues` | crates/proxy-monoio/src/http1.rs:359-391 | the filter removes Connection (and Host when forwarding) and keeps framing values unless nominated |
| `Http1Framing.FilterValues` | crates/proxy-monoio/src/http1.rs:266-280 | filtering lines keeps or removes all values of a name together |
| `Http1Framing.ForwardLinesParse` | crates/proxy-monoio/src/http1.rs:265-297 | the forwarded lines parse, with one Host, no Connection and the original framing values |
| `Http1Framing.PrintedHeader` | crates/proxy-monoio/src/http1.rs:282-296 | a printed header line parses back to its name and value |
| `Http1Framing.PrintedRequestLine` | crates/proxy-monoio/src/http1.rs:248-252 | a printed request line parses back to method and target |
| `Http1Framing.ForwardPreservesFraming` | crates/proxy-monoio/src/http1.rs:239-297 | re-parsing a forwarded head gives the same method, the new target, the upstream host and no close, and the same body length exactly when no header deciding it is nominated |
| `Http1Framing.ReturnPreservesFraming` | crates/proxy-monoio/src/http1.rs:301-332 | re-parsing a returned head gives the same status and the announced disposition, and the same body length exactly when no header deciding it is nominated |
| `ForwardedFields.RequestForwardedAs` | crates/proxy-monoio/src/http1.rs:254-296 | under every header name the forwarded head carries exactly what arrived, except that hop-by-hop and nominated names are gone, Host is the upstream, the peer is appended to the last X-Forwarded-For value and the protocol is added |
| `ForwardedFields.ResponseReturnedAs` | crates/proxy-monoio/src/http1.rs:314-331 | under every header name the returned head carries exactly what arrived, except that hop-by-hop and nominated names are gone and Connection is the disposition |
| `ForwardedFields.NominatedIs` | crates/proxy-monoio/src/http1.rs:359-376 | a name is nominated exactly when it is, trimmed and in lower case, a token of some Connection value other than close and keep-alive |
| `ForwardedFields.ChainIs` | crates/proxy-monoio/src/http1.rs:265-277 | the chain that is extended is the last X-Forwarded-For value, unless that name was nominated |
| `Http1Framing.ErrorResponseCloses` | crates/proxy-monoio/src/http1.rs:336-339 | every error made by the proxy parses as an empty response that announces close |
| `HopByHop.RemoveAll` | crates/core/src/proxy.rs:47-52 | the removal loop takes out every listed name and nothing else |
| `HopByHop.StripHopByHop` | crates/core/src/proxy.rs:43-53 | the header map keeps exactly the headers outside the dropped names, in order |
| `HopByHop.NominationSplit` | crates/core/src/proxy.rs:61-83 | a name is nominated for the byte-line form exactly when it is for the map form or stands in a value that form cannot read |
| `HopByHop.NominatedByValue` | crates/proxy-monoio/src/http1.rs:359-376 | blanks around a Connection value do not change what it nominates |
| `HopByHop.LineFilter` | crates/proxy-monoio/src/http1.rs:359-391 | the byte-line filter is, on parsed headers, removal of a set of names |
| `HopByHop.FiltersAgree` | crates/core/src/proxy.rs:43-83 | the two filters keep the same names with the same ordered values exactly when no header is nominated only by an unreadable value |
| `HopByHop.StripIdempotent` | crates/core/src/proxy.rs:43-53 | stripping twice is stripping once |
| `HopByHop.LineFilterIdempotent` | crates/proxy-monoio/src/http1.rs:260-280 | filtering lines twice is filtering them once |
| `Nominations.ForwardedFramingLost` | crates/proxy-monoio/src/http1.rs:260-280 | a concrete request nominating its Content-Length of 5 is forwarded with another body length |
| `Nominations.ReturnedFramingLost` | crates/proxy-monoio/src/http1.rs:314-325 | a concrete response nominating its Content-Length of 5 is returned with another body length |
| `Nominations.FiltersDiffer` | crates/core/src/proxy.rs:61-68 | a concrete header list with a byte above 0x7F in Connection on which the two filters differ |
| `RouteTable.RouteTableBuilder.Add` | crates/core/src/route_table.rs:292-331 | adding a spec keeps the buckets equal to those of the spec list |
| `RouteTable.RouteTableBuilder.Build` | crates/core/src/route_table.rs:338-373 | the table built is the one defined by the list of specs added |
| `RouteTable.PushPatterns` | crates/core/src/route_table.rs:308-328 | every expanded pattern is pushed with the same action |
| `RouteTable.CompileRoutes` | crates/core/src/route_table.rs:339-347 | inserting in order keeps the first action of every pattern |
| `RouteTable.CompileAll` | crates/core/src/route_table.rs:353-371 | every bucket becomes its own router |
| `RouteTable.WalkWildcards` | crates/core/src/route_table.rs:104-123 | the dot-by-dot walk visits every dot suffix once, longest first, and stops at the first hit |
| `RouteTable.OneDot` | crates/core/src/route_table.rs:109-121 | at the next dot the suffix answers, or the walk goes on behind that dot |
| `RouteTable.NormalizeHost` | crates/core/src/route_table.rs:83-93 | folding the stripped host into the 256-byte buffer with any of the vector routines, or keeping it when it does not fit, gives the routing name |
| `RouteTable.SameName` | crates/core/src/route_table.rs:83-93 | two hosts get one routing name if and only if, ports aside, they have one length and agree up to ASCII case (within 256 bytes) or exactly (beyond) |
| `RouteTable.Lookup` | crates/core/src/route_table.rs:80-128 | the lookup tries exact, wildcard and default tiers, falling through on a path miss |
| `RouteScan.ScanIsBest` | crates/core/src/route_table.rs:80-128 | the reference scan returns the earliest spec of the highest rank, and that spec is unique |
| `RouteScan.RouterOwner` | crates/core/src/route_table.rs:338-373 | a pattern belongs to the first spec of its host class that expands to it |
| `RouteScan.ExpandRank` | crates/core/src/route_table.rs:207-244 | matching an expanded pattern is matching the spec's path at a segment boundary, at the same rank |
| `RouteScan.TierIsBest` | crates/core/src/route_table.rs:46-51 | one router answers with the best spec of its host class, or no spec of it matches |
| `RouteScan.WalkIsBest` | crates/core/src/route_table.rs:104-123 | the suffix walk answers from the longest suffix that has a matching spec |
| `RouteScan.LookupRefinesScan` | crates/core/src/route_table.rs:80-128 | for every spec list, host and path, compile plus lookup equals the scan: host tier, then longest base, then insertion order |
| `RouteMatching.LookupPicksPreferred` | crates/core/src/route_table.rs:80-128 | said on the strings: something is found if and only if the hostname and path of some route match, and then the route of the most specific hostname, then of the most specific path, then the earliest |
| `RouteMatching.HostIs` | crates/core/src/route_table.rs:314-327 | a hostname matches any host if absent or a star, the names ending in its suffix if it starts with a star and a dot, and otherwise its own name, in lower case |
| `RouteMatching.PathIs` | crates/core/src/route_table.rs:207-244 | an exact path matches itself; a prefix, or any of the star shorthands, matches its base up to trailing slashes and whatever lies below it at a slash |
| `RouteMatching.PortIgnored` | crates/core/src/simd.rs:42-55 | in every table a Host with a port gets the answer of the host alone |
| `RouteMatching.BracketPortIgnored` | crates/core/src/simd.rs:42-55 | in every table an address literal gets the answer of its bracketed part alone |
| `RouteMatching.HostAnswers` | crates/core/src/route_table.rs:80-128 | a route for a host name answers for it in any case and with any port, on every rooted path |
| `RouteScan.HostFolding` | crates/core/src/route_table.rs:80-128 | hosts whose bytes compare equal ignoring ASCII case, ports aside and within 256 bytes, get the same answer from every table |
| `RouteScan.HostsToldApart` | crates/core/src/route_table.rs:80-128 | hosts with different routing names are told apart by some table |
| `UrlRewriting.ApplyUrlRewrite` | crates/core/src/filter.rs:172-206 | the in-place construction computes the rewritten path |
| `UrlRewriting.PrefixMatchedStrips` | crates/core/src/filter.rs:172-206 | a path matched by a route without the shorthand starts with its trimmed prefix, and the remainder is empty or starts with a slash |
| `UrlRewriting.RewriteComposes` | crates/core/src/filter.rs:172-206 | the result is trimmed replacement plus remainder (or the root), with no double slash at the seam, rooted if the replacement is |
| `UrlRewriting.RewriteTakesEffect` | crates/core/src/gateway.rs:387-397 | a matched path is rewritten if and only if the route has no shorthand or the path carries the star itself |
| `UrlRewriting.ShorthandRewriteSkipped` | crates/core/src/gateway.rs:387-397 | an instance of a shorthand route whose rewrite is skipped |
| `Gateway.AddMatches` | crates/core/src/gateway.rs:320-332 | the inner loop adds one spec for each match under one hostname |
| `Gateway.AddRule` | crates/core/src/gateway.rs:279-334 | a rule adds one spec for each hostname and match, or none without endpoints |
| `Gateway.AddRules` | crates/core/src/gateway.rs:279-334 | the rules of a route add their specs in order |
| `Gateway.AddRoute` | crates/core/src/gateway.rs:275-335 | only routes attached to this Gateway add specs |
| `Gateway.CompileState` | crates/core/src/gateway.rs:271-339 | the compile loop yields the table of the spec list in iteration order |
| `Gateway.RouterTargets` | crates/core/src/route_table.rs:338-373 | the target under a pattern is that of the first spec expanding to it |
| `Gateway.SameTargets` | crates/core/src/gateway.rs:271-339 | a pattern produced by a single route has the same target in every iteration order |
| `Gateway.CompileOrderIrrelevant` | crates/core/src/gateway.rs:271-339 | if no two attached routes share a host and pattern, all iteration orders give the same lookups |
| `Gateway.SpecOrigin` | crates/core/src/gateway.rs:271-366 | every spec comes from a rule of a route that is ours, with that rule's endpoints, hostname, match and compiled rewrite |
| `Resolution.ResolveAllIs` | crates/core/src/gateway.rs:242-268 | the endpoints of a rule are, reference by reference, the ready endpoints on the wanted port, each once and in order, with the clamped weight, or the Service DNS name if there is none; namespace and port default to those of the route and to 80 |
| `Resolution.AttachesIs` | crates/core/src/gateway.rs:345-366 | a route takes part if no Gateway is named, if it has no parents, or if a parent names the Gateway within reach |
| `Resolution.DeclaresIs` | crates/core/src/gateway.rs:312-317 | the hostnames of a route, or any host |
| `Resolution.ClaimsIs` | crates/core/src/gateway.rs:289-310 | the path matches of a rule, or every path; Exact only where it says so |
| `Resolution.RewriteIs` | crates/core/src/gateway.rs:387-405 | the last URLRewrite filter that carries a path decides the rewrite |
| `Resolution.FoundWasAskedFor` | crates/core/src/gateway.rs:271-339 | everything a lookup finds is what a rule of an attached route asked for: host, path, endpoints, rewrite and name |
| `Resolution.EverythingServed` | crates/core/src/gateway.rs:279-334 | every hostname and match of every rule with a backend in every attached route has its spec |
| `Gateway.LookupIsOurs` | crates/core/src/gateway.rs:345-366 | every action found belongs to a route accepted by the attachment test, and its spec matches the request |
| `Forwarding.ForwardsByRule` | crates/proxy-monoio/src/server.rs:240-260 | end to end from cluster state to upstream target: what is sent is the work of a matching rule of an attached route; without a rewrite the target as it came, for a full replacement the replacement and the query, for a prefix replacement without the shorthand the trimmed replacement, the unmatched remainder and the query |
| `Forwarding.TargetParts` | crates/proxy-monoio/src/server.rs:598-614 | a target is its path, up to the first question mark, and the rest |
| `Forwarding.QueryKept` | crates/proxy-monoio/src/server.rs:251-260 | routing looks at the path only, and a query goes upstream as it came |
| `Forwarding.RewrittenPath` | crates/core/src/filter.rs:172-206 | the prefix rewrite of a matched path, the empty path included |
| `Forwarding.PrefixOfMatch` | crates/core/src/gateway.rs:387-397 | the prefix a rewrite strips is the trimmed path of its own match |
| `Reconciler.StepInv` | crates/core/src/gateway.rs:470-557 | every step of every task keeps the no-lost-update invariant |
| `Reconciler.RunInv` | crates/core/src/gateway.rs:426-624 | the invariant holds in every state of every interleaving |
| `Reconciler.StateMirrorsEvents` | crates/core/src/gateway.rs:470-557 | in every interleaving the cluster state knows a route or a slice exactly as the last watch event on it said |
| `Reconciler.NoLostUpdate` | crates/core/src/gateway.rs:605-624 | when all is quiet the published table is a compile of the current cluster state |
| `Reconciler.QuietLookups` | crates/core/src/gateway.rs:605-624 | when all is quiet and no routes collide, lookups are those of any compile of the current state |
| `Reconciler.PublishedSnapshots` | crates/core/src/gateway.rs:605-624 | every published table is a compile of one past state, and those states never go back in time |
| `Reconciler.NeverBlocked` | crates/core/src/gateway.rs:605-624 | while a rebuild is owed the rebuild task can take a step |
| `Reconciler.Settles` | crates/core/src/gateway.rs:605-624 | left alone, the rebuild task reaches a current table in a fixed number of steps and then waits |
| `Reconciler.InitLeavesStaleTable` | crates/core/src/gateway.rs:479-511 | a run in which Init leaves a stale table published with all tasks waiting |
| `Reconciler.RouteInitStale` | crates/core/src/gateway.rs:508-511 | after an Init of the routes the published table is current if and only if the cleared state had compiled to no route |
| `Reconciler.TablesDiffer` | crates/core/src/route_table.rs:338-373 | two spec lists with the same matches compile to one table if and only if the specs in force have the same targets |
| `Reconciler.SliceInitStale` | crates/core/src/gateway.rs:545-548 | after an Init of the slices the published table is the compile of the new state, in the unchanged route order, if and only if every spec in force resolves to the targets it had |
| `WeightedTable.ScaledTable` | crates/core/src/target.rs:142-157 | below the cap the shares are the weights; above it the table is within n slots of 4096 and every endpoint keeps a slot |
| `WeightedTable.ScaleWeightError` | crates/core/src/target.rs:143-156 | one scaled weight is within one slot of its exact proportion |
| `WeightedTable.ExcessExact` | crates/core/src/target.rs:143-156 | what rounding adds to one weight, read off the remainder of the division |
| `WeightedTable.CapExceeded` | crates/core/src/target.rs:142-157 | the table is longer than 4096 slots if and only if the total exceeds 4096 and the rounding remainders add up to a gain; at or below the cap its length is the total |
| `WeightedTable.CapInstance` | crates/core/src/target.rs:153-157 | weights 1000000 and 1 give 4097 slots |
| `WeightedTable.CreditInvariant` | crates/core/src/target.rs:158-171 | after every round the credits sum to zero and each stays above minus the total |
| `WeightedTable.CreditFormula` | crates/core/src/target.rs:158-171 | a credit is what the endpoint earned minus what its picks cost |
| `WeightedTable.Spread` | crates/core/src/target.rs:158-172 | after k slots the picks of an endpoint are less than one above and at most n - 1 below its share |
| `WeightedTable.ExactShare` | crates/core/src/target.rs:153-172 | one table holds endpoint i exactly its scaled weight times and all credits return to zero |
| `WeightedTable.CyclicTable` | crates/core/src/target.rs:182-200 | serving the table cyclically is running the scheduler without end |
| `WeightedTable.NoStarvation` | crates/core/src/target.rs:153-172 | a window worth n turns of an endpoint's share serves that endpoint, wherever it starts |
| `WeightedTable.StoredTableExact` | crates/core/src/target.rs:161-172 | the stored table gives exact shares if and only if the indices fit 16 bits |
| `WeightedTable.IndexInstance` | crates/core/src/target.rs:161-172 | with 65537 endpoints of weights 2, 1, 1, ... some endpoint does not get its share |
| `WeightedTable.ScheduleRound` | crates/core/src/target.rs:162-169 | one round in place: bump every credit, charge the first maximum |
| `WeightedTable.RunRounds` | crates/core/src/target.rs:158-172 | the credit loop pushes the scheduler's picks |
| `WeightedTable.ExpandWeights` | crates/core/src/target.rs:142-173 | the table built is the narrowed scheduler run |
| `Selection.PolicyShares` | crates/core/src/target.rs:109-137 | every policy gives each member its compiled share, and only live endpoints (or the placeholder) are members |
| `Selection.SharesFollowWeights` | crates/core/src/target.rs:109-172 | in terms of the endpoint list: equal weights get one slot each, others as many slots as their weight, to within one slot of the proportion when the weights exceed the cap |
| `Selection.Proportional` | crates/core/src/target.rs:114-132 | up to the cap slots are in exact proportion to the weights |
| `Selection.MembersAre` | crates/core/src/target.rs:110-116 | the members are the endpoints of positive weight, or the placeholder 127.0.0.1:80 if there is none |
| `Selection.TargetGroup.constructor` | crates/core/src/target.rs:109-137 | the group holds the policy of its endpoints and a cursor at zero |
| `Selection.TargetGroup.Select` | crates/core/src/target.rs:182-200 | a selection serves the slot of the old cursor, and only the multi-endpoint policies advance it |
| `Selection.FullTurns` | crates/core/src/target.rs:182-200 | m full turns from any start pick endpoint i exactly m times its share |
| `Selection.RoundRobinBalanced` | crates/core/src/target.rs:182-200 | over any window two round-robin endpoints differ by at most one |
| `Selection.RoundRobinWindow` | crates/core/src/target.rs:182-200 | over any window a round-robin endpoint gets the floor of its share or one more |
| `Selection.RoundRobinRun` | crates/core/src/target.rs:182-200 | between any two moments of any interleaved run without a wrap, the selections begun are spread over the endpoints to within one |
| `Selection.RunConserves` | crates/core/src/target.rs:182-200 | in every interleaving the tickets taken and finished are exactly those issued, each once |
| `Selection.HitsPermute` | crates/core/src/target.rs:182-200 | the order in which tickets are served does not change the counts |
| `Selection.FairSelection` | crates/core/src/target.rs:182-200 | any interleaving of m full turns without a cursor wrap picks endpoint i exactly m times its share |
| `Selection.GroupFair` | crates/core/src/target.rs:109-137 | the same for the group compiled from any endpoint list, in units of its shares |
| `Selection.GroupFollowsWeights` | crates/core/src/target.rs:182-200 | in any interleaving of m turns a member is picked m times, or m times its weight, or to within m slots of its proportion, as its weights say |
| `Selection.WrapFairness` | crates/core/src/target.rs:182-200 | for round robin, when the cursor wraps once, full turns stay fair if and only if the wrap falls on a turn boundary or the number of endpoints divides the cursor range |
| `Selection.WrapInstance` | crates/core/src/target.rs:182-200 | one turn of three endpoints that starts on the last ticket of the range is not fair |
| `Selection.WrapFairnessOf` | crates/core/src/target.rs:182-200 | for any cycle, weighted tables included, full turns around one wrap stay exact if and only if the odd tickets left over after the wrap find at the front of the cycle the members they would have found had the counter gone on |
| `Selection.DivisibleFair` | crates/core/src/target.rs:182-200 | a cycle whose length divides the cursor range stays exact through any number of wraps |
| `SharedGroups.ReachesGroup` | crates/core/src/route_table.rs:302-313 | a lookup reaches the group of route g if and only if the scan of the route list picks route g |
| `SharedGroups.PatternsShareGroup` | crates/core/src/route_table.rs:302-313 | every pattern of a route that is in force leads to its one group |
| `SharedGroups.RunKeepsTickets` | crates/core/src/route_table.rs:302-313 | in any interleaving of requests to all routes, the tickets of a group are those of its own requests, each drawn once |
| `SharedGroups.RouteFair` | crates/core/src/route_table.rs:302-313 | once the requests sent to a route, by any of its patterns, make up m turns and are served, member i was picked exactly m times its share, whatever the other traffic |
| `SharedGroups.RouteFollowsWeights` | crates/core/src/route_table.rs:302-313 | the same for a route's endpoint list, without the compiled shares |
| `SharedGroups.RouteBalanced` | crates/core/src/route_table.rs:302-313 | between any two moments of any run the selections begun for one round-robin route are spread over its members to within one |
| `Pool.ConnectionPool.Take` | crates/proxy-monoio/src/pool.rs:44-54 | taking pops stale entries until a fresh one is found |
| `Pool.ConnectionPool.Put` | crates/proxy-monoio/src/pool.rs:57-68 | parking pushes onto the host's stack unless it is full |
| `Pool.ConnectionPool.EvictExpired` | crates/proxy-monoio/src/pool.rs:76-82 | eviction keeps the fresh entries of every stack and drops empty stacks |
| `Pool.RetainFresh` | crates/proxy-monoio/src/pool.rs:78-80 | the in-place retain keeps exactly the fresh entries, in order |
| `Pool.NewestOrNothing` | crates/proxy-monoio/src/pool.rs:44-54 | take returns the newest connection if it is fresh and otherwise empties the stack |
| `Pool.ParkAndTake` | crates/proxy-monoio/src/pool.rs:44-68 | a parked connection comes back first within 45 seconds and not after; a stack of 8192 takes no more |
| `Pool.EvictThenTake` | crates/proxy-monoio/src/pool.rs:44-82 | evicting first never changes what take returns |
| `Pool.RunKeepsBooks` | crates/proxy-monoio/src/pool.rs:44-82 | over any run stacks stay sorted and bounded, and every connection is in exactly one of pooled, handed out or dropped |
| `Simd.LaneIsScalar` | crates/core/src/simd.rs:132-192 | each vector fold of one byte, the biased signed test included, is the scalar fold |
| `Simd.BlockTest` | crates/core/src/simd.rs:218-290 | the mask or minimum of a block is all ones exactly when the block is equal ignoring case |
| `Simd.EqIgnoreAsciiCase` | crates/core/src/simd.rs:132-167 | the block-plus-tail compare equals the scalar compare for every length and instruction set |
| `Simd.LowercaseBlocks` | crates/core/src/simd.rs:171-192 | the in-place block-plus-tail loop lowercases exactly the given prefix |
| `Simd.LowercaseInto` | crates/core/src/simd.rs:104-124 | copies and folds when the destination is long enough and otherwise changes nothing |
| `Simd.FoldText` | crates/core/src/simd.rs:95-101 | byte folding is the ASCII lowercasing used by routing |
| `Simd.EqTexts` | crates/core/src/simd.rs:95-97 | the byte comparison decides equality of texts up to ASCII case |
| `FxHash.FxHasher.Write` | crates/core/src/hash.rs:49-73 | the loop and its tail absorb the length and one word per chunk |
| `FxHash.ChunkShape` | crates/core/src/hash.rs:54-72 | the chunks put together are the input: no byte is skipped or read twice |
| `FxHash.WordInjective` | crates/core/src/hash.rs:57-66 | different chunks of one size become different words, in either byte order |
| `FxHash.MixBijective` | crates/core/src/hash.rs:44-46 | a step is a bijection in the state and in the word, with explicit inverses |
| `FxHash.OneChunkNeverCollides` | crates/core/src/hash.rs:49-73 | equal-length inputs that differ inside exactly one chunk never collide, whatever their length |
| `FxHash.LengthKeepsApart` | crates/core/src/hash.rs:49-53 | inputs of different lengths with equal chunk words never collide |
| `FxHash.EmptyNotZero` | crates/core/src/hash.rs:26-40 | the empty input does not hash to zero |
| `CivilDate.DatesFollowCalendar` | crates/bench/src/metrics/hardware.rs:142-160 | day 0 is 1970-01-01, every date is a valid Gregorian one, and consecutive days are consecutive dates |
| `CivilDate.DatesRoundTrip` | crates/bench/src/metrics/hardware.rs:142-160 | days-from-civil inverts the computation, in both directions |
| `CivilDate.StampDetermines` | crates/bench/src/metrics/hardware.rs:142-160 | the six fields are in range and give back the seconds |
| `CivilDate.StampsIncrease` | crates/bench/src/metrics/hardware.rs:142-160 | the six fields increase lexicographically with time |
| `Csv.ExportRows` | crates/bench/src/report/csv.rs:14-52 | header line plus rows; a reader that respects quotes gets back the header and every result's fields |
| `Csv.ExportCsv` | crates/bench/src/report/csv.rs:14-52 | every record read back has as many fields as the header has columns |
| `Csv.SplitCsvRow` | crates/bench/src/report/csv.rs:147-165 | the splitter loop computes the recursive splitting |
| `Csv.RowRoundTrip` | crates/bench/src/report/csv.rs:18-64 | splitting the joined escaped fields gives the fields back, for every non-empty list |
| `Csv.BareWhenPlain` | crates/bench/src/report/csv.rs:54-64 | a field is written unquoted exactly when it holds no comma, no quote and no line feed |
| `Csv.BareFieldSurvives` | crates/bench/src/report/csv.rs:54-64 | an unquoted field survives splitting exactly when it holds no comma and no quote |
| `Csv.ReportReadsBack` | crates/bench/src/report/csv.rs:14-52 | the whole report, embedded line feeds included, reads back as its header and rows |

## Left out

- Sockets, accept loops, runtimes, command-line parsing, process launch and the load generator: plumbing around the operating system.
- Hyper and Pingora request handlers and the HTTP/2 serving path: mostly calls into libraries that are not part of this model; a detected preface ends the modelled run.
- Connection.RelayChunked: chunk framing is not parsed and the terminator is looked for inside a single read, as in the code, so only verbatim copying is stated; the message theorems are about Content-Length and bodyless requests.
- ConnectionRuns.UpstreamSeesMessage: asks that the rewritten head fits 96 headers and that `Connection` nominates no framing header; without that the boundary can change, see ForwardPreservesFraming.
- ConnectionRuns.DispositionHonoured: asks that the rewritten response head fits the 96 headers a client with the proxy's own limit parses.
- RunAgreement.RunsAgree: whether a head over 64 KiB is refused or served depends on the reads, as in the code, so such ends are excepted; so are chunked bodies.
- Connection.RelayResponse: one final response per request is assumed; interim 1xx responses and extra upstream bytes are not told apart.
- Internals of `httparse`: bare line feeds, leading empty lines and errors reported before the head is complete are not modelled, nor is the unused target span; obsolete folding counts as malformed.
- Internals of `matchit`, `memchr`, `simdutf8` and `arc-swap`: modelled by specification.
- RouteScan.ExpandRank: route paths are free of braces; `matchit` parameter syntax in a path is not modelled.
- WeightedTable.ScaledTable: exact rational rounding instead of `f64` rounding.
- Overflow of buffer sizes and of sums of weights: lengths and totals are unbounded integers.
- Pool: `idle_count` is a sum over the map, and connections that the peer has closed are not detected; neither adds a property.
- Gateway: one EndpointSlice per Service is assumed, since endpoints are keyed by Service and a second slice overwrites the first; parsing of slices is not modelled.
- Header modifiers of route filters, the cached authority of an endpoint and the `X-Forwarded` helpers of the header-map planes: easy members.
- Reconciler: watch errors, retries and the length of the debounce delay; tables published between Init and InitDone are compiles of partial states, which PublishedSnapshots covers.
- FxHash: `write_u8`, `write_u64` and `write_usize` are the single mixing step.
- CivilDate: the text layout of the date; the six fields are modelled.
- Csv: number formatting; numbers enter as text that needs no quoting.
- Markdown and HTML reports, resource sampling, preflight probes, cycle counters and the allocator registry: no hard property.
