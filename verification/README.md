# PulseHTTP, modelled and proved in Dafny

A model of the PulseHTTP HTTP/1.1 stack: its wire codecs, response cache, rate
limiter, reverse proxy, connection loop, metrics and router, with proofs of
what they promise. Code that changes state is modelled as classes and loops
and proved against functions; the properties are then proved about those
functions, or as invariants of step systems where goroutines interleave.

Check it with `dafny verify dfyconfig.toml` (Dafny 4.11).

| files | what they hold |
|---|---|
| Text | the library functions used: cutting, splitting, trimming, case, numbers, escapes |
| Headers, HeaderLookup, HeaderNames | the header object, and lookups in header fields |
| Request, RequestLaws, PanicLaws | the bounded line reader, the request parser and the chunked decoder; exact consumption, pipelining, the chunked round trip; when parsing panics, and what counts as a clean close |
| Framing, Refusals, UrlLaws, NumberLaws | which bytes are an accepted request, and which are refused with which status; what targets and numbers decode to |
| RelayRequest, RelayLaws | the relay's request encoder; meaning-preserving re-framing |
| Response, Decoders, ResponseLaws, RelayAnswerLaws | the response writer and two independent response decoders; both round trips |
| RecencyList, Cache, CacheSpec, CacheLaws, CacheViews, MaxAge, CacheInterleaving | a doubly linked list on the heap, the cache over it, the recency sequence it refines; freshness and LRU inclusion; what clients are shown; max-age; overlapping requests |
| RateLimit, RateLimitLaws, RateLimitExact | the token bucket and janitor; window bound and unobservable eviction; exactly which requests are admitted |
| ProxyPick, ProxyHandler, PoolOwnership | candidate order and fairness, failover, and connection ownership over all interleavings |
| ServerDrain, ServeConn, ServeLaws, LoopProjection | the drain protocol over all interleavings, the keep-alive loop on bytes, what its responses say, and the agreement of loop and protocol |
| Proxied, Redelivery | client, relay, upstream server and back; whole responses of a pipeline; when a request is handled twice |
| Examples, Counterexamples | concrete inputs; those at which the code misses what one would expect |
| Metrics | the histogram against true order statistics |
| Router | first-match dispatch, Allow lists, path parameters |

Bytes are modelled as `char`; every theorem holds for all of them. A
connection's input is a finite byte sequence and the error that ends it, and
the reader may return any buffer-sized pieces of it. Tokens and percentiles
are reals. Integer widths are written out where they matter: the `int64` sum
of chunk sizes, the most a slice can hold, the conversion of the `uint64` ticket
counter, and the ranges of parsed numbers.

Where the code and its own documentation disagree the model follows the code:

- `httpcore/request.go:91-92` calls a clean close an end before the first byte
  of a request; the code at line 129 takes an end anywhere in the request line
  for one (`CleanCloseExactly`, `HalfLineIsClean`).
- `cache/cache.go:149-150` says max-age overrides the default time to live; it
  does so only as the last directive (`MaxAgeExactly`, `PublicIsIgnored`,
  `PublicFirstIsHonoured`).
- `cache/cache.go:93-95` says a stale read never survives a write. It does in
  exactly three cases (`StaleExactly`): the write ends while the handler of the
  stored GET runs (`StaleSurvivesOverlap`); its path and its target both differ
  from the stored target, as they can when that has a query or escapes
  (`StaleSurvivesQuery`); or its handler panics (`StaleSurvivesPanic`).
- `proxy/proxy.go:225-228` calls the second try one for stale connections; it is
  made after any failure on a pooled connection, also when the request has been
  handled and only its answer is lost, and whatever the method
  (`RelayTwiceExactly`, `PostHandledTwice`).
- Of a header that an upstream repeats, `proxy/proxy.go:350-353` passes on the
  last value only (`RelayKeepsExactly`, `FirstCookieIsLost`).
- The relay forwards an HTTP/1.0 request without Host as HTTP/1.1, which this
  server's own parser refuses (`RelayReframes`, `HostlessRefused`).
- The body limit of `httpcore/request.go:266` is passed by a sum that wraps
  around (`OverflowExactly`), and the panic that follows is not one of those
  `httpcore/server.go:220-221` isolates (`CrashesExactly`, `RequestPanics`).
- The ticket counter of `proxy/proxy.go:187` indexes the snapshot from 2^63 on
  at a negative place (`StartIsIndex`, `TicketPanics`).
- Percentiles of a snapshot taken while a request is between its two counters
  may come out of order (`MonotoneExactly`, `RaceReorders`).

## Model

| member | source | states |
|---|---|---|
| `RequestWire.Reader.ReadSlice` | `httpcore/request.go:99-113` | The bytes up to and including the next LF, or any LF-free piece that filled the buffer, or the rest of the stream with its error; what is returned and what is left are together what was there |
| `RequestWire.LineFound` | `httpcore/request.go:99-118` | A stream whose first LF ends a piece of n bytes gives that line without its terminator when n is within the limit, and the too-long error otherwise |
| `RequestWire.LineOpen` | `httpcore/request.go:104-113` | Without an LF, the too-long error exactly when more than the limit has been seen, else the error that ended the stream |
| `RequestWire.ReadBoundedLine` | `httpcore/request.go:99-118` | However the stream is cut into buffer-fulls, the line is the function LineOf of the bytes, and exactly the line is consumed |
| `RequestWire.LineOfText` | `httpcore/request.go:99-118` | A text without LF or final CR, sent with CRLF, reads back as itself and consumes its length plus two |
| `RequestWire.LineOfAny` | `httpcore/request.go:99-118` | Any line is read as the bytes before its LF, without one CR if the last of them is one, within the limit, and consumes itself |
| `RequestWire.ReadHeaders` | `httpcore/request.go:154-179` | The header loop with its running byte count computes ParseHeaders, mutates a fresh header object to those fields, and consumes exactly the block |
| `RequestWire.ReadChunk` | `httpcore/request.go:244-277` | One chunk: size line, int64 addition with wrap-around, limit, data and CRLF, with each error case and the exact consumption |
| `RequestWire.ReadTrailers` | `httpcore/request.go:256-264` | The trailer loop, of any number of lines, terminates and consumes up to the blank line |
| `RequestWire.ReadChunkedBody` | `httpcore/request.go:241-279` | The chunk loop computes Chunks of the remaining stream and consumes exactly what that says |
| `RequestWire.Chunks` | `httpcore/request.go:241-279` | Decoded data never exceeds the limit, and no more is consumed than there is |
| `RequestWire.ReadBody` | `httpcore/request.go:185-212` | Chunked wins over Content-Length; another transfer coding is refused with 501; a declared length is checked before reading; no framing means no body |
| `RequestWire.ParseRequest` | `httpcore/request.go:122-237` | The whole parser as a function of the remaining bytes, with every refusal status, and exact consumption on success |
| `RequestLaws.ParseLocal` | `httpcore/request.go:122-237` | An accepted request depends on the bytes it consumed and on nothing after them, including how the stream ends |
| `RequestLaws.PrefixFree` | `httpcore/request.go:122-237` | No proper prefix of an accepted request is itself accepted |
| `RequestLaws.Pipelining` | `httpcore/server.go:146-183` | n concatenated accepted requests, with anything behind them, come back from one reader as exactly those n in order |
| `RequestLaws.Unpipelining` | `httpcore/server.go:146-183` | Conversely, for every stream: it is the bytes of the requests read, each accepted on its own, followed by bytes the parser refuses with the reported fault; none lost or shared |
| `RequestLaws.ReadPipeline` | `httpcore/server.go:146-183` | Repeated parsing through one buffered reader yields that list of requests and that fault |
| `Framing.AcceptedExactly` | `httpcore/request.go:122-237` | A request is accepted if and only if its stream starts with a head in order, a target that decodes, and the body that the head announces: with a chunked token, a coding of the data; with another Transfer-Encoding, never; else with a Content-Length, that many bytes; else none |
| `Framing.FramedExactly` | `httpcore/request.go:185-212` | The same of the body alone, for any header fields |
| `Framing.BadBodiesRefused` | `httpcore/request.go:185-212` | Behind a head in order: another transfer coding than chunked gets 501 whatever else is announced; a length that is no number 400, one beyond the limit 413, one that does not arrive 400 with the error of the stream; a chunked body 413 exactly when some chunk size passes the limit |
| `Framing.OversizedExactly` | `httpcore/request.go:249-269` | A chunked body is refused with 413 if and only if complete chunks within the limit are followed by a size that, added in int64, exceeds it |
| `Refusals.RequestLineExactly` | `httpcore/request.go:138-151` | A request line of three parts: each of the seven methods is accepted under both versions; another method in capitals gets 501, any other 400; another version 505; a target that is no path 400 |
| `Refusals.OtherLinesRefused` | `httpcore/request.go:134-137` | A line that is not three parts with single spaces between them gets 400 |
| `Refusals.HeaderLineExactly` | `httpcore/request.go:171-175` | A header line is in order if and only if it has a colon and before it a name without blanks; its value is the rest without the blanks around it |
| `Refusals.HeadersExactly` | `httpcore/request.go:154-179` | A header block is accepted if and only if it is header lines in order and within the limits and a blank line, and its fields are those lines added one by one; it is refused with 431 if and only if behind such lines one comes that is too long, or makes too many bytes or too many names |
| `Refusals.StatusExactly` | `httpcore/request.go:122-237` | 414, 431, 501, 505 and 413, each if and only if: the line is beyond its limit; the block is; the method or the transfer coding is not supported; the version is not; the body is beyond its limit |
| `Refusals.StatusOf` | `httpcore/request.go:122-237` | No request is refused with any other status than these and 400 |
| `UrlLaws.UnescapeExactly` | `httpcore/request.go:214-223` | A text decodes to t if and only if it is t spelt byte by byte, each as itself or as a percent sign and two hexadecimal digits; in a query plus is a blank |
| `UrlLaws.QueryExactly` | `httpcore/request.go:214-223` | A query is accepted if and only if each part between ampersands is empty or has no semicolon and decodes; each name has the values its parts give it, in order |
| `UrlLaws.TargetExactly` | `httpcore/request.go:214-223` | A target is accepted if and only if what precedes its first question mark and what follows it decode; the request has that path and those values |
| `NumberLaws.ParseIntExactly` | `httpcore/request.go:199-202` | A text is read as a number if and only if it is digits of the base behind at most one sign that stand for that number, and it fits an int64; so for Content-Length, chunk sizes, statuses and max-age |
| `RequestLaws.ChunksDecode` | `httpcore/request.go:241-279` | After any data already decoded, encoded chunks add their payload and the decoder continues right behind them |
| `RequestLaws.ChunkedRoundTrip` | `httpcore/request.go:241-279` | Section 7.1 of RFC 9112: chunks with any size lines, extensions and trailers decode to their concatenation and stop right after the final blank line |
| `RequestLaws.HexSizeLine` | `httpcore/request.go:244-253` | Hexadecimal digits, an optional extension and CRLF are a size line of that size |
| `RequestLaws.ChunkedExactly` | `httpcore/request.go:241-279` | The decoder accepts a body with given data and length if and only if the stream starts with an encoding of that data within the limit, and within what a slice holds |
| `RequestLaws.PanicExactly` | `httpcore/request.go:266-269` | For every limit: the decoder panics if and only if, after complete chunks, a size passes the limit check in int64 that no slice can hold; by itself, or added to the data before it |
| `RequestLaws.OverflowExactly` | `httpcore/request.go:266-269` | For a limit that a slice can hold, the default among them: the decoder panics if and only if complete chunks within the limit are followed by a size whose sum with them overflows an int64 |
| `PanicLaws.RequestPanicsExactly` | `httpcore/request.go:122-279` | For every limit: a request panics the parser if and only if it is chunked and such a size follows complete chunks, or it announces by Content-Length a size within the limit that no slice can hold |
| `PanicLaws.RequestOverflowsExactly` | `httpcore/request.go:122-279` | For a limit that a slice can hold: if and only if it is chunked and, after complete chunks within the limit, a size overflows the sum |
| `PanicLaws.CleanCloseExactly` | `httpcore/request.go:91-133` | A stream is taken for a clean close if and only if it ends, without an error, before the first LF and within the line limit: however much of a request line has arrived, and never later in a request |
| `Counterexamples.HalfLineIsClean` | `httpcore/request.go:125-130` | The stream GET / HT and its end: a clean close to the parser, and the loop sends nothing |
| `PanicLaws.CrashesExactly` | `httpcore/server.go:170-183` | The connection's goroutine panics outside the isolation of handlers if and only if the loop gets to such a request: those before it all kept the connection alive and no drain was seen |
| `Counterexamples.ClaimPanics` | `httpcore/request.go:266-269` | One byte, then a chunk of 7fffffffffffffff bytes: the decoder panics |
| `Counterexamples.RequestPanics` | `httpcore/request.go:266-269` | A complete request with that body, under the default limits: the parser panics and the connection loop with it |
| `Counterexamples.HostlessAccepted` | `httpcore/request.go:180-182` | GET / HTTP/1.0 without header fields is accepted |
| `HeaderFields.Headers.SetKey` | `httpcore/headers.go:24-30` | The key list and value map move together: the fields are those before with the canonical name set |
| `HeaderFields.Headers.AddKey` | `httpcore/headers.go:33-39` | As above for one more value |
| `HeaderFields.Headers.DelKey` | `httpcore/headers.go:59-71` | As above for removal from the middle of the key list |
| `HeaderFields.Headers.WriteTo` | `httpcore/headers.go:74-93` | The nested loops write one line per value, in insertion order |
| `HeaderFields.Headers.ContainsTokenIn` | `httpcore/headers.go:97-106` | The nested early-return loops find the token exactly when some comma-separated part of some value is it, ignoring case and surrounding blanks |
| `HeaderFields.TokenExactly` | `httpcore/headers.go:97-106` | Of a value made of any parts with commas between them: it has the token if and only if one of the parts is the token, ignoring case and the blanks around it |
| `Text.TokenChars` | `httpcore/headers.go:21-21` | Section 5.6.2 of RFC 9110: the characters of a name that is put into canonical form |
| `HeaderFields.SetLaw` | `httpcore/headers.go:24-30` | After Set a name has one value, every other name keeps its list, and names stay distinct and canonical |
| `HeaderFields.AddLaw` | `httpcore/headers.go:33-39` | After Add a name has its list extended, every other name keeps its own |
| `HeaderFields.DelLaw` | `httpcore/headers.go:59-71` | After Del a name is gone, every other name keeps its list |
| `HeaderFields.AddAllFlatten` | `httpcore/headers.go:74-80` | Adding back the (key, value) calls of Range in order restores the fields, grouped and in order |
| `RelayRequest.WriteHeaders` | `proxy/proxy.go:263-275` | The Range callback writes the surviving fields and reports an X-Forwarded-For exactly when there was one |
| `RelayRequest.WriteRequest` | `proxy/proxy.go:261-285` | What relayConn writes: request line, surviving and own header lines, blank line, body |
| `RelayLaws.AcceptedIsSound` | `httpcore/request.go:122-237` | What every accepted request satisfies: known method, space-free origin-form target, clean distinct canonical header names, trimmed values, and path and query that come from the target |
| `RelayLaws.BlockBack` | `httpcore/request.go:154-179` | A written header block within the limits reads back as its lines added in order, whatever follows it |
| `RelayLaws.RelayedLookup` | `proxy/proxy.go:263-281` | Value lists after re-framing: hop-by-hop and framing names dropped or re-derived, X-Forwarded-For extended on each value or added, every other name unchanged |
| `RelayLaws.RelayReframes` | `proxy/proxy.go:261-285` | The relayed bytes parse to the re-framed request and nothing beyond them is consumed, if and only if a Host field is present; otherwise the upstream refuses with 400 |
| `Counterexamples.HostlessRefused` | `proxy/proxy.go:261-285` | That request, relayed, is refused by the same parser with 400 |
| `RelayLaws.ReframingPreservesMeaning` | `proxy/proxy.go:261-285` | For every request the parser accepts: same method, target, path, query and body at the upstream, and the value lists above for every name |
| `Responses.ResponseWriter.Append` | `httpcore/response.go:43-49` | Appending behind a cut reuses the buffer when the capacity allows and copies otherwise; the contents are the same either way |
| `Responses.ResponseWriter.Write` | `httpcore/response.go:43-49` | Appends to the body, unless frozen |
| `Responses.ResponseWriter.SetBody` | `httpcore/response.go:89-91` | Replaces the body even when frozen |
| `Responses.ResponseWriter.Error` | `httpcore/response.go:63-74` | Replaces status, Content-Type and body, unless frozen |
| `Responses.ResponseWriter.Serialize` | `httpcore/response.go:100-131` | Writes status line, final header block and body, and leaves the header object with those final fields |
| `ResponseLaws.FinalLaw` | `httpcore/response.go:108-124` | Exactly one Content-Length equal to the body length, or none when the status forbids a body; exactly one Connection; Date and Server kept or filled in; every other name as the handler left it |
| `ResponseLaws.WhoHasABody` | `httpcore/response.go:112-131` | A body is sent, and a Content-Length, for every status but 204, 304 and those from 100 to 199; after HEAD the length without the body |
| `Decoders.ReadOneResponse` | `cmd/pulsebench/main.go:133-167` | The benchmark client's reader as a function of the stream, with exact consumption |
| `ResponseLaws.ReadBack` | `cmd/pulsebench/main.go:133-167` | Read back by the client: the status and exactly the response's bytes; after a HEAD response it takes the announced length out of what follows, and fails when that is too short |
| `ResponseLaws.StreamRoundTrip` | `cmd/pulsebench/main.go:133-167` | Concatenated non-HEAD responses read back as the same statuses in order with nothing left over |
| `Decoders.ReadUpstreamBody` | `proxy/proxy.go:327-348` | The body by length or up to the end of the stream, refused when it is over the cap or short |
| `Decoders.ReadAnswer` | `proxy/proxy.go:287-355` | The relay's reading half as a function of the stream; the response writer changes only on success |
| `RelayAnswerLaws.RelayReadsAny` | `proxy/proxy.go:287-354` | The relay on any response this server sends with trimmed values, repeated names included: one with a body is recovered to its last byte and the connection parked; after a HEAD response the announced length is taken out of what follows, or the relay fails; after a status without a body everything to the end of the stream is taken and the connection closed |
| `RelayAnswerLaws.RelayReadsServer` | `proxy/proxy.go:287-354` | In particular a body within the cap under a body-allowing status comes back with status and the lines passed on, no byte unread, and the connection parked |
| `RelayAnswerLaws.AnswersAreWhole` | `proxy/proxy.go:287-354` | Whatever an upstream sends: an answer starts with HTTP/1. and has an unbroken body within the cap; a parked connection is read exactly to the end of the body, and an answer of no announced length is all there is |
| `RelayAnswerLaws.SetAllLookup` | `proxy/proxy.go:350-353` | Setting the passed-on lines one after another overwrites exactly those names, each with its last value |
| `RelayAnswerLaws.RelayKeepsHeaders` | `proxy/proxy.go:312-353` | For every name: the client's response gets the last value that the upstream's handler gave it, and for the six names withheld what it had before |
| `RelayAnswerLaws.RelayKeepsExactly` | `proxy/proxy.go:312-353` | So a header passed on arrives as the handler gave it if and only if it has one value |
| `Counterexamples.FirstCookieIsLost` | `proxy/proxy.go:350-353` | Of two Set-Cookie values the client gets the second alone |
| `Proxied.UpstreamAnswers` | `proxy/proxy.go:249-285` | Relayed bytes with anything behind them, on a connection of the upstream server: its loop answers them first, as one request |
| `Proxied.ProxiedEndToEnd` | `proxy/proxy.go:249-356` | Client bytes to client response: the upstream's handler is asked the client's method, target, path, query, body and re-framed headers, and the client's response gets its status, its body and, of every header but the six withheld, the last value, while the connection is parked |
| `RecencyList.List.Remove` | `cache/cache.go:53-53` | Unlinking a node of the doubly linked ring removes it from the node sequence |
| `RecencyList.List.PushFront` | `cache/cache.go:66-66` | Linking a new node behind the sentinel puts it first |
| `RecencyList.List.MoveToFront` | `cache/cache.go:57-57` | Relinking moves a node to the front and keeps the others in order |
| `Cache.Cache.Get` | `cache/cache.go:46-59` | List and map refine the recency sequence: a fresh entry is found and moved to the front, an expired one dropped |
| `Cache.Cache.Put` | `cache/cache.go:61-72` | The entry is first, its key's old entry gone, the rest cut to the capacity from the back; list and map agree and the size is within the capacity |
| `Cache.Cache.Invalidate` | `cache/cache.go:74-79` | Exactly the key's entry is gone |
| `Cache.Cache.BeforeGet` | `cache/cache.go:112-145` | A GET up to its handler: lookup unless bypassed, counters, and on a hit what the client is shown: 200 with the entry's body, tag and type, or 304 for a client that named the tag, X-Cache HIT, every other field as it was |
| `Cache.Cache.AfterGet` | `cache/cache.go:149-181` | A GET after its handler: stored unless no-store or not 200, with its time to live; the client is shown the handler's response with its tag and X-Cache MISS, or 304 without a body when it named the tag |
| `Cache.Cache.AfterOther` | `cache/cache.go:100-109` | A mutating request that returned invalidates its path and its target, any other method nothing |
| `Cache.Cache.Store` | `cache/cache.go:162-173` | The stored body is a private copy of the response's body |
| `Cache.LaterWritesDoNotReachTheCache` | `httpcore/response.go:63-91` | Whatever is written to a response afterwards, the cache and its bytes stay as they are |
| `CacheLaws.EntriesAreLatest` | `cache/cache.go:96-183` | Over every non-overlapping run, each entry is what the latest store of its key put there, with no store or invalidation since |
| `CacheLaws.HitsAreFresh` | `cache/cache.go:96-183` | Section 4.2 of RFC 9111: a hit returns body, type and tag of the latest stored 200 GET of its target, within that GET's time to live, with no mutating request for it since; 304 exactly for the tag of that body |
| `CacheViews.HitShows` | `cache/cache.go:130-145` | The client's response on a hit: status, body, and the values under every name |
| `CacheViews.MissShows` | `cache/cache.go:174-180` | The same after a response was stored |
| `CacheViews.KeptExactly` | `cache/cache.go:149-173` | A response is stored if and only if its status is 200 and no-store occurs nowhere in its first Cache-Control value; as its body, the tag of that body, its first Content-Type and the time it expires |
| `CacheViews.HitsExactly` | `cache/cache.go:112-145` | A GET is answered from the cache if and only if it does not bypass it and an entry for its target has not expired |
| `CacheViews.ClientIsShownTheStored` | `cache/cache.go:96-183` | End to end over any run: on a hit the client gets 200 and, byte for byte, the body that the handler returned to the last GET stored for the target, or 304 and no body |
| `CacheViews.InterleavedClientIsShown` | `cache/cache.go:118-145` | The same in every interleaving |
| `CacheLaws.Inclusion` | `cache/cache.go:46-79` | A smaller cache's keys are at every moment a recency-order prefix of a larger one's, through hits, expiries, bypasses, evictions and invalidations |
| `CacheLaws.LargerHitsMore` | `cache/cache.go:46-79` | When nothing expires, a larger cache has at least as many hits |
| `MaxAgeLaws.MaxAgeExactly` | `cache/cache.go:155-160` | For every Cache-Control value: its first max-age= is honoured if and only if a number follows it and nothing but blanks, commas and semicolons follows the number, and then the time to live is that number of seconds, however it is read; in every other case, no number included, the default holds |
| `MaxAgeLaws.MaxAgeThenMore` | `cache/cache.go:155-160` | Whatever comes before it, a max-age that another directive follows is ignored |
| `MaxAgeLaws.PublicIsIgnored` | `cache/cache.go:155-160` | The input max-age=60, public, for which the default is used |
| `MaxAgeLaws.PublicFirstIsHonoured` | `cache/cache.go:155-160` | The input public, max-age=60, the same directives in the other order, for which a minute is granted |
| `CacheInterleaving.EntryIsLatest` | `cache/cache.go:96-183` | In every interleaving of lookups, returning GETs and returning writes, each entry was stored by one GET's return and its key has not been touched since |
| `CacheInterleaving.HitComesFrom` | `cache/cache.go:118-145` | In every interleaving, a hit returns the body that the handler of the GET last stored for the key produced, a 200 |
| `CacheInterleaving.StaleExactly` | `cache/cache.go:93-109` | A write to a resource is a mutating request for the path of the key, whether its handler returns or panics. A hit replays a GET that a write came after if and only if one of those writes ended before that GET's handler returned, or panicked, or has neither the key for its path nor for its target; and every write that came after is of these |
| `CacheInterleaving.ApartIsFresh` | `cache/cache.go:93-109` | When no request overlaps a running GET, a hit on a target that is its own path survives a write if and only if the handler of a write panicked; no write that returned is survived |
| `CacheInterleaving.StaleSurvivesOverlap` | `cache/cache.go:93-109` | First way: a GET misses, a POST to the target returns, the GET stores what it read before, the next GET is served that |
| `CacheInterleaving.StaleSurvivesQuery` | `cache/cache.go:100-107` | Second way, without overlap: GET /a?x, POST /a, and GET /a?x is served the old body |
| `CacheInterleaving.StaleSurvivesPanic` | `cache/cache.go:100-107` | Third way, without overlap: GET /a, a POST to /a whose handler panics, and GET /a is served the old body |
| `RateLimit.RateLimiter.Take` | `middleware/ratelimit.go:86-103` | The key's bucket and the verdict are a function of the buckets before; no other key's bucket changes |
| `RateLimit.RateLimiter.Sweep` | `middleware/ratelimit.go:71-79` | One janitor tick keeps exactly the buckets that are not stale |
| `RateLimitLaws.Paid` | `middleware/ratelimit.go:86-103` | Over any run, admitted requests are paid for by initial tokens and elapsed time, in whatever order clock readings arrive |
| `RateLimitLaws.WindowBound` | `middleware/ratelimit.go:86-103` | From an admitted take at t1 to an admitted take at tn at most Burst + rate * (tn - t1) requests of the key are admitted |
| `RateLimitExact.AdmittedExactly` | `middleware/ratelimit.go:86-103` | A take is admitted if and only if every window allows it: for each take of the key up to it, the takes admitted from that one on, and this one, number at most Burst + rate * time; it reports exactly how many more would be allowed at the same reading; with a janitor firing at arbitrary moments |
| `RateLimitExact.BurstExactly` | `middleware/ratelimit.go:86-103` | Of a new key at one reading exactly floor(Burst) takes are admitted, the first ones, and the remaining count goes down to zero |
| `RateLimitLaws.StaleIsIdle` | `middleware/ratelimit.go:71-75` | A bucket the janitor may evict has been idle more than Burst / rate + 59 seconds, in spite of the truncated division |
| `RateLimitExact.SweptIsRecent` | `middleware/ratelimit.go:71-79` | After a tick no bucket is left that has been idle more than Burst / rate + 60 seconds |
| `RateLimitLaws.HiddenRun` | `middleware/ratelimit.go:63-103` | A limiter some of whose full buckets were evicted answers every further run like one that kept them |
| `RateLimitLaws.EvictionIsUnobservable` | `middleware/ratelimit.go:63-103` | With non-decreasing clock readings, a limiter whose janitor fires at arbitrary moments answers every take like one that never evicts |
| `RateLimitLaws.RetryAfterSuffices` | `middleware/ratelimit.go:101-121` | A refused client that waits Retry-After seconds, and one nanosecond for the truncation, is admitted if and only if the bucket can hold a token |
| `RateLimitExact.RetryAfterIsLeast` | `middleware/ratelimit.go:101-121` | And no whole second less is enough |
| `ProxyPick.Pool.Pick` | `proxy/proxy.go:161-194` | The candidates are exactly the upstreams whose health flag is set, each once, rotated by the ticket or led by one with the smallest load; or the goroutine panics, under round-robin from counter 2^63 on; the counter moves once per call with a candidate |
| `ProxyPick.HealthyExactly` | `proxy/proxy.go:163-167` | The snapshot on the flags: an upstream whose flag is set stands behind as many as have theirs set before it |
| `ProxyPick.HealthyMembers` | `proxy/proxy.go:162-167` | And an upstream is in it if and only if its flag is set |
| `ProxyPick.StartIsIndex` | `proxy/proxy.go:187-190` | The round-robin start is an index if and only if the counter is below 2^63 or the wrapped counter is a multiple of the number of upstreams |
| `ProxyPick.OrderPermutes` | `proxy/proxy.go:171-193` | Under both strategies every healthy upstream is a candidate exactly once |
| `ProxyPick.LeastIsMinimal` | `proxy/proxy.go:172-185` | Under least-connections the head carries the smallest load of the snapshot |
| `ProxyPick.LeastKeepsOrder` | `proxy/proxy.go:178-185` | Behind that head the others keep their registration order |
| `ProxyPick.RoundRobinOrder` | `proxy/proxy.go:186-193` | Under round-robin candidate i is the one at (ticket + i) mod n of the snapshot |
| `ProxyPick.OncePerRound` | `proxy/proxy.go:186-192` | For n healthy upstreams, each heads exactly one of the candidate lists of any n consecutive tickets |
| `ProxyPick.RoundRobinIsFair` | `proxy/proxy.go:186-192` | Each healthy upstream heads floor(L/n) or ceil(L/n) of the candidate lists of any L consecutive tickets below 2^63 |
| `ProxyPick.Pool.PickFairly` | `proxy/proxy.go:161-194` | Of L picks in a row while nothing changes, each upstream whose flag is set heads floor(L/n) or ceil(L/n), n being their number |
| `Counterexamples.TicketPanics` | `proxy/proxy.go:187-190` | With three healthy upstreams, ticket 2^63 starts at index -2 |
| `ProxyHandler.RelayConn` | `proxy/proxy.go:249-356` | One exchange: the bytes written, the decoded answer, and a response writer that is unchanged on failure |
| `ProxyHandler.Relay` | `proxy/proxy.go:229-244` | A stale pooled connection gets one retry on a fresh dial |
| `ProxyHandler.TryEach` | `proxy/proxy.go:209-220` | The candidate loop stops at the first answer; failed candidates and no others are marked unhealthy; every active count is back |
| `ProxyHandler.Handle` | `proxy/proxy.go:200-222` | The handler end to end: which of its four ends it comes to, exactly; the client's response for each; which connections the request was written to, in order; a failed attempt leaves no trace in response or pool but its health mark, and every active count is back |
| `ProxyHandler.FailoverExactly` | `proxy/proxy.go:200-222` | 503 if and only if nobody was healthy, 502 if and only if all of the first min(MaxAttempts, candidates) fail, and the k-th candidate's answer if and only if it is the first of those to answer |
| `ProxyHandler.FailoverShows` | `proxy/proxy.go:200-222` | And what the client is shown: 503 with Retry-After 2, 502, or the status and body of the first answer with X-Upstream naming who gave it |
| `ProxyHandler.WiresExactly` | `proxy/proxy.go:209-244` | The request is written to the connections of every attempt up to the first that answers, in order, and to no other |
| `Redelivery.RelayTwiceExactly` | `proxy/proxy.go:229-244` | One relay puts a request on two connections that take it if and only if a pooled connection took its bytes and gave no answer that decodes, and the fresh one took them again |
| `Redelivery.RedeliveredExactly` | `proxy/proxy.go:200-244` | One handler call does so if and only if some connection, pooled or of an earlier candidate, took the bytes and gave no answer that decodes, and a later one took them again |
| `Redelivery.HandledTwice` | `proxy/proxy.go:229-244` | For every request the upstream can take, whatever its method: when the answer is lost on a pooled connection, the upstream's handler is given the same relayed request on both connections, and the client gets the second response |
| `Counterexamples.PostHandledTwice` | `proxy/proxy.go:229-244` | A POST to a server that numbers what it makes: two things are made, and the client is told of the second |
| `PoolOwnership.InvStep` | `proxy/proxy.go:113-130` | Each atomic action of any relay, health check or Stop keeps: every connection in exactly one place, pools bounded, counts exact |
| `PoolOwnership.Ownership` | `proxy/proxy.go:199-260` | In every interleaving: each dialled connection is parked once in its own upstream's pool, held by one relay, or closed once; one dial and at most two exchanges per relay; active equals the relays in progress |
| `ServerDrain.InvStep` | `httpcore/server.go:101-218` | Each step of any connection or of Shutdown keeps the drain invariant |
| `ServerDrain.DrainSafety` | `httpcore/server.go:136-218` | In every interleaving: at most one response per connection after draining is set; a response labelled close is the last; at most MaxRequestsPerConn handled; Shutdown returns only after every connection registered before its wait has finished |
| `ServeConn.SafeHandle` | `httpcore/server.go:222-230` | A panicking handler leaves a 500 that replaces the body, even when it had frozen the response |
| `ServeConn.WriteError` | `httpcore/server.go:232-240` | A refused request is answered with its status and Connection: close |
| `ServeConn.ServeLoop` | `httpcore/server.go:165-218` | The keep-alive loop on a byte stream sends the concatenation the function Serve says, whatever the draining flag shows at each look and whatever the handler answers to the n-th request |
| `ServeConn.PipelineServed` | `httpcore/server.go:165-218` | For any history-dependent handler: pipelined accepted requests are served each once and in order until one closes the connection or the drain is seen, and what follows them is served as if it had come on its own |
| `ServeConn.AnswersLaw` | `httpcore/server.go:165-218` | How many are answered and with which labels: up to the first response labelled close or the first place the drain is seen |
| `ServeConn.AllAnswered` | `httpcore/server.go:200-202` | All of them, when nobody asks to close before the last, nothing drains and the limit has room |
| `ServeLaws.LabelExactly` | `httpcore/server.go:206-217` | For any stream: response i is labelled keep-alive, in its Connection field too, if and only if its request has no Connection token close, is HTTP/1.1 or has the token keep-alive, no drain is seen and the limit has room; after close nothing is sent, after keep-alive the next request is answered exactly when no drain is seen |
| `ServeLaws.FirstIsAnswered` | `httpcore/server.go:170-173` | The first request of a connection is answered even during a drain |
| `ServeLaws.PanicIsShown` | `httpcore/server.go:222-230` | For any stream: response i is what the handler left for its request, or for a handler that panics a 500 that says so, with the fields it had set |
| `ServeLaws.RefusalIsShown` | `httpcore/server.go:184-200` | What cannot be read is answered last, once, with its status, or with 408 and Retry-After when reading timed out, and labelled close |
| `ServeLaws.TimeoutIsShown` | `httpcore/server.go:193-199` | A client that stops in the middle of a request line until the timeout gets one 408 |
| `Examples.CloseIsHonoured` | `httpcore/request.go:75-79` | A POST with Connection: close gets one response, labelled close, whatever follows it |
| `Examples.PlainGoesOn` | `httpcore/server.go:206-217` | One without is kept alive and the next request answered |
| `Examples.OldVersionCloses` | `httpcore/request.go:80-82` | One of HTTP/1.0 that says nothing is closed |
| `ServeConn.EndToEnd` | `httpcore/server.go:165-218` | A client that pipelines accepted non-HEAD requests, equal ones possibly answered differently, reads back exactly the statuses of the responses to the requests served, in order, with nothing left over |
| `Proxied.StreamDecodes` | `proxy/proxy.go:287-354` | A stream of serialized responses, read with the relay's decoder, comes back whole: every status with its body, in order, and what follows |
| `Proxied.PipelineComesBack` | `httpcore/server.go:165-218` | A client that pipelines accepted requests and decodes what comes back gets, for each request served, exactly the status and body its handler gave, in order, with nothing left over |
| `ServeConn.LabelsAreKept` | `httpcore/server.go:200-213` | On any stream whatever: every response but the last is labelled keep-alive, and at most MaxRequestsPerConn are sent |
| `LoopProjection.LoopIsRun` | `httpcore/server.go:165-218` | What the loop does with any stream is a run of the step system: same labels in the same order, the connection leaves exactly when no panic strikes, nothing else changes |
| `LoopProjection.BytesDrainSafely` | `httpcore/server.go:136-218` | So of the responses to any stream at most one is written after draining is set |
| `Metrics.Search` | `metrics/metrics.go:47-47` | The binary search returns the one bucket whose bounds enclose the sample |
| `Metrics.BucketIsUnique` | `metrics/metrics.go:17-21` | Every latency, negative ones included, belongs to exactly one bucket |
| `Metrics.MicrosecondsExactly` | `metrics/metrics.go:45-46` | Whole microseconds, the rest dropped towards zero |
| `Metrics.Registry.Record` | `metrics/metrics.go:48-51` | The part under the mutex: status counts and bucket counts are those of the history with one more sample |
| `Metrics.Registry.Observe` | `metrics/metrics.go:43-52` | The three atomic steps together: total, sum, status counts and buckets are those of one more sample |
| `Metrics.Registry.Enter` | `metrics/metrics.go:128-138` | A request that begins is in flight and in no other counter |
| `Metrics.Registry.Leave` | `metrics/metrics.go:128-138` | A finished request is no longer in flight and is observed |
| `Metrics.Percentile` | `metrics/metrics.go:56-82` | The cumulative scan returns the interpolation in the first bucket whose cumulative count reaches the rank, or the last bound when none does |
| `Metrics.Summarize` | `metrics/metrics.go:96-119` | On whatever values the separate loads saw: counts, average, three percentiles, in order exactly where the race allows |
| `Metrics.Registry.TakeSnapshot` | `metrics/metrics.go:96-119` | At any moment, requests between their counters included: every status that occurred with its count and no other, true totals, uptime in seconds, in-flight count; the average times the number of requests is the sum of their latencies, and percentiles are in order, when no request is on its way |
| `Metrics.RankBrackets` | `metrics/metrics.go:56-82` | For any samples and any rank the buckets reach, the sample of that rank lies in the selected bucket and the estimate within its ends; the sample is within those ends if and only if it is between 0 and 2000000 |
| `Metrics.InterpolateIsLinear` | `metrics/metrics.go:73-77` | Within a bucket the estimate moves at an even pace from the lower end to the upper |
| `Metrics.PercentileBrackets` | `metrics/metrics.go:56-82` | The same for every percentile in (0, 1] of a registry whose requests have all reached the buckets |
| `Metrics.SettledIsMonotone` | `metrics/metrics.go:56-82` | A higher percentile is never reported lower when the total is what the buckets hold |
| `Metrics.MonotoneExactly` | `metrics/metrics.go:96-119` | With any total: in order if and only if the lower rank is not in the overflow bucket while the higher one is past all buckets |
| `Metrics.RaceReorders` | `metrics/metrics.go:43-52` | A concrete race of the counter against the buckets that reports the median at two seconds and the 99th percentile at one |
| `Router.Router.Handle` | `router/router.go:39-49` | The route is appended with its pattern compiled: captures by a leading colon, the rest literal |
| `Router.Match` | `router/router.go:57-72` | Matches exactly when lengths agree and every literal equals its part; the parameters are what the captures caught, the last one of a name winning |
| `Router.Dispatch` | `router/router.go:75-96` | The loop over the routes: first route for path and verb, else the sorted list of verbs, else nothing |
| `Router.Router.Serve` | `router/router.go:75-101` | Handled if and only if a route fits the path and has the verb, or is a GET route for HEAD; not found if and only if none fits; else 405 and Allow with the sorted verbs; the response is what the handler, the 405 or the NotFound handler makes of it |
| `Router.Kinds` | `router/router.go:75-101` | A handler runs if and only if some route takes path and verb; not-found if and only if no route matches the path; so 405 exactly between the two |
| `Router.PatternExactly` | `router/router.go:39-72` | A path fits a pattern if and only if it has as many parts and each equals the pattern's own, or the own part is a colon and a name, under which the part is handed over |
| `Router.DispatchIsDetermined` | `router/router.go:75-101` | The routes leave one outcome: one handler, one parameter map, one Allow list, whatever order the verb map is iterated in |
| `Router.IncreasingIsUnique` | `router/router.go:90-95` | A set of verbs has exactly one increasing list |
| `Router.SortSpec` | `router/router.go:90-94` | Sorting distinct verbs gives an increasing list of the same verbs |
| `Router.LessExactly` | `router/router.go:94-94` | The order is the one by bytes |
| `Router.PartsOfPath` | `router/router.go:76-76` | Joined slash-free parts with non-empty ends, with any slashes before and after, split back into those parts |
| `Router.FillingComesBack` | `router/router.go:39-101` | Values put into a registered pattern come back under its names when no earlier route takes the path; each capture's own value if and only if captures of one name were given one value, so always for distinct names |

## Left out

- Sockets, TLS, deadlines and clocks: a connection is a byte sequence with its final error, a clock reading or Date text is a parameter, and a write or dial either works or fails.
- Forced closing after the grace period of Shutdown: it appears only as reads and writes that fail.
- The gap between Accept and the wait-group Add: the code does not order it against Shutdown, so nothing is claimed for a connection in it.
- HitsAreFresh: is about runs of whole requests, because the lock is not held while a handler runs; CacheInterleaving says what holds when they overlap.
- RelayReframes: the host is non-empty and has no surrounding blanks, as net.SplitHostPort gives it for an address the server accepted; an address it cannot split would leave an empty value after the comma.
- Inclusion: needs storability to depend on the target alone, without which the claim is not one about the replacement policy.
- RelayReadsAny: is about what this server sends, with header values free of surrounding blanks, which the relay would cut off; an upstream's chunked body is read by the relay to the end of the stream or by a length it does not have.
- Memory: an allocation of up to 2^48 bytes, the address space of a 64-bit machine, succeeds, and a larger one panics; memory that runs out before is not modelled, nor is the spare capacity that growing a slice asks for, nor the relay's own allocation for an answer under a cap beyond that size.
- WindowBound: is about a key whose bucket is not evicted between the two takes; EvictionIsUnobservable covers eviction, for non-decreasing clock readings.
- RateLimit: the rate is positive, since a rate of zero switches the limiter off in cmd/pulsehttp/main.go:81.
- RoundRobinIsFair: tickets are below 2^63; StartIsIndex and Pick say what happens from there.
- LargerHitsMore: needs that nothing expires, since a larger cache may hold an expired entry where a smaller one fetches a fresh one.
- ProxyHandler: relays of one handler run one after another; how the relays of many handlers interleave is PoolOwnership's subject, without their bytes.
- ServerDrain: requests are reduced to whether they ask to close; their bytes are ServeConn's subject.
- Floating-point rounding, and overflow of durations and counters (a max-age beyond 292 years wraps around in the original).
- Case folding and white space outside ASCII, and the fine points of percent-decoding errors in the Go library.
- SHA-256, as an arbitrary function from a body to a digest text; net.SplitHostPort, as the client host given.
- Aliasing of a request's header object after parsing: a request is a value once it is parsed, and a handler is known by what it leaves in the response writer for the n-th request of its connection.
- The `io.Writer` plumbing of buffered writers, and errors of a flush in the middle of a response.
- ReasonPhrase: is a table of texts, and proved only to be printable; the wording of error bodies is likewise not claimed, but for the one after a panic.
- Authentication, the middleware chain and its logging, the JSON of the metrics route, flag parsing, load generation and reports: a few branches, wiring and printing.
