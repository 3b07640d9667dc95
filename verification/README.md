# Libft: verified models of the HTTP, pooling, encoding and demo cores

This project models the parts of the Libft repository whose correctness is not visible from one function body, and proves what they promise.

| component | files | what is proved |
|---|---|---|
| HTTP/1.1 body framing | `HttpSyntax`, `ChunkedBody`, `ChunkRfc`, `ChunkWriter`, `ChunkedStream`, `BodyReceiver` | the batch decoder accepts exactly a chunk grammar, compared in both directions with that of RFC 9112 and with an independent writer; the incremental reader agrees with it for every cut of every input; the receive loop on every segmentation, with and without surplus |
| Request bodies | `JsonPayload`, `JsonReader`, `ContentLength` | an independent JSON reader gives back the payload; the bytes streamed are the bytes measured whenever the callback accepts them; the printed length reads back |
| Circuit breaker and back-off | `Retry`, `Circuit`, `CircuitTable` | the state vector is a map without cross-key effects; safety and recovery over every interleaving; the exact recovery condition; exponential waits |
| Connection pool | `ConnectionPool`, `PoolReuse`, `PoolStorage` | exactly which targets share a key; over every run each socket is in exactly one place, TLS connections are never reused and the limit is kept; the acquire takes the oldest usable entry; a stored connection is handed out again or closed by its age and its answer; runs on the array and the handle objects do what the functions say |
| Graph and line algorithms | `ModulePath`, `Maze`, `DrawLine` | shortest paths on cyclic graphs with duplicated queue entries; exact maze reachability within fixed arrays; the endless-looking line loop ends on the end point and draws the one line within half a pixel |
| Canonical encodings | `RequestSigning`, `BaseStringReader`, `Unicode` | the OAuth base string is canonical, and an independent reader finds its parts in byte order; UTF-8 and UTF-16 convert back and forth without loss |
| Small stateful structures | `FpsHistory`, `Leaderboard` | the ring buffer holds exactly the window; the board is the top of a stable sort; save and load give back a board exactly when it is sorted with letter names |

Conventions. Objects and buffers that the source updates in place are classes and arrays whose methods are proved equal to functions on values; the theorems about runs are lemmas about those functions. A null pointer is `None`. Clock readings, liveness polls, callback verdicts and the success of fallible library calls are arguments, so every theorem holds for all of them. Library code with fixed meaning (string append, allocation, locking of the circuit mutex) is taken to succeed. `hide` statements only shorten proofs: they remove definitions from a proof's context.

Where the code departs from what a reader of the standards or of the repository would expect, the model follows the code, and a lemma states the exact condition:

- RFC 9112 allows blanks before the `;` of a chunk extension, the parser refuses them: `RfcLineIsReadIffTight` and `RfcMessageDecodesIffReadable` say which lines and messages of the RFC are read, `BlankBeforeSemicolonIsRefused` is the witness `5 ;a=b`;
- conversely the parser does not look behind the `;` and reads an empty size as zero: `AcceptedLineIsRfcIff` and `AcceptedMessageIsRfcIff` say which accepted lines and messages belong to the RFC, `NamelessExtensionIsAccepted` and `EmptySizeIsAccepted` are the witnesses `5;` and `;`;
- bytes behind the terminating chunk that arrive in the same segment are parsed as another message and can be delivered after the final flag (`SurplusIsDeliveredAfterFinal`; `ReceiveOfSurplus` gives the exact condition for every segmentation);
- request bodies are written without escapes: a payload reads back exactly when its names and texts hold no quote, backslash or control character and its bare values are numbers (`BodyReadsBackIffPlain`, witness `QuoteIsNotEscaped`);
- a half-open circuit that needs more than one success keeps its probe reserved after the first, so a caller that records a success only after its own granted request is refused for ever (`RecoveryNeedsSingleSuccess`, `StuckWhenMoreAreRequired`);
- a declared length of zero never raises the final flag before the connection ends, so surplus, an error for every other length, is left in the buffer without a callback and the response succeeds (`SurplusIsErrorIffPositive`; `ZeroLengthKeepsSurplus` is the witness `ab` behind `Content-Length: 0`);
- two different targets can share a pool key, but never through their hosts alone: the identity of one must end in port, mode and identity of the other (`KeysMatch`), so it must contain `:tls:` or `:plain:` (`ModeFreeIdentitiesAreInjective`). The identities that the request functions build are none, the host, or the verification with the certificate file (`RequestsDoNotCollide`; witness `CertificateNameCollides`); plain requests, which pass no identity, never collide with each other.

## Model

| member | source | states |
|---|---|---|
| HttpSyntax.FindCrlf | Modules/API/api_http_common.cpp:62-81 | returns the first CRLF of the window, or none exactly when there is none; a lone CR at the end is none |
| HttpSyntax.ScanHex | Modules/API/api_http_common.cpp:130-165 | accepts exactly the non-empty lines whose text before the first `;` is hexadecimal with a value of at most the 64-bit maximum, and returns that value; the overflow tests refuse nothing else |
| HttpSyntax.ScanDecimal | Modules/API/api_http_common.cpp:102-128 | accepts exactly the non-empty digit strings whose value is at most the 64-bit maximum, and returns it |
| ChunkedBody.ChunkedBodyComplete | Modules/API/api_http_common.cpp:337-397 | verdict and consumed length are those of the decoder on every input |
| ChunkedBody.DecodeChunked | Modules/API/api_http_common.cpp:399-474 | the decoded bytes (also the partial ones of a failure), verdict and consumed length are those of the decoding function on every input |
| ChunkedBody.DecodeOfRender | Modules/API/api_http_common.cpp:409-473 | every message of the grammar, followed by anything, decodes to its payload and consumes its exact length |
| ChunkedBody.ParseOfDecode | Modules/API/api_http_common.cpp:409-473 | an accepted input starts with a message of the grammar whose rendering is the consumed part and whose payload is the decoded body |
| ChunkedBody.DecodeAcceptsExactly | Modules/API/api_http_common.cpp:399-474 | the decoder accepts an input if and only if some message of the grammar stands at its front |
| ChunkedBody.DecodeIgnoresSurplus | Modules/API/api_http_common.cpp:445-449 | bytes after an accepted body change neither the body nor the consumed length |
| ChunkedBody.FramingIsUnambiguous | Modules/API/api_http_common.cpp:399-474 | two messages at the front of one input have the same bytes and the same payload |
| ChunkedBody.AcceptedBodiesArePrefixFree | Modules/API/api_http_common.cpp:399-474 | a body accepted to its last byte has no longer accepted extension |
| ChunkedBody.FailedDecodeKeepsChunks | Modules/API/api_http_common.cpp:450-473 | a failed decode returns the data of all whole chunks in front, and that of one more whose end is wrong |
| ChunkWriter.TableDigits | Modules/API/api_http_common.cpp:148-155 | the d-th characters of `0123456789abcdef` and `0123456789ABCDEF` have the value d |
| ChunkWriter.HexDigitsAreInTables | Modules/API/api_http_common.cpp:148-155 | no other character is a hexadecimal digit |
| ChunkWriter.DecimalDigits | Modules/API/api_http_common.cpp:102-128 | the d-th decimal digit has the value d, and no other character is one |
| ChunkWriter.PrintedSizeReadsBack | Modules/API/api_http_common.cpp:130-165 | a size printed in base 16, with anything behind a `;`, reads back, or is refused exactly when it does not fit 64 bits |
| ChunkWriter.WrittenBodyDecodes | Modules/API/api_http_common.cpp:399-474 | a body written piece by piece with printed sizes, in lower or upper case and followed by anything, decodes to the pieces with its own length consumed |
| ChunkRfc.RfcLineIsReadIffTight | Modules/API/api_http_common.cpp:130-165 | every size line of section 7.1 of RFC 9112, extensions included, is read as its size if no blank stands before its first `;` and the size fits 64 bits, and refused otherwise |
| ChunkRfc.TightIffNoLeadingBlank | Modules/API/api_http_common.cpp:142-147 | that condition holds exactly when the extensions are missing or start with `;` |
| ChunkRfc.AcceptedLineIsRfcIff | Modules/API/api_http_common.cpp:139-147 | an accepted line belongs to the RFC if and only if it does not start with `;` and what follows the size is a list of well-formed extensions |
| ChunkRfc.BlankBeforeSemicolonIsRefused | Modules/API/api_http_common.cpp:142-152 | `5 ;a=b` is a size line of the RFC and is refused |
| ChunkRfc.NamelessExtensionIsAccepted | Modules/API/api_http_common.cpp:146-147 | `5;` is read as five and is not a size line of the RFC |
| ChunkRfc.EmptySizeIsAccepted | Modules/API/api_http_common.cpp:146-147 | the line `;` is read as zero and is not a size line of the RFC |
| ChunkRfc.RfcMessageDecodesIffReadable | Modules/API/api_http_common.cpp:399-474 | every message of the RFC, with extensions and trailer fields and whatever follows it, decodes to the concatenation of its chunks with its exact length consumed if no size line has a blank before its `;` and no size exceeds 64 bits, and is refused otherwise |
| ChunkRfc.AcceptedMessageIsRfcIff | Modules/API/api_http_common.cpp:399-474 | an accepted message belongs to the RFC if and only if all its size lines have a size and well-formed extensions and its trailer lines are field lines |
| ChunkRfc.LooseMessageDecodes | Modules/API/api_http_common.cpp:399-474 | whatever stands between `;` and the line end and whatever trailer lines follow, a message decodes to the concatenation of its chunks |
| ChunkedStream.StepExtends | Modules/API/api_http_plain.cpp:675-758 | a round of the chunk loop that does not wait reads only bytes already buffered: with more bytes behind it does the same |
| ChunkedStream.RunExtends | Modules/API/api_http_plain.cpp:670-760 | reading what is there and later the rest ends in the state of reading everything at once; after an error the rest stays unread |
| ChunkedStream.CutIndependence | Modules/API/api_http_plain.cpp:670-760 | for every input, well formed or not, and every cut: verdict, all variables and the callback trace are those of the uncut input |
| ChunkedStream.RunOfMessage | Modules/API/api_http_plain.cpp:670-760 | a message of the grammar causes exactly one callback per chunk and one final callback, and the loop goes on behind it |
| ChunkedStream.FinalIffDecodes | Modules/API/api_http_plain.cpp:690-702 | the final flag is raised if and only if the batch decoder accepts the input |
| ChunkedStream.StreamMatchesBatch | Modules/API/api_http_plain.cpp:670-760 | for every input the batch decoder consumes entirely and every cut: no error, the same body in order, the final flag once and last, an empty buffer |
| ChunkedStream.RunObeys | Modules/API/api_http_plain.cpp:670-760 | whatever the handler answers: no callback follows a refused one, and a refusal is no success |
| ChunkedStream.ReaderFailsExactly | Modules/API/api_http_plain.cpp:704-757 | for every cut of every input: the reader gives up if and only if, behind whole chunks and trailer sections, a complete line is no size line or the bytes of a chunk are all there and do not end in CRLF |
| ChunkedStream.SurplusIsDeliveredAfterFinal | Modules/API/api_http_plain.cpp:701-735 | concrete input on which data is delivered after the final flag |
| BodyReceiver.ChunkedBodyIsReceived | Modules/API/api_http_plain.cpp:1210-1223 | the receive loop succeeds on every cut of a complete chunked body into non-empty segments, delivers the decoded body and raises the final flag once and last |
| BodyReceiver.ReceiveOfSurplus | Modules/API/api_http_plain.cpp:1210-1223 | a message and any surplus, cut in any way: the loop reports the message first, stops behind the segment that completes it, and succeeds with that message alone if and only if the surplus within that segment is silent (zero-size chunks, their trailers, a lone size line) |
| BodyReceiver.ReceiveStopsAtMessage | Modules/API/api_http_plain.cpp:1210-1223 | the loop ends behind the first segment after which the bytes received decode, in the state of one flush of all of them |
| BodyReceiver.SuccessNeedsMessage | Modules/API/api_http_plain.cpp:1021-1038 | the loop succeeds only if some prefix of the segments decodes |
| BodyReceiver.FlushOfSurplus | Modules/API/api_http_plain.cpp:805-817 | one flush of a message and surplus bytes reports that message alone if and only if the surplus is silent |
| BodyReceiver.SilentIffDrains | Modules/API/api_http_plain.cpp:675-758 | after the final flag the buffer drains without a callback if and only if it is silent |
| BodyReceiver.FlushOfSegment | Modules/API/api_http_plain.cpp:770-803 | one segment of a declared-length body: delivered up to the length, final exactly on reaching it, surplus is an error |
| BodyReceiver.LengthBodyIsReceived | Modules/API/api_http_plain.cpp:762-804 | for every length and segmentation: delivered is the first min(received, length) bytes, final is raised once and last exactly when the length is reached, and the loop succeeds if and only if after some number of segments as many bytes were received as declared |
| BodyReceiver.ZeroLengthFrom | Modules/API/api_http_plain.cpp:770-803 | with length zero everything received stays in the buffer, the only callback is the final one at the end of the connection, and the loop succeeds |
| BodyReceiver.SurplusIsErrorIffPositive | Modules/API/api_http_plain.cpp:797-802 | surplus in the segment that completes the length is an error if and only if the length is positive |
| BodyReceiver.ZeroLengthKeepsSurplus | Modules/API/api_http_plain.cpp:772-803 | concrete surplus behind a declared length of zero that is neither delivered nor refused |
| BodyReceiver.CloseBodyIsReceived | Modules/API/api_http_plain.cpp:818-823 | a body framed by neither length nor chunks: every segmentation succeeds, delivers everything in order and raises the final flag once and last |
| BodyReceiver.ReceiveObeys | Modules/API/api_http_plain.cpp:1021-1223 | every framing, input and handler: no callback follows a refused one, and the loop succeeds only if all were accepted |
| BodyReceiver.Receiver.ProcessChunkedBuffer | Modules/API/api_http_plain.cpp:670-760 | the in-place loop over buffer, remaining size, trailer and final flags ends and computes the run of the reader, with any callback verdicts |
| BodyReceiver.Receiver.FlushBuffer | Modules/API/api_http_plain.cpp:762-824 | the three framing branches in the code's order compute the flush function |
| BodyReceiver.Receiver.FinishAtEof | Modules/API/api_http_plain.cpp:1021-1062 | the end-of-file checks and final callbacks of the three framings |
| BodyReceiver.Receiver.ReceiveBody | Modules/API/api_http_plain.cpp:975-1223 | the segment loop computes the receive function and stops at the first error, final flag or empty read |
| JsonPayload.MeasureAdd | Modules/API/api_http_common.cpp:476-482 | fails exactly when the sum exceeds the 64-bit size, without wrapping |
| JsonPayload.Measure | Modules/API/api_http_common.cpp:484-581 | the size of the rendered body; fails exactly when it exceeds the 64-bit size |
| JsonPayload.SendIsHeard | Modules/API/api_http_common.cpp:583-596 | sending any pieces: what was sent before stays, the verdict is positive if and only if the callback accepted every piece, and after a refusal nothing more is sent |
| JsonPayload.SendBytes | Modules/API/api_http_common.cpp:583-596 | the callback sees all bytes of the pieces when it accepts them, else a prefix |
| JsonPayload.BodyPiecesRender | Modules/API/api_http_common.cpp:598-718 | the pieces of a payload, joined, are the rendered body |
| JsonPayload.Sender.Literal | Modules/API/api_http_common.cpp:583-596 | hands the literal to the callback and returns its verdict; nothing is handed over for an empty one |
| JsonPayload.Sender.Stream | Modules/API/api_http_common.cpp:598-718 | hands over exactly the payload's pieces up to the first refusal; succeeds if and only if every piece was accepted, and the bytes seen are then the rendered body, else a prefix |
| JsonReader.BodyReadsBackIffPlain | Modules/API/api_http_common.cpp:598-718 | a reader after RFC 8259 gives back the names, keys and values of the payload in their order, texts as strings and big numbers as numbers, if and only if names and texts need no escapes and bare values are numbers |
| JsonReader.QuoteIsNotEscaped | Modules/API/api_http_common.cpp:668-684 | a payload whose value is a quote does not read back |
| JsonPayload.MeasureAndStream | Modules/API/api_http_plain.cpp:499-607 | with an accepting callback and a length that fits, streaming succeeds, and on success as many bytes were sent as were measured; nothing is sent when the length does not fit |
| ContentLength.DigitsDenote | Modules/API/api_content_length.cpp:21-40 | the printed digits denote the length and have no leading zero |
| ContentLength.DigitsAreUnique | Modules/API/api_content_length.cpp:21-40 | no other digit string without a leading zero denotes the same length |
| ContentLength.PrintedLengthReadsBack | Modules/API/api_content_length.cpp:21-40 | the header parser reads the printed length back, unless it is above the signed 64-bit maximum, when it refuses |
| ContentLength.ReversedDigits | Modules/API/api_content_length.cpp:21-30 | the do-while loop ends within its buffer for every 64-bit length and holds the digits reversed |
| ContentLength.AppendHeader | Modules/API/api_content_length.cpp:7-54 | the request grows by the header name and the digits; the buffer test never fails |
| Retry.DelayIsExponential | Modules/API/api_http_retry.cpp:91-120 | the k-th wait is min(initial * multiplier^k, cap), zero without an initial delay |
| Retry.DelayInFields | Modules/API/api_http_retry.cpp:19-120 | the same in the policy's own fields with their defaults |
| Retry.CircuitInFields | Modules/API/api_http_retry.cpp:55-89 | the breaker's settings in the policy's own fields with their defaults |
| Retry.DelaysGrow | Modules/API/api_http_retry.cpp:105-120 | waits never shrink, stay below the cap, and the 64-bit product never overflows |
| Retry.ExecuteWithRetry | Modules/API/api_http_plain.cpp:1563-1628 | at most the policy's attempts (one if its field is not positive, two without a policy), fewer only by stopping at the first that is not retryable, success exactly when that one succeeds, one exponential wait between attempts |
| Circuit.DeadlineIsMonotone | Modules/API/api_retry.cpp:88-99 | the deadline is min(now + cooldown, 64-bit maximum) and monotone in time |
| Circuit.StepKeepsInv | Modules/API/api_retry.cpp:199-352 | every call keeps the circuit closed below the threshold, open exactly at it, or half-open with no deadline and the probe out |
| Circuit.RunKeepsInv | Modules/API/api_retry.cpp:167-378 | the same over every run of calls |
| Circuit.CountsConsecutiveFailures | Modules/API/api_retry.cpp:341-352 | in every run a closed circuit counts exactly the failures since the last success or reset, below the threshold; an open one shows the threshold |
| Circuit.TripsExactlyAtThreshold | Modules/API/api_retry.cpp:325-352 | a failure opens the circuit if and only if it is half-open or it completes a run of threshold failures, and the deadline is one cooldown away |
| Circuit.NoGrantBeforeDeadline | Modules/API/api_retry.cpp:199-208 | after a trip no request is granted before the deadline, through any failures and refused requests, under a monotone clock |
| Circuit.GrantedExactly | Modules/API/api_retry.cpp:199-232 | a request is granted exactly by a closed circuit or an open one whose deadline has passed, and what it leaves behind |
| Circuit.SuccessCloses | Modules/API/api_retry.cpp:267-288 | a success closes every circuit that is not half-open, also an open one, so the next request is granted |
| Circuit.ClosedGrants | Modules/API/api_retry.cpp:199-232 | a closed circuit grants every request until a failure is recorded |
| Circuit.EpisodeGrantsOnce | Modules/API/api_retry.cpp:209-229 | a half-open episode starts with a granted request and grants no other |
| Circuit.EpisodeGoesOn | Modules/API/api_retry.cpp:218-226 | with fewer successes than required the episode lasts, refuses every request and counts the successes |
| Circuit.EpisodeCloses | Modules/API/api_retry.cpp:269-283 | it closes exactly at the required number of successes |
| Circuit.EpisodeReopens | Modules/API/api_retry.cpp:330-340 | its first failure opens the circuit for a whole cooldown |
| Circuit.RecoveryNeedsSingleSuccess | Modules/API/api_retry.cpp:209-283 | after expiry, one grant and one success, the next request is granted if and only if a single success is required |
| Circuit.StuckWhenMoreAreRequired | Modules/API/api_retry.cpp:276-282 | with more required, no number of further requests is granted |
| CircuitTable.Breaker.FindState | Modules/API/api_retry.cpp:114-133 | finds the entry of the key or shows that the table has none |
| CircuitTable.Breaker.GetState | Modules/API/api_retry.cpp:135-165 | the entry of the key, appended fresh if new; keys stay unique and no other entry changes |
| CircuitTable.Breaker.AllowRequest | Modules/API/api_retry.cpp:167-233 | one allow operation on the table, granted as the key's circuit says; inactive policies and empty keys are granted without a trace |
| CircuitTable.Breaker.RecordSuccess | Modules/API/api_retry.cpp:235-291 | one success operation on the table: the key's circuit and nothing else |
| CircuitTable.Breaker.RecordFailure | Modules/API/api_retry.cpp:293-355 | one failure operation on the table: the key's circuit and nothing else |
| CircuitTable.Breaker.ResetAll | Modules/API/api_retry.cpp:357-375 | forgets every key |
| CircuitTable.KeysAreIndependent | Modules/API/api_retry.cpp:114-378 | in every interleaving the circuit of a key is what its own calls and the resets make of it |
| CircuitTable.ReachableCircuits | Modules/API/api_retry.cpp:167-378 | every circuit of every reachable table has the invariant shape |
| CircuitTable.NoGrantAfterTrip | Modules/API/api_retry.cpp:199-352 | safety over whole interleaved runs: once a failure left a key open, its requests are refused until the deadline unless a success of that key or a reset intervenes |
| CircuitTable.GrantsAfterSuccess | Modules/API/api_retry.cpp:199-288 | over whole interleaved runs: after a success of a key that is not half-open, even a tripped one, its requests are granted until it fails again |
| ConnectionPool.KeyIsInjective | Modules/API/api_connection_pool.cpp:375-403 | with hosts free of colons, equal keys mean equal host, port, mode and identity |
| ConnectionPool.KeysMatch | Modules/API/api_connection_pool.cpp:375-403 | for all targets: they share a key if and only if they are equal, or one host starts with the other's host, port and mode and the other's identity is the rest of that host followed by port, mode and identity of its target |
| ConnectionPool.ModeFreeIdentitiesAreInjective | Modules/API/api_connection_pool.cpp:375-403 | whatever the hosts, identities that contain neither `:tls:` nor `:plain:` make the key injective |
| ConnectionPool.RequestsDoNotCollide | Modules/API/api_request_tls.cpp:161-185 | with the identities that requests build, if they contain neither `:tls:` nor `:plain:` and a host used as identity is not empty and does not start with `verify:`, keys agree if and only if host, port and security agree |
| ConnectionPool.ColonFreeCertificate | Modules/API/api_request_tls.cpp:165-175 | a certificate file name without colons makes such an identity |
| ConnectionPool.CertificateNameCollides | Modules/API/api_request_tls.cpp:161-185 | two different requests with one key, through a certificate file name with colons |
| ConnectionPool.PlainKeyText | Modules/API/api_connection_pool.cpp:388-402 | the key of a plain request written out |
| ConnectionPool.ScanTakesOldest | Modules/API/api_connection_pool.cpp:502-556 | the search returns the oldest entry that matches, is unexpired and alive, and keeps in order all entries but it and the matching ones before it |
| ConnectionPool.AcquireTakesOldest | Modules/API/api_connection_pool.cpp:452-561 | a faultless acquire succeeds exactly when a usable entry exists, hands over the oldest, sets the handle's fields and counts a reuse or a miss |
| ConnectionPool.AcquireWithoutSearch | Modules/API/api_connection_pool.cpp:462-500 | a disabled pool or an early fault: the acquire fails, counts a miss, touches no stored connection, and what it leaves in the handle |
| ConnectionPool.AcquireConserves | Modules/API/api_connection_pool.cpp:452-561 | with any faults, a failed key build included, every socket of pool and handle is afterwards in one of them or closed, even if the handle still owned one |
| ConnectionPool.MarkIdleConserves | Modules/API/api_connection_pool.cpp:563-678 | the same for giving a connection back |
| ConnectionPool.MarkIdleIsBounded | Modules/API/api_connection_pool.cpp:653-666 | at most max(previous count, limit) entries remain |
| ConnectionPool.ApplyKeepsInv | Modules/API/api_connection_pool.cpp:452-755 | every operation keeps: each opened socket in exactly one place, plain slots ordered by age, honest handle flags, acquires + early refusals = reuses + misses |
| ConnectionPool.RunKeepsInv | Modules/API/api_connection_pool.cpp:452-755 | the same over every sequence of operations on any number of handles, plain and TLS connections mixed |
| ConnectionPool.ExactlyOnePlace | Modules/API/api_connection_pool.cpp:452-755 | in every reachable world each socket ever opened is in exactly one handle, slot or the closed, and no other socket anywhere |
| ConnectionPool.RunIsBounded | Modules/API/api_connection_pool.cpp:653-666 | over every run at most as many connections are stored as the largest limit that was in force |
| ConnectionPool.TlsIsNeverReused | Modules/API/api_connection_pool.cpp:596-601 | after every run of calls as the request functions make them, an acquire for a TLS target whose identity names no mode fails and touches no stored connection |
| PoolReuse.StoredExactly | Modules/API/api_connection_pool.cpp:573-645 | a connection given back is stored under its key with the time exactly when the handle is not timed out, storable and plain, the pool enabled with a positive limit and the socket alive; otherwise it is closed |
| PoolReuse.TimedOutIsNeverStored | Modules/API/api_connection_pool.cpp:578-583 | over every run the connection of a handle marked timed out is never stored |
| PoolReuse.EntryStaysOver | Modules/API/api_connection_pool.cpp:452-755 | as long as a socket stays stored, its entry keeps its key and store time |
| PoolReuse.HandedOutServes | Modules/API/api_connection_pool.cpp:502-556 | whatever any acquire hands out was stored under the target's key, is not out of time and alive, and the pool is enabled |
| PoolReuse.AcquireAt | Modules/API/api_connection_pool.cpp:502-556 | an entry that no older one precedes is handed out if it is in time and alive, and closed and gone otherwise |
| PoolReuse.ReusedAfterStore | Modules/API/api_connection_pool.cpp:452-678 | from a store at time t to an acquire of the same target in any reachable world: the socket is handed out if the timeout is not positive or now - t is at most the timeout and the socket is alive; otherwise it is closed and in no other place |
| PoolStorage.Storage.RemoveAt | Modules/API/api_connection_pool.cpp:74-92 | the shifting loop removes exactly that position, nulls the freed slot and closes what the entry's socket object still owns, which is nothing once it was moved out |
| PoolStorage.Storage.EnsureCapacity | Modules/API/api_connection_pool.cpp:94-134 | nothing changes when there is room; else the capacity, at first 4, is doubled until it suffices and no further, with the same entries and null slots behind |
| PoolStorage.Storage.FindUsable | Modules/API/api_connection_pool.cpp:502-530 | the in-place search with removals computes the scan of the stored sequence |
| PoolStorage.Storage.AcquireConnection | Modules/API/api_connection_pool.cpp:452-561 | pool, handle and result are those of the acquire function, with any faults; the array stays the same object |
| PoolStorage.Storage.MarkHandleIdle | Modules/API/api_connection_pool.cpp:563-678 | pool and handle are those of the mark-idle function, also for a handle whose flag is set while its socket object owns nothing; a storable connection becomes the last entry and only the oldest one makes room, any other leaves the entries alone; the array is the old or a new one |
| PoolStorage.Storage.EvictHandle | Modules/API/api_connection_pool.cpp:680-714 | a set flag: the handle's socket is closed and every flag is cleared, key and mode stay; else nothing changes |
| PoolStorage.Storage.ClearStorage | Modules/API/api_connection_pool.cpp:278-303 | every stored socket is closed and the array is replaced by an empty one |
| PoolStorage.Storage.SetEnabled | Modules/API/api_connection_pool.cpp:742-755 | disabling also clears the storage; enabling keeps the array |
| PoolStorage.Perform | Modules/API/api_connection_pool.cpp:452-785 | any operation on the array and the handle objects does what the operation on the world does |
| PoolStorage.PerformAll | Modules/API/api_connection_pool.cpp:452-785 | the same for every run |
| PoolStorage.Serve | Modules/API/api_connection_pool.cpp:452-785 | from a new pool and new handles, over every run in place, each socket ever opened is owned by exactly one handle object or array entry or is closed |
| ModulePath.FindModulePath | tools/audit_direct_includes.py:228-256 | ends on every finite graph, returns none if and only if the target is unreachable, else an edge path of minimum length, for every order of the dependency sets |
| ModulePath.FrontierBoundsPaths | tools/audit_direct_includes.py:238-243 | any path to an unvisited module is at least as long as the distance of the next module to expand |
| ModulePath.Expand | tools/audit_direct_includes.py:251-255 | queueing the dependencies in any order keeps the search invariant although copies are queued out of order |
| ModulePath.BuildPath | tools/audit_direct_includes.py:244-250 | the walk through the predecessors, reversed, is the predecessor chain |
| Maze.ReachesExit | Demo/demo_levels.cpp:241-308 | for every grid the search ends within its arrays and succeeds if and only if a route over the four neighbours joins start and exit without entering a wall |
| Maze.QueueFits | Demo/demo_levels.cpp:253-260 | the queue never outgrows width * height |
| Maze.SearchEnds | Demo/demo_levels.cpp:261-307 | when every queued tile is expanded, nothing outside the queue is reachable |
| Maze.CheckTiles | Demo/demo_levels.cpp:198-239 | accepts if and only if all tiles are legal, the border is closed and there is exactly one exit, which it returns |
| Maze.ValidateLevel | Demo/demo_levels.cpp:310-341 | accepts if and only if the level is named, positive, starts on an open tile, passes the tile check and its exit can be walked to |
| DrawLine.WalkStep | Demo/demo_render.cpp:478-488 | the two tests on the doubled error always advance the longer axis and keep -dx <= 2*(dx*j - dy*i) < dx on flat lines, -dy < 2*(dx*j - dy*i) <= dy on steep ones |
| DrawLine.WalkIsBounded | Demo/demo_render.cpp:466-489 | neither axis overshoots and both ends are reached together |
| DrawLine.ErrorIsBounded | Demo/demo_render.cpp:478 | the doubled error stays within three times the longer extent |
| DrawLine.Draw | Demo/demo_render.cpp:437-491 | ends for all end points; visits max(dx, dy) + 1 adjacent points from start to end, each within half a pixel of the line, ties on one side; recolours exactly the visited pixels inside the image |
| DrawLine.LineIsUnique | Demo/demo_render.cpp:437-491 | these properties determine the points: there is one such line |
| DrawLine.HitIffDrawn | Demo/demo_render.cpp:468-473 | a pixel is recoloured if and only if its own point is visited |
| RequestSigning.EncodeIsInjective | Modules/API/api_request_signing.cpp:84-147 | different texts have different percent encodings |
| RequestSigning.EncodeIsClean | Modules/API/api_request_signing.cpp:84-147 | encoded text consists of unreserved characters and percent signs only |
| RequestSigning.AppendEncoded | Modules/API/api_request_signing.cpp:84-147 | the loop appends the percent encoding |
| RequestSigning.Uppercase | Modules/API/api_request_signing.cpp:149-180 | the loop returns the text with ASCII letters raised |
| RequestSigning.AddParameter | Modules/API/api_request_signing.cpp:264-307 | appends the encoded pair, reads a missing value as empty, refuses a missing key |
| RequestSigning.SortedIsUnique | Modules/API/api_request_signing.cpp:540-559 | two sorted arrangements of the same entries are equal, so the choice of sort cannot matter |
| RequestSigning.JoinIsInjective | Modules/API/api_request_signing.cpp:309-336 | the normalized string splits back into its pairs in only one way |
| RequestSigning.Normalize | Modules/API/api_request_signing.cpp:309-336 | the loop joins the pairs with `=` and `&` |
| RequestSigning.BaseStringIsCanonical | Modules/API/api_request_signing.cpp:540-591 | two requests have the same base string if and only if upper-cased method, URL and multiset of parameters agree |
| RequestSigning.BuildBaseString | Modules/API/api_request_signing.cpp:493-591 | fails exactly on a missing required field or parameter key; else returns a base string of the request's parameters with their defaults |
| BaseStringReader.CompareIsByBytes | Modules/API/api_request_signing.cpp:551-557 | the comparison is negative if and only if the first text is a proper prefix of the second or has the smaller byte where they first differ |
| BaseStringReader.UnreservedCharacters | Modules/API/api_request_signing.cpp:103-116 | exactly the unreserved characters of RFC 3986 are left alone |
| BaseStringReader.UnescapeOfEncode | Modules/API/api_request_signing.cpp:84-147 | percent decoding with capital digits undoes the encoding |
| BaseStringReader.RaisedLetters | Modules/API/api_request_signing.cpp:168-170 | the d-th letter is raised to the d-th capital, all else stays |
| BaseStringReader.BaseStringReadsBack | Modules/API/api_request_signing.cpp:540-591 | a reader after RFC 5849 finds the raised method, the URL and the encoded parameters in ascending byte order of keys and then values |
| BaseStringReader.RequestReadsBack | Modules/API/api_request_signing.cpp:493-591 | for a request these are its OAuth fields under their names with their defaults, and its additional parameters |
| Unicode.NextOfEncode8 | Modules/Basic/basic_utf8_encode.cpp:6-51 | decoding an encoded scalar, whatever follows, gives it back with its length |
| Unicode.EncodeOfNext8 | Modules/Basic/basic_utf8_decode.cpp:47-84 | encoding a decoded scalar gives back the bytes consumed, so no overlong form is accepted |
| Unicode.ScanUtf8 | Modules/Basic/basic_utf8_decode.cpp:47-84 | the continuation-byte loop computes the decoding function |
| Unicode.Decode8AcceptsEncodings | Modules/Basic/basic_utf8_decode.cpp:47-84 | a byte string decodes if and only if it is the encoding of some scalars |
| Unicode.Decode16AcceptsPaired | Modules/Advanced/advanced_wide.cpp:46-78 | a unit string decodes if and only if surrogates come in adjacent high-low pairs |
| Unicode.RoundTrip8 | Modules/Advanced/advanced_wide.cpp:93-246 | UTF-8 to UTF-16 and back is the identity |
| Unicode.RoundTrip16 | Modules/Advanced/advanced_wide.cpp:93-246 | UTF-16 to UTF-8 and back is the identity |
| Unicode.DecodeUnit | Modules/Advanced/advanced_wide.cpp:46-78 | one surrogate-aware step computes the decoding function |
| Unicode.Utf16ToUtf8 | Modules/Advanced/advanced_wide.cpp:93-129 | null and zero-length arguments as in the code; else the conversion of the effective input, failing exactly on ill-formed input |
| Unicode.CountUnits | Modules/Advanced/advanced_wide.cpp:195-214 | the counting pass returns exactly the number of units of the conversion |
| Unicode.FillUnits | Modules/Advanced/advanced_wide.cpp:218-242 | the second pass never fails and fills the buffer exactly up to its terminator |
| Unicode.Utf8ToUtf16 | Modules/Advanced/advanced_wide.cpp:185-246 | the allocated buffer is the conversion followed by one zero, and the reported length is its length; null exactly on ill-formed input |
| Unicode.StandardExamples | Modules/Basic/basic_utf8_encode.cpp:6-51 | the examples of RFC 3629 for each length and of RFC 2781 |
| FpsHistory.RecentAreLast | Demo/demo_runtime.cpp:117-129 | in a non-decreasing history the samples within the window are exactly the last ones |
| FpsHistory.WindowIsTenSeconds | Demo/demo_runtime.cpp:109-116 | a sample is within the window exactly when it is at most ten seconds old |
| FpsHistory.History.Push | Demo/demo_runtime.cpp:98-107 | the ring holds the newest sample and the previous ones up to its capacity |
| FpsHistory.History.DropOld | Demo/demo_runtime.cpp:117-129 | the dropping loop leaves exactly min(4096, samples not older than the cutoff) |
| FpsHistory.History.Update | Demo/demo_runtime.cpp:80-171 | after every frame the ring holds exactly the last min(4096, k) samples, never none, and the average and displayed rates follow from them |
| FpsHistory.History.Restart | Demo/demo_runtime.cpp:38-53 | a reset forgets all samples and zeroes the displayed rate, the average and the frame counter |
| Leaderboard.Board.InsertScore | Demo/demo_leaderboard.cpp:27-66 | the array holds the first five of the insertion behind all entries that are at least as fast |
| Leaderboard.SortAllIsStableSort | Demo/demo_leaderboard.cpp:40-50 | repeated insertion is sorted, a permutation, and keeps ties in order |
| Leaderboard.BoardIsTopOfStableSort | Demo/demo_leaderboard.cpp:27-66 | after any insertions the board is the first five of the stable sort of everything inserted |
| Leaderboard.FormatFits | Demo/demo_leaderboard.cpp:68-97 | five lines fit the buffer, so nothing is truncated |
| Leaderboard.Save | Demo/demo_leaderboard.cpp:68-101 | writes one line per entry |
| Leaderboard.ParseU32 | Demo/demo_leaderboard.cpp:103-117 | reads the digits with 32-bit wrap-around and stops behind them |
| Leaderboard.Load | Demo/demo_leaderboard.cpp:119-176 | the index loops compute the loading function on every text |
| Leaderboard.OtherLineIsSkipped | Demo/demo_leaderboard.cpp:138-152 | in any text a line that does not start with three letters changes nothing |
| Leaderboard.NameWithoutBlankEndsLoading | Demo/demo_leaderboard.cpp:157-161 | three letters with no blank behind them end the loading |
| Leaderboard.ScoreLineIsInserted | Demo/demo_leaderboard.cpp:162-172 | three letters, a blank, digits and anything else insert that name with the number modulo 2^32 |
| Leaderboard.SavedBoardLoads | Demo/demo_leaderboard.cpp:68-176 | saving and loading gives back the board if and only if it is sorted and its names are letters A-Z |

## Left out

- Sockets, polling, DNS, TLS, threads and file access: they appear only as arguments of the model.
- Header parsing (Modules/API/api_http_common.cpp:167-335): the framing flags are parameters of the model.
- A response with both a declared length and chunked coding: the model follows the code's order of tests, the theorems speak of one framing at a time.
- HTTP/2 and TLS variants of the request and receive loops.
- Failing locks inside the circuit functions and in mark-idle, and failing allocations: after a failed pool lock mark-idle touches a moved-out socket and ends in the library's abort.
- The pool flush that follows a circuit reset is the pool's own operation.
- 64-bit overflow of the doubled pool capacity.
- TLS session pointers of handles and entries: only plain connections are ever stored.
- 32-bit overflow of tile and pixel indices for grids above 2^31 tiles, and of line coordinates whose extent exceeds a third of the 32-bit range.
- HMAC, base64 and the header text of the OAuth signature: library code and plain concatenation.
- std::sort is represented by an insertion sort; the base-string theorem uses only that the result is a sorted permutation.
- UTF-32 conversions: the same loops without surrogates.
- A null send callback in JSON streaming and a null streaming handler: both return before any byte moves.
- Rendering, menus, movement and the other demo code.
