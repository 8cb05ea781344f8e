# Verification models of the RNG service and of the vertex-rng server

The repository holds a Go service that draws random numbers, scales them without bias and
records every output in a hash-chained audit log, and an older C and C++ server with the
civetweb web server and the cJSON library as source. This project models the parts of both
that carry state, protocols and codecs, and proves what they promise.

| file | what it models |
|---|---|
| `HandOff.dfy` | the hand-off of accepted sockets from the master thread to the workers, as a step relation with one step for every access to shared state |
| `Chunked.dfy` | the writer and the reader of the chunked transfer coding (section 4.1 of RFC 7230) |
| `WebSocket.dfy` | the writer and the reader of WebSocket frames (section 5.2 of RFC 6455) |
| `Glob.dfy` | the backtracking pattern matcher |
| `Url.dfy`, `PathCleaner.dfy` | the URL codec and the path cleaner, both working in place |
| `JsonText.dfy`, `JsonPrint.dfy` | what a JSON tree prints as, and the printer over a growing or fixed buffer |
| `JsonString.dfy`, `JsonLiteral.dfy` | string literals with their two passes, and what each spelling of a character stands for |
| `JsonParse.dfy`, `JsonGrammar.dfy` | the recursive parser over its buffer, and the grammar of exactly the texts it accepts |
| `JsonRoundTrip.dfy` | that parsing undoes printing |
| `JsonMinify.dfy`, `JsonMinifyMeaning.dfy` | the in-place minifier, and that it keeps the meaning of every text the parser accepts |
| `JsonList.dfy` | the doubly linked lists of children on the heap |
| `Scaling.dfy`, `Scale.dfy`, `Shuffle.dfy` | rejection sampling over 64 and 32 bits, and the shuffle |
| `Drbg.dfy` | CTR_DRBG without derivation function (NIST SP 800-90A Rev.1) and the generator on byte buffers |
| `AuditLayout.dfy`, `AuditLog.dfy`, `AuditStore.dfy` | what is signed and hashed, the chain, its verification, the store |
| `Requests.dfy`, `Service.dfy` | what a request does to the generator and which entries it stores, and the handlers over one generator, one chain and one store |
| `Fairness.dfy` | that the list of values of a request shows no bias |
| `Counterexamples.dfy` | runs of the server on which its documentation is not met, or that a caller may not expect |
| `RateLimiter.dfy` | the token buckets |
| `Bytes.dfy`, `Hex.dfy`, `Wrappers.dfy` | byte strings, big-endian integers, exclusive or, hexadecimal, options |

Code that changes things step by step is modelled by classes and methods that do the same
steps on arrays, fields and links, and each is proved against a function on values. What
the code promises is then proved of that function. `dafny verify dfyconfig.toml` checks
everything.

## What is assumed, and how

* AES is a parameter of the generator, a function of key and block that is injective under
  each key. SHA-256 and HMAC are parameters without any assumption: where the argument
  needs that two inputs are not hashed to the same digest, the theorem says "or these two
  records collide" (`AuditLog.Collision`) or "or a record is hashed to the value the chain
  starts from" (`AuditLog.ComesBack`).
* A random generator is the tape of what its next calls return, words or failures; behind
  the end of the tape it fails. Statements about whole runs range over all tapes, so over
  every run that ends.
* Numbers in JSON are opaque doubles with the C library's `sprintf` and `strtod` as
  parameters. The printed text of a number is 1 to 25 printing characters without quote or
  slash, and `strtod` reads no more than it is given. The round trip is stated for trees
  whose numbers the library reads back or prints as null (`JsonRoundTrip.NumbersPrint`).
* Sockets are sequences of pieces that are still to arrive; clocks, request identifiers,
  entropy and the bytes after a reseed are parameters of the request.
* Go strings are byte sequences, `int64` and `uint64` are bounded integers, and every
  conversion, wrap-around and truncation of the source is written out.

## Where the code differs from its documentation

* `docs/bmm-submission-package/06-audit-trail.md` says that any change of a stored record
  is detectable. Game, request, bounds, count and reseed mark are neither signed nor
  hashed; `AuditLog.AgreeingIsAccepted` proves that they can be changed freely,
  `AuditLog.TamperEvident` that nothing else can, and `Counterexamples.GameChanged` changes
  the entry of a run.
* Length prefixes keep unambiguous what is hashed only below 2^32 bytes:
  `AuditLayout.SignedDeterminesBelow` and `AuditLayout.HashedDeterminesBelow` give the exact
  bound, with the contents that break it.
* `VerifyChain` is documented to verify a tenant's chain. With entries of another tenant
  before or between, it fails although nothing was changed: `AuditStore.TenantVerifies`, and
  a run of two tenants in `Counterexamples.TwoTenants`.
* `LoadChain` takes any text of 64 bytes. If it is not hexadecimal, no entry can be sealed
  afterwards: `AuditLog.Resume`, with a text in `AuditLog.NotHexadecimal`.
* The audit documentation puts a prefix in front of a stored signature; the code stores
  plain hexadecimal digits (`AuditLog.Verify`).
* It returns only the authenticated tenant's entries of a round; the code returns those of
  all tenants. That is the same exactly if no request of another tenant for the round has
  stored anything: `Service.Server.ServeThenAudit`, and a run in `Counterexamples.TwoTenants`.
* The repository's `README.md:18` and `README.md:120` promise a reseed for every interval of
  outputs. The policy compares the count of output bytes, which `Reseed` does not reset
  (`Drbg.DRBG.Reseed`), with the interval. So before the count wraps at 2^64, a request for
  which no time is due and there is entropy reseeds exactly if the count had reached the
  interval at any question so far (`Requests.ReseedsExactly`); once it has, every request
  does (`Requests.ReachedForGood`). `Requests.DecidedAsDocumented` and
  `Requests.AsDocumentedExactly` say on which questions of a run this is what is documented,
  counting bytes, and `Counterexamples.ReseedsAgain` is a run in which it is not.
* The generator's comments cite section 10.2.1.5.2; the code is the algorithm of section
  10.2.1.5.1, without derivation function. `Generate(0)` returns without an update.
* `scale` returns results in a signed word with negative error codes. This is unambiguous
  for ranges up to 2^31 exactly: `Scale.NegativeIsError`.
* cJSON's documentation asks for five spare bytes in a preallocated buffer; two are enough
  and needed: `JsonPrint.PrintPreallocated`.

## What a caller may not expect

* A batch that fails at one item answers with an error, but the items before it stay
  stored: `Requests.StoredUpToFirstFailing`. It is all or nothing exactly in the cases of
  `Requests.AllOrNothing`; `Counterexamples.RefusedButStored` is a run in which it is not.
* A chunk-size line may hold carriage returns between its digits; only the digits in front
  of the first one count: `Chunked.LineExactly`, `Chunked.SizeRead`.
* The minifier takes a slash, a star and a slash for a whole comment:
  `JsonMinify.PartsMinified`.
* Four characters behind `\u` that are not all digits are read as NUL, not refused, if the
  literal goes on behind them: `JsonLiteral.LiteralIsEscape`.
* For a chunk of 2^32-1 bytes `mg_send_chunk` sends two line ends and no data, and returns
  11: `Chunked.Output.SendChunk`.

## Model

| member | source | states |
|---|---|---|
| HandOff.InitInv | sourcecode/vertex-rng-1.0.1/civetweb.c:16743-16790 | before any thread has run, the invariant of the hand-off holds |
| HandOff.StepInv | sourcecode/vertex-rng-1.0.1/civetweb.c:15861-15920 | every step of the master, of any worker and of `mg_stop` keeps it: slot, event, mutex and stop flag fit what each thread is doing, and every accepted socket is in exactly one place |
| HandOff.RunInv | sourcecode/vertex-rng-1.0.1/civetweb.c:16308-16345 | it holds in every state of every interleaving |
| HandOff.ExactlyOnce | sourcecode/vertex-rng-1.0.1/civetweb.c:15861-15920 | in every run no socket is delivered or closed more than once in all, none is closed before the stop flag is set, at the end every accepted one has been delivered or closed, and no worker reaches the point it must not reach |
| HandOff.NotAfterStop | sourcecode/vertex-rng-1.0.1/civetweb.c:15861-15888 | in every run, once the stop flag is set, a socket that the master carries and is not about to put into a slot is never delivered, and is closed in the end |
| HandOff.WorkersStay | sourcecode/vertex-rng-1.0.1/civetweb.c:15891-15920 | in every run, without a stop no worker that has begun to take sockets leaves |
| HandOff.HandsOver | sourcecode/vertex-rng-1.0.1/civetweb.c:15861-15888 | left alone, with the mutex free and no stop, the master puts its socket into the slot of the first free worker, signals that worker and goes on accepting |
| HandOff.KeepsLooking | sourcecode/vertex-rng-1.0.1/civetweb.c:15861-15888 | as long as no worker is free it keeps the socket and looks again |
| HandOff.TakesOver | sourcecode/vertex-rng-1.0.1/civetweb.c:15891-15920 | left alone, a worker with a socket in its slot and its event pending is given exactly this socket |
| HandOff.FreeAgain | sourcecode/vertex-rng-1.0.1/civetweb.c:15891-15920 | and when it is through with it, its slot is free again |
| HandOff.NoOverwrite | sourcecode/vertex-rng-1.0.1/civetweb.c:15871-15878 | a slot that holds a socket its worker has not copied is written by no step of any thread |
| HandOff.NeverStuck | sourcecode/vertex-rng-1.0.1/civetweb.c:16336-16375 | until the master is done, some thread can always take a step |
| HandOff.NoLostWakeUp | sourcecode/vertex-rng-1.0.1/civetweb.c:15871-15879 | a worker waits with a socket in its slot only while its event is pending or the master is about to signal it, and one that was told to stop has an event pending |
| HandOff.StepLowers | sourcecode/vertex-rng-1.0.1/civetweb.c:16490-16512 | once stopped, every step of any thread leaves fewer steps to take |
| HandOff.ShutdownIsFinite | sourcecode/vertex-rng-1.0.1/civetweb.c:16490-16512 | a run has at most a fixed number of steps after `mg_stop` |
| HandOff.ShutdownEnds | sourcecode/vertex-rng-1.0.1/civetweb.c:16336-16375 | a stopped run that cannot go on has ended as `mg_stop` waits for: the master done, all workers gone, every socket delivered or closed exactly once |
| Chunked.Output.Write | sourcecode/vertex-rng-1.0.1/civetweb.c:4699-4733 | sends on, a part at a time, until all is sent or the connection breaks, and says how much was |
| Chunked.Output.SendChunk | sourcecode/vertex-rng-1.0.1/civetweb.c:5251-5286 | a chunk is sent as hexadecimal length, line end, data, line end, or the part of that which the connection takes, and then the call fails; above the largest int only the length line goes out, and at 2^32-1 bytes the line end, too |
| Chunked.Connection.PullInner | sourcecode/vertex-rng-1.0.1/civetweb.c:4744-4916 | takes the beginning of what has arrived, as much as asked for or there is |
| Chunked.Connection.PullAll | sourcecode/vertex-rng-1.0.1/civetweb.c:4919-4960 | takes as many bytes as asked for, over any split into arrivals, or all there are |
| Chunked.Connection.ReadInner | sourcecode/vertex-rng-1.0.1/civetweb.c:5003-5068 | reads first from what arrived with the head and then from the socket, never beyond the content length, known, unknown or that of the chunks so far |
| Chunked.Connection.GetC | sourcecode/vertex-rng-1.0.1/civetweb.c:5071-5082 | one byte of the stream, or NUL at its end |
| Chunked.Connection.FetchChunk | sourcecode/vertex-rng-1.0.1/civetweb.c:5138-5175 | accepts exactly the chunk-size lines of the specification and sets what is left of the chunk |
| Chunked.LineExactly | sourcecode/vertex-rng-1.0.1/civetweb.c:5138-5165 | a chunk-size line is accepted exactly if it has 3 to 63 bytes, begins with a digit, holds only digits and single carriage returns, and ends in a line end |
| Chunked.SizeRead | sourcecode/vertex-rng-1.0.1/civetweb.c:5148-5156 | it stands for the hexadecimal number of its leading digits, in either case, at most 2^64-1 |
| Chunked.Connection.ExpectLineEnd | sourcecode/vertex-rng-1.0.1/civetweb.c:5124-5135 | accepts exactly a line end behind the data of a chunk |
| Chunked.Connection.Read | sourcecode/vertex-rng-1.0.1/civetweb.c:5085-5182 | on any bytes, framed well or not, in any arrivals, a read of a chunked body returns what the specification on the whole stream returns; a read of any other body the next bytes its length allows; also after a failed read no more is consumed than the content length |
| Chunked.ReadDelivers | sourcecode/vertex-rng-1.0.1/civetweb.c:5085-5182 | in front of or inside a framed body, a read of any size gives exactly the next bytes of the payload |
| Chunked.ReadsDeliver | sourcecode/vertex-rng-1.0.1/civetweb.c:5085-5182 | for any sequence of read sizes, each read gives the payload from where the last one stopped, and after its end nothing for ever |
| Chunked.PlainReadsDeliver | sourcecode/vertex-rng-1.0.1/civetweb.c:5003-5068 | the reads of a body that is not chunked give as much of the stream as its length allows, in order and once, and then nothing |
| Chunked.WrittenIsFramed | sourcecode/vertex-rng-1.0.1/civetweb.c:5251-5286 | what the writer sends for non-empty chunks and then an empty one is such a framed body |
| WebSocket.MaskData | sourcecode/vertex-rng-1.0.1/civetweb.c:10961-10984 | word-wise or byte by byte, every byte is combined with the key byte of its position |
| WebSocket.MaskedTwice | sourcecode/vertex-rng-1.0.1/civetweb.c:10961-10984 | masking twice with a key gives the data back |
| WebSocket.WriteExec | sourcecode/vertex-rng-1.0.1/civetweb.c:10870-10949 | sends a header and then the data, or the part of that which the connection takes, and the value returned tells which; the header has the final-fragment flag, no reserved flag, the opcode, the length in the shortest of three forms, and the mask flag and the key exactly for a key that is not zero |
| WebSocket.WireLayout | sourcecode/vertex-rng-1.0.1/civetweb.c:10870-10949 | byte by byte what stands on the wire: that header, then each payload byte, combined with the key byte of its position unless the key is zero |
| WebSocket.Write | sourcecode/vertex-rng-1.0.1/civetweb.c:10951-10958 | a server sends its frames unmasked, and none above the largest int |
| WebSocket.ClientWrite | sourcecode/vertex-rng-1.0.1/civetweb.c:10987-11019 | a client sends its frames masked with its key, and none above the largest int |
| WebSocket.Input.TakeFrame | sourcecode/vertex-rng-1.0.1/civetweb.c:10660-10750 | takes one frame out of queue and socket, unmasked, and leaves the rest of the stream as it was, or finds that the stream ends inside it |
| WebSocket.Input.PullMore | sourcecode/vertex-rng-1.0.1/civetweb.c:10807-10826 | appends what arrives to the queue without changing the stream; with a full queue only timeouts are survived |
| WebSocket.Input.ReadWebsocket | sourcecode/vertex-rng-1.0.1/civetweb.c:10624-10859 | for any stream in any arrivals and any room in the buffer, the handler is given exactly the frames of the stream up to the stop or to a header that does not fit, whatever was in the queue first |
| WebSocket.FullQueue | sourcecode/vertex-rng-1.0.1/civetweb.c:10624-10655 | a header that is not complete in a full queue never fits it |
| WebSocket.HeaderStays | sourcecode/vertex-rng-1.0.1/civetweb.c:10624-10655 | bytes that arrive later do not change how a header is read |
| WebSocket.FrameRead | sourcecode/vertex-rng-1.0.1/civetweb.c:10624-10750 | every frame of section 5.2 of RFC 6455, with any first byte, any of the three length forms and any key, up to 2^31-2^16 bytes, is read as its first byte and payload, whatever follows |
| WebSocket.ReadIsFrame | sourcecode/vertex-rng-1.0.1/civetweb.c:10624-10750 | and what the reader takes for a frame is one |
| WebSocket.WireRead | sourcecode/vertex-rng-1.0.1/civetweb.c:10624-10750 | the reader finds in a written frame the final-fragment flag, the opcode, the length and the payload, and behind it the next frame |
| WebSocket.WireDelivered | sourcecode/vertex-rng-1.0.1/civetweb.c:10870-10949 | the frames of any messages, masked or not, are delivered as these messages in order, each whole with its opcode and payload, up to the close message, the handler's stop or, exactly, the first header for which there is no room |
| WebSocket.ReceiveAll | sourcecode/vertex-rng-1.0.1/civetweb.c:10624-10859 | the same through the reader, for any split into queue and arrivals |
| Glob.MatchPrefix | sourcecode/vertex-rng-1.0.1/civetweb.c:3521-3562 | returns the match of the specification: the first alternative that matches a character, else the rest; -1 for none |
| Glob.MatchStar | sourcecode/vertex-rng-1.0.1/civetweb.c:3540-3556 | a star tries the longest run first, over slashes only if it is double |
| Glob.GreedySound | sourcecode/vertex-rng-1.0.1/civetweb.c:3521-3562 | a result is a match of the declarative meaning of the pattern |
| Glob.GreedyComplete | sourcecode/vertex-rng-1.0.1/civetweb.c:3521-3562 | if any beginning of the text matches, a match is found |
| Glob.FoundExactly | sourcecode/vertex-rng-1.0.1/civetweb.c:3521-3562 | without alternatives, a result k means that the first k characters match, and -1 that no beginning does |
| Glob.GreedyZero | sourcecode/vertex-rng-1.0.1/civetweb.c:3521-3562 | if an empty match is found, there is no other one |
| Glob.FoundMeans | sourcecode/vertex-rng-1.0.1/civetweb.c:3528-3535 | with alternatives, a positive result is a match of the first one that can match any characters; else none can, and the last one decides between 0 and -1 |
| Url.UrlEncode | sourcecode/vertex-rng-1.0.1/civetweb.c:7393-7417 | writes the encoded string and returns its length as an int; -1 if it does not fit with its terminator, and exactly then for buffers up to the largest int |
| Url.EncodedEach | sourcecode/vertex-rng-1.0.1/civetweb.c:7393-7417 | wherever a byte stands in a string, it is encoded as itself if it is a letter, a digit or one of nine safe characters, and else as a percent sign and two small digits |
| Url.UrlDecode | sourcecode/vertex-rng-1.0.1/civetweb.c:5426-5454 | writes what the source decodes to, also into the source's own buffer, or -1 exactly if it does not fit |
| Url.DecodeParts | sourcecode/vertex-rng-1.0.1/civetweb.c:5426-5454 | any text of plain characters, escapes with digits in either case and, in a form, plus signs is decoded part by part |
| Url.LonePercent | sourcecode/vertex-rng-1.0.1/civetweb.c:5426-5454 | a percent sign that is not followed by two digits stands for itself |
| Url.DecodeEncode | sourcecode/vertex-rng-1.0.1/civetweb.c:7393-7417 | decoding the encoded text of any C string gives it back, in either mode |
| Url.EncodeDecodeInPlace | sourcecode/vertex-rng-1.0.1/civetweb.c:5426-5454 | with 3n+1 bytes encoding never fails, and decoding it in place leaves the string |
| PathCleaner.RemoveDoubleDotsAndDoubleSlashes | sourcecode/vertex-rng-1.0.1/civetweb.c:6196-6223 | cleans in place; the write position never passes the read position |
| PathCleaner.CleanedIsClean | sourcecode/vertex-rng-1.0.1/civetweb.c:6196-6223 | a cleaned path has no two separators in a row and no pair of dots at the start or behind a separator |
| PathCleaner.Rewriting | sourcecode/vertex-rng-1.0.1/civetweb.c:6196-6223 | anywhere in a path, a separator or two dots behind a separator, and at its start the first of two dots, may be dropped without changing what it is cleaned to; with the next row that determines the cleaned path |
| PathCleaner.UnchangedExactlyWhenClean | sourcecode/vertex-rng-1.0.1/civetweb.c:6196-6223 | the paths left as they are, are exactly the clean ones |
| PathCleaner.Idempotent | sourcecode/vertex-rng-1.0.1/civetweb.c:6196-6223 | cleaning twice is cleaning once |
| PathCleaner.NamesKept | sourcecode/vertex-rng-1.0.1/civetweb.c:6196-6223 | nothing but dots and separators is lost |
| PathCleaner.DecodeAndClean | sourcecode/vertex-rng-1.0.1/civetweb.c:12135-12143 | whatever is escaped in a request URI, the path after decoding and cleaning in its buffer is clean |
| JsonString.ParseHex4 | sourcecode/vertex-rng-1.0.1/cJSON.c:540-575 | the value of four digits, zero if one is not a digit |
| JsonString.Utf16LiteralToUtf8 | sourcecode/vertex-rng-1.0.1/cJSON.c:578-696 | writes the UTF-8 form of one escape or surrogate pair, or nothing for a malformed one |
| JsonString.UnicodeEscapeRoundTrip | sourcecode/vertex-rng-1.0.1/cJSON.c:578-696 | every code point that is not a surrogate, escaped as one or two units, is read back |
| JsonString.Utf8RoundTrip | sourcecode/vertex-rng-1.0.1/cJSON.c:641-690 | the written bytes are the UTF-8 encoding of the code point, of the right length |
| JsonString.LiteralFits | sourcecode/vertex-rng-1.0.1/cJSON.c:699-811 | on every literal, also when the passes disagree where escapes start and when one is malformed, all that the decoding pass writes, at the end or on the way, fits what the sizing pass reserved |
| JsonLiteral.OneByteEscapes | sourcecode/vertex-rng-1.0.1/cJSON.c:755-786 | a backslash and one of eight letters are read as quote, backslash, slash, backspace, form feed, line feed, carriage return or tab, and with any other byte but u are refused |
| JsonLiteral.LiteralIsEscape | sourcecode/vertex-rng-1.0.1/cJSON.c:578-696 | what is read behind a backslash and u is the escape of a scalar value, or its surrogate pair, in digits of either case, or, without four digits, NUL |
| JsonLiteral.EscapeIsLiteral | sourcecode/vertex-rng-1.0.1/cJSON.c:578-696 | every scalar value is read from its escape |
| JsonLiteral.LiteralRead | sourcecode/vertex-rng-1.0.1/cJSON.c:699-811 | every string literal of the standard, whichever way its characters are spelled, is read as what they mean, and the reader stops behind it |
| JsonLiteral.ReadIsSpelled | sourcecode/vertex-rng-1.0.1/cJSON.c:699-811 | and every literal that is read is a list of such spellings, and stands for what they mean |
| JsonLiteral.PrintedIsShortest | sourcecode/vertex-rng-1.0.1/cJSON.c:827-947 | no literal of the standard for a string is shorter than the printed one |
| JsonLiteral.PrintedIsPrintable | sourcecode/vertex-rng-1.0.1/cJSON.c:827-947 | which holds no control character |
| JsonParse.ParseBuffer.SizingPass | sourcecode/vertex-rng-1.0.1/cJSON.c:712-743 | finds the closing quote and the size of the allocation |
| JsonParse.ParseBuffer.DecodingPass | sourcecode/vertex-rng-1.0.1/cJSON.c:745-798 | decodes the literal within the allocation, as a list of spellings that mean what is written, or fails exactly on a malformed escape |
| JsonParse.ParseBuffer.ParseString | sourcecode/vertex-rng-1.0.1/cJSON.c:699-824 | the string that stands at the offset, and the offset behind it |
| JsonParse.ParseBuffer.ParseNumber | sourcecode/vertex-rng-1.0.1/cJSON.c:267-341 | the number that `strtod` reads from at most 63 number characters |
| JsonParse.ParseBuffer.SkipWhitespace | sourcecode/vertex-rng-1.0.1/cJSON.c:963-982 | moves to the next byte above 32, and back from the end |
| JsonParse.ParseBuffer.ParseValue | sourcecode/vertex-rng-1.0.1/cJSON.c:1213-1265 | the value the grammar finds at the offset, with the offset behind it and the depth restored, or none; terminates |
| JsonParse.ParseBuffer.ParseArray | sourcecode/vertex-rng-1.0.1/cJSON.c:1342-1433 | an array, refused at the nesting limit |
| JsonParse.ParseBuffer.ParseObject | sourcecode/vertex-rng-1.0.1/cJSON.c:1498-1604 | an object, refused at the nesting limit |
| JsonParse.ParseWithOpts | sourcecode/vertex-rng-1.0.1/cJSON.c:1001-1078 | the whole document, with byte order mark and, if asked for, nothing behind it; and where the parsed text ends |
| JsonParse.UpToNulMeans | sourcecode/vertex-rng-1.0.1/cJSON.c:800-811 | a decoded literal is kept up to its first NUL |
| JsonGrammar.SourceRead | sourcecode/vertex-rng-1.0.1/cJSON.c:1213-1265 | every text of the grammar of RFC 8259, with white space being any byte up to 32 and numbers those of up to 63 bytes that the library reads, is read at any depth as its tree, to its end, exactly if it nests no deeper than the limit allows |
| JsonGrammar.ValueIsSource | sourcecode/vertex-rng-1.0.1/cJSON.c:1213-1265 | and whatever is read as a value, and is not the beginning of a longer number, is a text of the grammar and stands for the tree that is read |
| JsonGrammar.DocumentRead | sourcecode/vertex-rng-1.0.1/cJSON.c:1001-1078 | a value with or without a byte order mark, with white space in front of it and anything behind it, is read as its tree exactly if it nests at most 1000 deep; a strict reader wants nothing but white space behind it |
| JsonGrammar.DocumentIsSource | sourcecode/vertex-rng-1.0.1/cJSON.c:1001-1078 | and a strict reader accepts nothing else |
| JsonRoundTrip.TextParses | sourcecode/vertex-rng-1.0.1/cJSON.c:1213-1339 | at every depth, the printed text of any tree parses to the tree with null for each NaN and infinity and stops behind it, exactly if tree and depth stay within the limit |
| JsonRoundTrip.NulledAlike | sourcecode/vertex-rng-1.0.1/cJSON.c:475-538 | a tree prints like the tree with null for each NaN and infinity, and is that tree exactly if it has none |
| JsonRoundTrip.PrintParse | sourcecode/vertex-rng-1.0.1/cJSON.c:1213-1718 | the printed document of any tree, formatted or not, parses to the tree with null for each NaN and infinity exactly if it nests at most 1000 deep, and fails otherwise |
| JsonPrint.PrintBuffer.Ensure | sourcecode/vertex-rng-1.0.1/cJSON.c:373-459 | makes room exactly if the limit allows it, and keeps what was printed, in both ways of reallocating |
| JsonPrint.PrintBuffer.UpdateOffset | sourcecode/vertex-rng-1.0.1/cJSON.c:461-472 | moves the offset behind the text that was just printed |
| JsonPrint.EscapedLength | sourcecode/vertex-rng-1.0.1/cJSON.c:854-880 | the escapes counted in the first pass and the input are exactly as long as what the second pass writes |
| JsonPrint.PrintBuffer.PrintString | sourcecode/vertex-rng-1.0.1/cJSON.c:827-947 | prints a string within the room its counting pass asked for, which is exactly what it needs |
| JsonPrint.PrintBuffer.PrintValue | sourcecode/vertex-rng-1.0.1/cJSON.c:1268-1339 | appends exactly the text of the tree, and succeeds exactly if the text and two bytes fit the capacity |
| JsonPrint.PrintBuffer.PrintArray | sourcecode/vertex-rng-1.0.1/cJSON.c:1436-1495 | the same for arrays |
| JsonPrint.PrintBuffer.PrintObject | sourcecode/vertex-rng-1.0.1/cJSON.c:1607-1718 | the same for objects |
| JsonText.ArrayLayout | sourcecode/vertex-rng-1.0.1/cJSON.c:1436-1495 | an array stands in brackets, its elements are separated by a comma, and in formatted text by a comma and a space |
| JsonText.ObjectLayout | sourcecode/vertex-rng-1.0.1/cJSON.c:1607-1718 | an object stands in braces, its members are separated by a comma, and in formatted text each stands on its own line, behind one tab for each level, with a tab behind the colon |
| JsonText.WordLayout | sourcecode/vertex-rng-1.0.1/cJSON.c:1268-1339 | the three words, numbers as the library prints them, and strings in quotes |
| JsonPrint.Print | sourcecode/vertex-rng-1.0.1/cJSON.c:1088-1151 | an array of just the text and its terminator |
| JsonPrint.PrintBuffered | sourcecode/vertex-rng-1.0.1/cJSON.c:1163-1191 | the text whatever the initial size of the buffer |
| JsonPrint.PrintPreallocated | sourcecode/vertex-rng-1.0.1/cJSON.c:1193-1210 | the text in the caller's buffer exactly if two bytes more than the text fit |
| JsonMinify.Minify | sourcecode/vertex-rng-1.0.1/cJSON.c:2630-2698 | removes white space and comments outside strings, in place; runs past the terminator exactly if a string or a block comment is not ended |
| JsonMinify.PartsMinified | sourcecode/vertex-rng-1.0.1/cJSON.c:2630-2698 | a text of blanks, line comments, block comments, literals and other bytes is minified to the literals and the other bytes, unchanged and in order |
| JsonMinify.MinifiedIsParts | sourcecode/vertex-rng-1.0.1/cJSON.c:2630-2698 | and every text that is minified consists of such parts |
| JsonMinify.MinifyPrinted | sourcecode/vertex-rng-1.0.1/cJSON.c:2630-2698 | minifying the print of any tree gives byte for byte its unformatted print |
| JsonMinifyMeaning.MinifyKeepsMeaning | sourcecode/vertex-rng-1.0.1/cJSON.c:2630-2698 | any text that parses strictly is minified without running past its end, and what is left parses strictly to the same tree |
| JsonMinifyMeaning.Values | sourcecode/vertex-rng-1.0.1/cJSON.c:1213-1265 | whatever the parser reads as a value, it reads again in what the minifier leaves |
| JsonList.LinksDetermineChildren | sourcecode/vertex-rng-1.0.1/cJSON.c:1744-1761 | the links stand for one list of children only |
| JsonList.GetArrayItem | sourcecode/vertex-rng-1.0.1/cJSON.c:1744-1761 | the child at a position, or none |
| JsonList.AddItemToArray | sourcecode/vertex-rng-1.0.1/cJSON.c:1817-1872 | appends the item to the children and keeps the links well formed |
| JsonList.DetachItemViaPointer | sourcecode/vertex-rng-1.0.1/cJSON.c:2072-2100 | removes exactly this child and unlinks it |
| JsonList.DetachItemFromArray | sourcecode/vertex-rng-1.0.1/cJSON.c:2102-2110 | removes the child at a position, if there is one |
| JsonList.InsertItemInArray | sourcecode/vertex-rng-1.0.1/cJSON.c:2142-2169 | inserts before a position or at the end |
| JsonList.ReplaceItemViaPointer | sourcecode/vertex-rng-1.0.1/cJSON.c:2171-2204 | puts the replacement exactly where the item was and unlinks the item |
| JsonList.ReplaceItemInArray | sourcecode/vertex-rng-1.0.1/cJSON.c:2206-2214 | replaces the child at a position, if there is one, and unlinks it |
| JsonList.AppendBesideSubtree | sourcecode/vertex-rng-1.0.1/cJSON.c:1817-1872 | only the links of the list and the new item change, so the children of every other item stay |
| JsonList.DetachThenInsert | sourcecode/vertex-rng-1.0.1/cJSON.c:2072-2169 | detaching a child and inserting it at its position restores the list |
| Scaling.RandRange | internal/scaling/range.go:24-46 | rejects up to the first accepted word, fails with the generator and for an empty range, and draws nothing for a range of one |
| Scaling.FirstAccepted | internal/scaling/range.go:24-46 | the result is the first word on the tape that is not below 2^64 mod max, modulo max; all words before it are below |
| Scaling.RandRangeInclusive | internal/scaling/range.go:49-58 | a value between the bounds; none if they are crossed or span all 2^64 values |
| Scaling.ThresholdIsRest | internal/scaling/range.go:32-34 | the wrapped expression for the threshold is 2^64 mod max |
| Scaling.EqualWords | internal/scaling/range.go:24-46 | each result comes from exactly floor(2^64/max) accepted words |
| Scaling.MoreThanHalfAccepted | internal/scaling/range.go:20-23 | exactly 2^64 - 2^64 mod max words are accepted, more than half of all |
| Scaling.EqualRuns | internal/scaling/range.go:24-46 | over whole runs with rejections and failures, a map of the tapes that undoes itself exchanges the runs for any two results |
| Scale.RejectedExactly | sourcecode/vertex-rng-1.0.1/main.cpp:56-66 | a word is answered with the rejection code exactly if it lies above the last full block, also when the bound wraps to zero |
| Scale.EqualScaled | sourcecode/vertex-rng-1.0.1/main.cpp:56-66 | for every range each result is given by exactly floor(2^32/range) words and 2^32 mod range words are rejected |
| Scale.ResultsFit | sourcecode/vertex-rng-1.0.1/main.cpp:56-66 | all results are returned as themselves exactly for ranges up to 2^31 |
| Scale.NegativeIsError | sourcecode/vertex-rng-1.0.1/main.cpp:56-66 | a negative value always means an error exactly for ranges up to 2^31 |
| Scale.LooksLikeBadParameter | sourcecode/vertex-rng-1.0.1/main.cpp:56-66 | a result is taken for the other error code only for the range 2^32-1 and the word 2^32-2 |
| Shuffle.Shuffle | internal/scaling/range.go:75-84 | swaps in place what the drawn indices say, and stops where the generator fails |
| Shuffle.ShuffledByIndices | internal/scaling/range.go:75-84 | deck, error and generator afterwards are those of the vector of indices that was drawn |
| Shuffle.RearrangedIsDrawn | internal/scaling/range.go:75-84 | the swaps draw cards from a pool, one for each index, the last card filling the gap, and put the first one drawn at the end |
| Shuffle.Multiset | internal/scaling/range.go:75-84 | every deck keeps its cards |
| Shuffle.OneVectorForEachOrder | internal/scaling/range.go:70-84 | each order of distinct cards comes from exactly one vector of indices |
| Shuffle.NoBias | internal/scaling/range.go:70-84 | over whole runs, any two orders come from equally many tapes of any length: a map that undoes itself exchanges them |
| Drbg.Increment | internal/csprng/aes_ctr_drbg.go:155-165 | two 64-bit words with a carry count as one number, plus one modulo 2^128 |
| Drbg.New | internal/csprng/aes_ctr_drbg.go:35-47 | the instantiation of section 10.2.1.3.1, or an error for less than 48 bytes |
| Drbg.DRBG.UpdateLocked | internal/csprng/aes_ctr_drbg.go:131-153 | the update of section 10.2.1.2: byte i of new key and counter is byte i of the three encrypted counter blocks behind the old counter, combined with byte i of what is provided |
| Drbg.UpdateBytes | internal/csprng/aes_ctr_drbg.go:131-153 | the same of the specification |
| Drbg.UpdateInjective | internal/csprng/aes_ctr_drbg.go:131-153 | from one state, two seeds lead to the same state exactly if they are equal |
| Drbg.InstantiateBytes | internal/csprng/aes_ctr_drbg.go:35-47 | an instance is seeded from the zero key and counter, and two instances are alike exactly if their entropy is |
| Drbg.OutputBytes | internal/csprng/aes_ctr_drbg.go:68-77 | byte by byte, an output is the encrypted counter blocks behind the counter |
| Drbg.NextBytes | internal/csprng/aes_ctr_drbg.go:79-83 | and the state behind it the encrypted counter blocks that follow those of the output |
| Drbg.DRBG.Generate | internal/csprng/aes_ctr_drbg.go:54-86 | bytes and next state of section 10.2.1.5.1; nothing changes for no bytes; the byte count wraps |
| Drbg.DRBG.Reseed | internal/csprng/aes_ctr_drbg.go:95-105 | the reseed of section 10.2.1.4.1, or an error without a change |
| Drbg.Run | internal/csprng/aes_ctr_drbg.go:35-105 | every run of calls gives the standard's answers, state and encryptions |
| Drbg.CountersDistinct | internal/csprng/aes_ctr_drbg.go:155-165 | a counter does not come back within 2^128 steps |
| Drbg.CallEncryptsDistinct | internal/csprng/aes_ctr_drbg.go:54-86 | all counters encrypted between two changes of the key are different |
| Drbg.OutputBlocksDistinct | internal/csprng/aes_ctr_drbg.go:68-77 | no block of 16 bytes occurs twice in one output |
| Drbg.ShorterIsPrefix | internal/csprng/aes_ctr_drbg.go:68-77 | a shorter output from the same state is the beginning of a longer one |
| AuditLayout.WriteSignData | internal/audit/log.go:64-89 | the signed bytes in the documented layout |
| AuditLayout.WriteHashData | internal/audit/log.go:124-156 | the hashed bytes in the documented layout |
| AuditLayout.SignDataLayout | internal/audit/log.go:64-89 | where each part of the signed bytes stands: tenant and round behind their lengths modulo 2^32, the time, the values behind their count, all numbers most significant byte first |
| AuditLayout.HashDataLayout | internal/audit/log.go:124-156 | where each part of the hashed bytes stands: the previous hash, the time, tenant and round, the values, the signature |
| AuditLayout.SignDataUnique | internal/audit/log.go:60-89 | below 2^32, signed bytes determine tenant, round, time and values |
| AuditLayout.HashDataUnique | internal/audit/log.go:124-156 | below 2^32, hashed bytes determine previous hash, tenant, round, time, values and signature |
| AuditLayout.SignedDeterminesBelow | internal/audit/log.go:272-278 | signed bytes are unambiguous exactly as long as no part reaches 2^32 |
| AuditLayout.HashedDeterminesBelow | internal/audit/log.go:272-278 | and so are hashed bytes |
| AuditLog.Entry.Sign | internal/audit/log.go:93-97 | a signed entry passes verification under the key |
| AuditLog.Verify | internal/audit/log.go:100-111 | accepts exactly the hexadecimal text, in either case, of the code over the signed bytes |
| AuditLog.ComputeHash | internal/audit/log.go:124-156 | the hash, or an error exactly if previous hash or signature is not hexadecimal |
| AuditLog.Chain.Seal | internal/audit/log.go:182-198 | links a signed entry to the tip and makes its hash the tip; on an error the tip stays |
| AuditLog.LoadChain | internal/audit/log.go:172-177 | resumes from any text of 64 bytes and no other |
| AuditLog.SealAll | internal/audit/log.go:182-198 | of signed entries sealed one after the other all succeed if the tip is hexadecimal, otherwise none, and the tip stays |
| AuditLog.Resume | internal/audit/log.go:172-198 | the same after a restart from any text of 64 bytes |
| AuditLog.NotHexadecimal | internal/audit/log.go:172-177 | a text that is accepted and with which nothing can be sealed |
| AuditLog.VerifyEntries | internal/audit/log.go:210-229 | -1 exactly for an intact list, else the least index that is not intact |
| AuditLog.TamperEvident | internal/audit/log.go:210-229 | lists accepted from the same first hash with the same last hash agree in all that is protected, or two given records collide; with different lengths they collide or hash a record to the first hash |
| AuditLog.AgreeingIsAccepted | internal/audit/log.go:113-156 | nothing else is protected: a list that agrees with an accepted one is accepted |
| AuditLog.HashesDistinct | internal/audit/log.go:210-229 | no hash occurs twice in an accepted list, collisions and a return to the start apart |
| AuditStore.InMemoryStore.Append | internal/audit/store.go:38-46 | a sealed entry is added at the end, an unsealed one is refused |
| AuditStore.InMemoryStore.LatestHash | internal/audit/store.go:48-55 | the last entry's hash, or the zero hash |
| AuditStore.InMemoryStore.GetByRound | internal/audit/store.go:57-67 | the round's entries in the order of the store |
| AuditStore.InMemoryStore.VerifyChain | internal/audit/store.go:69-89 | whether the tenant's entries verify from the zero hash |
| AuditStore.SecondTenantFails | internal/audit/store.go:69-89 | with one entry of another tenant before its own, a tenant's chain does not verify, unless that entry is hashed to zeros |
| AuditStore.RoundVerifies | internal/gateway/rest.go:373-381 | a round's entries verify exactly if they stand in the chain without a gap |
| AuditStore.TenantVerifies | internal/audit/store.go:69-89 | a tenant's entries verify exactly if they are the beginning of the whole chain |
| Requests.SpanCounts | internal/gateway/rest.go:401-402 | despite the wrap-around the span is the number of values, and zero only for all 2^64 |
| Requests.SampledInBounds | internal/gateway/rest.go:401-409 | for all int64 bounds the values lie between them; over the full span none is returned |
| Requests.ValuesFrom | internal/gateway/rest.go:396-409 | the values of a request are its least value plus numbers drawn for the count of values between its bounds, from what entropy gave if count or time is due, and else from where the generator was left; what then is left of it |
| Requests.CardsFrom | internal/gateway/rest.go:229-247 | the same for the order of the cards |
| Requests.ItemTold | internal/gateway/rest.go:418-433 | an item is stored exactly if there are values, an identifier and a key of the tenant or of any tenant; what is stored has tenant, game, round, identifier, values, count, bounds and time of the request, and no reseed mark |
| Requests.StoredTells | internal/gateway/rest.go:164-292 | whatever a request of any kind stores is an entry of this request in all its fields |
| Requests.StoredUpToFirstFailing | internal/gateway/rest.go:188-200 | exactly the items before the first that is invalid or fails are stored, each with its own content, and that one decides the status |
| Requests.AllOrNothing | internal/gateway/rest.go:164-201 | a batch is all or nothing exactly if it is refused up front, its first item fails or none does |
| Requests.TwoItemBatch | internal/gateway/rest.go:188-200 | a batch of two items that is refused and leaves one entry |
| Requests.ReseedsExactly | internal/gateway/rest.go:454-478 | in any run, where no time is due and there is entropy, a request reseeds exactly if the count of bytes has reached the interval; before the count wraps, exactly if it had at any question so far, whatever was reseeded since |
| Requests.ReseedSchedule | internal/gateway/rest.go:454-478 | in any run, with any clocks and entropy failures, a question is answered by a reseed exactly if there is entropy and the count has reached its interval or, both times the clock is read, the seconds since the last reseed of the run have |
| Requests.NeverOverdue | internal/gateway/rest.go:454-478 | so with entropy and a clock that does not run back, no values are drawn when the last reseed is the interval ago or more |
| Requests.ReachedForGood | internal/gateway/rest.go:454-478 | once the interval is reached, every later question is answered by a reseed, until the count wraps |
| Requests.DecidedAsDocumented | internal/gateway/rest.go:453-478 | in any run from a start, with any clocks and entropy failures and before the count wraps, a question is decided by the bytes since the last reseed exactly if the interval is not reached at all, or as many bytes have been generated since each question before that reseeded |
| Requests.AsDocumentedExactly | internal/gateway/rest.go:453-478 | where no time is due and there is entropy, that is so exactly for the first question, one behind a question that had not reached the interval, and one with an interval of bytes between the two |
| Requests.OnlyOfExactly | internal/gateway/rest.go:360-392 | a round holds contents of one tenant only exactly if no request of another one for this round has stored anything |
| Fairness.ExchangedRuns | internal/gateway/rest.go:401-409 | over any number of samplings with rejections and failures, a map of the tapes that undoes itself exchanges two lists of results and keeps the rest of the tape |
| Fairness.NoBias | internal/gateway/rest.go:401-409 | any two lists of values between the bounds come from equally many tapes of any length |
| Service.SampleValues | internal/gateway/rest.go:401-409 | the values of that many samplings in a row, or an error |
| Service.Server.ReseedIfNeeded | internal/gateway/rest.go:454-478 | the generator afterwards; an error, and no change, exactly if a reseed is due and there is no entropy |
| Service.Server.Generate | internal/gateway/rest.go:396-451 | stores exactly one entry with the sampled values, or nothing, and says exactly when; keeps the invariant |
| Service.Server.HandleGenerate | internal/gateway/rest.go:140-162 | the exact conditions of every status, of invalid requests, those of another tenant, failures and answers; the stored entry field by field: tenant, game, round, identifier, time, values, count and bounds of this request, and no reseed mark; keeps the invariant |
| Service.Server.HandleGenerateBatch | internal/gateway/rest.go:164-201 | status, stored contents and generator are those specified; each stored entry has the fields of its item; when a batch is refused up front; the answer tells of all items or none; keeps the invariant |
| Service.Server.HandleShuffle | internal/gateway/rest.go:203-292 | the exact conditions of every status; stores the items in the order of the shuffle, with the fields of the request and bounds that occur among them; keeps the invariant |
| Service.Server.HandleAuditRound | internal/gateway/rest.go:360-392 | returns the round's entries of all tenants, so only the asking one's exactly if no other has any; reports a valid chain exactly if they stand together |
| Service.Server.Serve | internal/gateway/rest.go:65-80 | in every sequential run from genesis the entries verify from the zero hash, every signature is by its tenant's own key if there is one and else by that of any tenant, counts and bounds hold, the latest hash is the tip, nothing is lost, every new entry is of one of the requests in all its fields, and generator and stored contents are those of the specified run |
| Service.Server.ServeThenAudit | internal/gateway/rest.go:360-392 | after any run from genesis, the answer for a round holds only entries of the asking tenant exactly if no request of another tenant for this round has stored anything |
| Counterexamples.IntervalOfEight | internal/gateway/rest.go:454-478 | a run in which a request reseeds although nothing was generated since the last reseed |
| Counterexamples.ReseedsAgain | internal/gateway/rest.go:454-478 | the same on the server |
| Counterexamples.RefusedButStored | internal/gateway/rest.go:164-201 | a refused batch on the server that leaves an entry |
| Counterexamples.TwoTenants | internal/gateway/rest.go:360-392 | two tenants in one round: the one is given the other's entry, and the other's chain does not verify, unless the first entry is hashed to zeros |
| Counterexamples.GameChanged | internal/audit/log.go:113-156 | the stored entry of a run is given another game, and the list verifies as before |
| RateLimiter.Limiter.Allow | internal/gateway/middleware.go:126-146 | decision and bucket of one call; other buckets stay |
| RateLimiter.Limiter.Run | internal/gateway/middleware.go:126-146 | the decisions of a run are those of the specification |
| RateLimiter.TokensInRange | internal/gateway/middleware.go:118-146 | tokens stay between zero and twice the rate |
| RateLimiter.AdmittedExactly | internal/gateway/middleware.go:126-146 | a call is admitted exactly if, with it, no window that ends now holds more calls than twice the rate and the rate times its length |
| RateLimiter.WindowBound | internal/gateway/middleware.go:118-146 | in any window at most twice the rate, and the rate times its length, is admitted for a tenant |
| RateLimiter.Isolated | internal/gateway/middleware.go:126-146 | bucket and decisions of a tenant are what they would be if no other tenant had called |
| RateLimiter.FirstCall | internal/gateway/middleware.go:118-146 | a tenant's first call is admitted exactly if the rate is half a call per second or more |
| RateLimiter.TooSlowForAny | internal/gateway/middleware.go:118-124 | below that no call is ever admitted |

## Left out

- Chunked.Connection.Read: timeouts, TLS and the stop flag are not modelled, and a stream that ends reads as an error.
- Chunked.Output.Write: throttling, timeouts and the stop flag are not modelled; a connection takes a number of bytes and then breaks.
- Chunked.Output.SendChunk: throttling, timeouts and the stop flag are not modelled, and neither is the overflow of the returned sum for chunks near the largest int.
- WebSocket.Input.ReadWebsocket: ping-pong filtering, the stop flag and timeouts that end the connection are not modelled.
- Glob.MatchPrefix: pattern and text are C strings; the byte behind a pattern part that ends in a star is taken not to be another star.
- JsonMinify.Minify: on an unterminated string or block comment the model stops at the terminator and says so; what the original reads and writes behind it is not modelled.
- JsonPrint.PrintBuffered: with a first size of zero and manual reallocation the original copies one byte from an empty buffer; the model copies nothing there.
- JsonPrint.Print: allocation never fails, in printing as in parsing.
- JsonList.ReplaceItemViaPointer: freeing the replaced item is modelled as unlinking it.
- JsonParse.ParseWithOpts: the position of an error is only known to lie in the text, and exactly if what stands behind a value is the error.
- JsonRoundTrip.PrintParse: raw items, missing strings and locales with another decimal point are excluded; formatting and reading of numbers are the library's.
- HandOff.ExactlyOnce: reads of the stop flag and of a slot without the lock are single steps in one order for all threads; errors of `event_wait` and `read` on an event are not modelled, and the queue of builds without events is not part of this model.
- Scaling.RandRange: a generator that never accepts and never fails runs for ever; the tape ends.
- Drbg.DRBG.Generate: the limits of the standard on bytes per request and on requests between reseeds are not in the code and not in the model; output lengths so long that the allocation fails are not modelled; calls are sequential.
- AuditLog.Chain.Seal: the mutex is not modelled; calls are sequential.
- Service.Server.Serve: requests are handled one after the other. Under concurrency the order of the store need not be the order of the chain, and the code gives no guarantee.
- Service.Server.ReseedIfNeeded: a reseed replaces the tape of the generator by one from the request's environment.
- Requests.DecidedAsDocumented: stated up to the wrap of the count at 2^64 bytes, as is Requests.AsDocumentedExactly.
- Service.Server.HandleGenerate: JSON decoding, authentication and metrics are not modelled; a response is the stored entry.
- RateLimiter.WindowBound: times and tokens are real numbers, rounding of the floats is not modelled.
- `NewStaticKeyStore` and the PostgreSQL store, the entropy pool, health tests with their p-values, `RandFloat64`, configuration and metrics: wrappers and floating point.
- `genRandomList` and `GenRandom` of the older server, which pass on the rejection code of `scale` unchecked.
- The rest of civetweb: files, directories, CGI, SSL, Lua, configuration and authentication.
- The rest of cJSON: duplication, comparison, lookup by name and creation of items, which follow the tree without state of their own.
