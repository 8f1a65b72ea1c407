# Verified model of tomcat-native's TLS logic

tomcat-native lets Tomcat use OpenSSL. Around the calls into OpenSSL and APR it has hand-written logic with loops,
byte arithmetic, recursion and state. This project models that logic in Dafny 4.11 and proves what it promises.
OpenSSL, APR, the network and the JVM are parameters: verdicts, scripts of sends, feeds of reads, allocation oracles.

| file | models |
|---|---|
| `Bytes.dfy`, `Memory.dfy` | bytes, C strings, `int` conversion; block copies and doubling |
| `Asn1.dfy`, `Aia.dfy` | DER lengths; the recursive walk that collects OCSP responder URLs from a certificate |
| `Transport.dfy` | the partial-send loop and the doubling receive buffer |
| `HttpHead.dfy` | the parser of the HTTP head of an OCSP reply |
| `OcspClient.dfy` | one exchange, the judgement of a response, the loop over responders |
| `Contexts.dfy`, `Verify.dfy` | context and connection objects; the certificate-verify callback and chains of calls |
| `AlpnWire.dfy`, `AlpnSelect.dfy` | the ALPN wire format, its serialiser and decoder; both protocol selectors |
| `Lifetimes.dfy` | connections, pools and counters under newSSL, freeSSL and pool destruction |
| `SslConf.dfy` | the OCSP settings over sequences of check, assign and apply |
| `Renegotiation.dfy` | the renegotiation guard over traces of handshake events |

Each C function with loops or updates is a method proved equal to a specification function; the lemmas are about those
functions. Reads and writes outside a buffer or through a null value, which C leaves undefined, are explicit results
(`Overrun`, `PastEnd`, `Lost`, `Astray`, `NullValue`), so the functions that could do so are total, and the theorems
say when that happens.

Main results:

- The AIA walk inverts the encoder of section 4.2.2.1 of RFC 5280 for every list of access descriptions; on arbitrary
  bytes it collects nothing that is not a URI behind an id-ad-ocsp OID; on well-nested bytes it stays in its buffer.
- From the bytes of the certificate and of the HTTP reply to the verdict of the verify callback: acceptance exactly
  when depth, request, first good or revoked answer and soft-fail say so; over whole chains safe and monotone.
- A request is sent exactly when the script of sends carries its chunks one by one. What is received depends on the
  reads only through their concatenation; buffer sizes, copy cost and number of reads are bounded.
- Encoding and decoding ALPN lists are inverse; for every list of names it is known whether it fits the serialiser's
  buffer and whether it reads back; each selector picks what its preference order says, and the two agree on a single
  common name.
- A run of pool and connection operations uses given-back memory exactly when it frees some handle twice or names a
  pool after destroying it or one above it; what may be named and what is destroyed is read off the events alone.

## Results where the code differs from what one would expect

- Section 2.2 of RFC 6960 counts "unknown" among the definitive answers, but the loop over responders goes on after it:
  a valid unknown with good behind it is answered good (`OcspClient.UnknownOverruled`) and the certificate accepted
  (`Verify.OverruledUnknownAccepted`). The first answer definitive in that sense is kept exactly under the condition of
  `OcspClient.RfcAnswerKept`; `Verify.StoppingVerdictKept` says exactly when the callback's verdict is affected.
- The ALPN serialiser doubles its buffer at most once per name. Names of 127 and 128 bytes overrun it
  (`AlpnWire.OverrunExample`); `AlpnWire.FitsExactly` has the exact condition for each list, and
  `AlpnWire.SingleDoublingBound` the bound on the names.
- It writes the length of a name through an unsigned char, so names of 256 bytes and more do not read back
  (`AlpnWire.LongNameExample`, with names of 100, 98 and 256 bytes; exact condition in `AlpnWire.SerialiseThenDecode`)
  and can hide shared names behind them (`AlpnSelect.LongNameHidesShared`) or not (`AlpnSelect.LongNameSparesShared`).
  `AlpnSelect.ConfiguredPriorityExactly` says for any names and any client when the first shared name is selected.
- An AIA extension (below 2^24 bytes) cut off anywhere inside makes the walk leave its buffer
  (`Aia.CutEncodingIsUndefined`); on well-nested extensions it does not (`Aia.NestedIsDefined`).
  `Verify.UndefinedExactlyWhen` says exactly when the callback is affected.
- The guard of the server-priority loop counts name bytes but not length bytes, so without a shared name the loop reads
  behind the list (`AlpnSelect.PastEndExample`); it stays inside exactly when there is one
  (`AlpnSelect.ServerPriority`).
- The configured ALPN list is read as plain `char`. Where that is signed, a name of 128 bytes is refused
  (`AlpnSelect.WideLengthExample`); `AlpnSelect.ReadingsAgree` says exactly when the two readings agree.
- An HTTP status is read by strtoul and stored in an `int` before it is compared: 4294967496 and -4294967096 count as
  200 (`HttpHead.WrappedCodeAccepted`; exact condition in `HttpHead.CodeAccepted`).
- A soft-fail acceptance leaves the error UNABLE_TO_GET_CRL in the store context (`Verify.SoftFailKeepsErrorExample`;
  all cases in `Verify.ErrorLeft`).
- A timeout beyond 2147483 milliseconds is not stored as 1000 times itself (`SslConf.TimeoutExact`).

## Model

| member | source | states |
|---|---|---|
| Asn1.ParseLength | native/src/sslutils.c:559-604 | the pointer walk over short and long form computes the big-endian length and the offset of the contents, refuses indefinite form and more than three octets, and never reads past the buffer unnoticed |
| Asn1.LengthRoundTrip | native/src/sslutils.c:559-604 | reading a DER length inverts writing it exactly below 2^24; a longer one is an error |
| Aia.UrlTable.Append | native/src/sslutils.c:617-634 | the URL array grows by one entry at the end and its count with it |
| Aia.ParseUrl | native/src/sslutils.c:608-638 | a URI name adds its contents to the table, any other name adds nothing and is no error |
| Aia.ParseOid | native/src/sslutils.c:641-653 | the name after the OID is looked at only behind id-ad-ocsp |
| Aia.ParseSequence | native/src/sslutils.c:662-686 | loop and recursion end, and append exactly what the recursive specification collects, on any bytes |
| Aia.DecodeOcspUrls | native/src/sslutils.c:691-713 | the terminated copy is walked; an error or no URL gives none |
| Aia.DecodeEncode | native/src/sslutils.c:559-713 | for every list of access descriptions, decoding the encoding yields exactly the OCSP URIs, each once and in order, with no read outside the buffer; none from 2^24 bytes on |
| Aia.StrayElementGivesNothing | native/src/sslutils.c:662-713 | behind an encoded extension an element that is neither a SEQUENCE nor an OID makes the walk fail, and then no URL is kept |
| Aia.TagsAndOid | native/src/sslutils.c:606-682 | the tags are the identifier octets of SEQUENCE, OBJECT IDENTIFIER and context tag 6, and the OID is 1.3.6.1.5.5.7.48.1 |
| Aia.ExtensionExample | native/src/sslutils.c:662-713 | the 17 bytes of an extension with one responder give its URL |
| Aia.NestedIsDefined | native/src/sslutils.c:662-713 | on every extension made of complete, well-nested elements, an AIA encoding or not, the walk stays inside its buffer |
| Aia.CutEncodingIsUndefined | native/src/sslutils.c:662-713 | every proper non-empty prefix of an encoded AIA extension below 2^24 bytes makes the walk leave its buffer |
| Aia.CollectedUrlsAreOcspUris | native/src/sslutils.c:606-686 | on every input each collected URL is the contents of a URI name that directly follows an id-ad-ocsp OID |
| Transport.SendChunk | native/src/sslutils.c:796-808 | one chunk: the bytes taken by the socket are a prefix of it, in order and without repetition |
| Transport.SendRequest | native/src/sslutils.c:789-812 | across all chunks the socket gets a prefix of the request, and all of it on success |
| Transport.TransmissionConserves | native/src/sslutils.c:795-811 | success takes every byte and meets no failed send; failure is the first failed send met, or the end of the script with bytes still to go |
| Transport.SucceedsExactly | native/src/sslutils.c:795-811 | a request is sent exactly when the script opens with one part for each chunk: sends that do not fail, the last of which completes the chunk |
| Transport.FullSendsSucceed | native/src/sslutils.c:795-811 | with sends that do not fail and take 8192 bytes, one for each 8192 bytes begun is what it takes |
| Transport.OneSend | native/src/sslutils.c:795-811 | one send that does not fail carries a request up to what it takes and 8192 bytes |
| Memory.Realloc | native/src/sslutils.c:545-552 | the new block starts with the old bytes |
| Transport.ReceiveAll | native/src/sslutils.c:898-948 | over an unbounded feed of non-empty reads the loop ends after at most 65537 reads; totalread stays below buflen, buflen is 512 doubled and at most 131072, all copies together are buflen - 512 bytes |
| Transport.ReceivedIsConcatenation | native/src/sslutils.c:916-943 | the bytes handed on are the concatenation of the reads, or none if that exceeds 65536 or the feed stops with an error |
| Transport.ChunkingIndependent | native/src/sslutils.c:916-945 | two ways of cutting the same bytes into reads give the same result |
| HttpHead.ReadStatus | native/src/sslutils.c:831-873 | the status line is accepted exactly when its second word is followed by white space, is a number to its end and is 200 as an int |
| HttpHead.SkipHeaders | native/src/sslutils.c:874-883 | the header loop stops behind the first blank line, or with nothing left to decode |
| HttpHead.ParseResponse | native/src/sslutils.c:818-891 | the whole parser hands the decoder what the specification says |
| HttpHead.StatusTokenIsCode | native/src/sslutils.c:839-858 | the word found is the status code, for every protocol, spacing and reason |
| HttpHead.StatusTokenExactly | native/src/sslutils.c:839-858 | a line has a status code exactly when it is a word, white space, the code and a tail that opens with white space |
| HttpHead.ReplyHandsOverBody | native/src/sslutils.c:831-886 | for every status line, header lines, blank line and body that fit, exactly the body is handed over if the code is accepted, else nothing |
| HttpHead.BlankBytes | native/src/sslutils.c:876-878 | a line is blank exactly when up to its first NUL it holds only bytes 9 to 13 and 32 |
| HttpHead.CrLfReply | native/src/sslutils.c:831-886 | a reply whose lines end in CR LF, with an empty line before the body, hands over exactly its body if the code is accepted |
| Bytes.Classes | native/src/sslutils.c:839-876 | white space is bytes 9 to 13 and 32, digits are those of ASCII |
| HttpHead.NoBlankLineNoContent | native/src/sslutils.c:874-883 | without a blank line nothing is handed over, be the reply cut between header lines or inside one; a cut-off line of white space hands over no bytes |
| HttpHead.NoBlankLineNoResponse | native/src/sslutils.c:874-886 | such a reply gives no response |
| HttpHead.ContentFollowsBlank | native/src/sslutils.c:874-884 | on every reply whatever is handed over is the rest behind a blank piece of at most 511 bytes |
| HttpHead.CodeAccepted | native/src/sslutils.c:859-873 | a code is accepted exactly when it is an optional sign and digits of a magnitude that fits an unsigned long, and the signed number is 200 modulo 2^32 |
| HttpHead.SmallCodeAccepted | native/src/sslutils.c:859-873 | a plain number below 2^32 is accepted exactly when it is 200 |
| HttpHead.WrappedCodeAccepted | native/src/sslutils.c:859-873 | the codes 4294967496 and -4294967096 are accepted |
| OcspClient.Judge | native/src/sslutils.c:1026-1090 | an answer is definitive only behind all gates; a failed gate of a successful response always complains, and the error left is that of the first gate failed in the code's order, by its number |
| OcspClient.ProcessResponse | native/src/sslutils.c:1026-1090 | answer and store error follow the judgement |
| OcspClient.GetResponse | native/src/sslutils.c:972-1021 | URL, port, request, connection, send, receive and parse in this order; any failure is silence |
| OcspClient.FetchOfReply | native/src/sslutils.c:972-1021 | a responder that takes the request and delivers an HTTP reply, however cut, is heard exactly when the code is accepted and the reply fits |
| OcspClient.HeardExactly | native/src/sslutils.c:972-1021 | a responder is heard exactly when URL, port, request and connection work, the sends carry the whole request, the reads end in order within the limit and the parser hears the bytes; any failed stage is silence |
| OcspClient.AskAll | native/src/sslutils.c:1123-1141 | the loop over URLs computes the specified answer and error |
| OcspClient.AskFollowsFirst | native/src/sslutils.c:1123-1141 | the loop's answer is that of the first responder saying good or revoked |
| OcspClient.AskUndecided | native/src/sslutils.c:1123-1147 | if no responder says good or revoked the answer is unknown |
| OcspClient.RfcAnswerKept | native/src/sslutils.c:1135-1139 | the first answer definitive in the sense of section 2.2 of RFC 6960 is kept exactly when it is good or revoked, or unknown with no good or revoked behind it |
| OcspClient.UnknownOverruled | native/src/sslutils.c:1135-1139 | a valid unknown followed by a good is answered good |
| OcspClient.RequestStatus | native/src/sslutils.c:1092-1154 | URLs, request building and loop together, with the errors each path leaves, for every extension |
| Verify.VerifyOcsp | native/src/sslutils.c:501-541 | absent, self-issued and issuerless certificates are not asked about; answers set the error |
| Verify.VerifyCallback | native/src/sslutils.c:298-391 | return value, error, peer, verify result and handshake state after the callback, for every certificate |
| Verify.AnswerDecides | native/src/sslutils.c:1123-1147 | good or revoked exactly when the first responder that says either says so, unknown exactly when none does |
| Verify.AcceptedExactlyWhen | native/src/sslutils.c:344-390 | in OPTIONAL or REQUIRE mode with OCSP on, an askable certificate entered ok is accepted exactly when depth fits, the request builds, and the first good or revoked answer is good, or there is none and soft-fail is on |
| Verify.ErrorLeft | native/src/sslutils.c:356-368 | the error such a call leaves, by number, for each outcome |
| Verify.SoftFailKeepsErrorExample | native/src/sslutils.c:363-366 | a certificate whose one responder cannot be reached is accepted under soft-fail and the error stays |
| Verify.StoppingVerdictKept | native/src/sslutils.c:344-390 | the verdict is that of a check stopping at the first answer definitive in the sense of section 2.2 of RFC 6960, unless that is unknown and a later responder says revoked (soft-fail on) or good (off) |
| Verify.OverruledUnknownAccepted | native/src/sslutils.c:344-390 | a certificate with two OCSP URIs whose responders deliver a valid unknown and then a valid good is accepted without soft-fail, where a check stopping at the first definitive answer rejects it |
| Verify.UndefinedExactlyWhen | native/src/sslutils.c:346-358 | the callback has no defined outcome exactly when it checks a certificate on whose extension the walk leaves its buffer |
| Verify.NestedExtensionIsDefined | native/src/sslutils.c:298-391 | a well-nested extension never leads there |
| Verify.EncodedAiaVerdict | native/src/sslutils.c:298-713 | the same verdict from the encoded extension: the responders asked are its OCSP URIs in order |
| Verify.FirstReplyDecides | native/src/sslutils.c:298-1154 | from certificate bytes and reply bytes to the verdict, across walker, exchange, parser, judgement, loop and callback |
| Verify.CallbackPolicy | native/src/sslutils.c:298-391 | for every mode, entry and certificate, exactly when the callback accepts, with modes and excused errors by number |
| Verify.UnknownCaExcused | native/src/sslutils.c:322-326 | in mode OPTIONAL_NO_CA a call with error 0, 18, 19, 20, 21 or 27 is accepted at any depth with nothing changed but the reset verify result; a failed call with another error is not |
| Verify.OptionalErrorRefused | native/src/sslutils.c:346-355 | in the other checking modes with OCSP on, a call entered ok with one of the five is refused and leaves error 50 |
| Verify.ResultReset | native/src/sslutils.c:318-326 | the stored verify result becomes 0 exactly in OPTIONAL_NO_CA with no error or an excused one; with checking off nothing changes |
| Verify.LeftBehind | native/src/sslutils.c:340-383 | when the peer certificate is dropped, and which error a failed entry keeps |
| Verify.EveryCallAccepted | native/src/sslutils.c:298-391 | a chain is accepted exactly when each of its calls is |
| Verify.AcceptedChainIsSafe | native/src/sslutils.c:344-390 | an accepted chain has every call entered ok within the depth, and no askable certificate first answered revoked |
| Verify.LaxerPolicyKeepsChains | native/src/sslutils.c:307-390 | turning soft-fail on or raising the depth never rejects an accepted chain |
| AlpnWire.DecodeNames | native/src/sslcontext.c:1124-1135 | the decode loop computes the C strings of the pieces, or fails when a piece overruns |
| AlpnWire.DecodeOfEncode | native/src/sslcontext.c:1124-1135 | decoding gives back exactly the NUL-free names encoded |
| AlpnWire.AcceptsExactlyEncodings | native/src/sslcontext.c:1124-1135 | the loop accepts exactly the concatenations of length-prefixed strings |
| AlpnWire.ReencodeExactly | native/src/sslcontext.c:1124-1135 | re-encoding gives the same bytes exactly when no piece holds a NUL |
| AlpnWire.WriteNames | native/src/sslcontext.c:1243-1279 | on any names: written whole, out of memory or overrun, as specified; when written, the size is 128 doubled, earlier bytes survive every move, and the buffer starts with exactly the wire form |
| AlpnWire.FateExactly | native/src/sslcontext.c:1243-1279 | all is written exactly when the names fit and the allocations succeed; with memory enough the buffer is overrun exactly when they do not fit |
| AlpnWire.InitProtocols | native/src/sslcontext.c:1210-1296 | the return code or the overrun, the new data on success, what stays on failure |
| AlpnWire.InitExactly | native/src/sslcontext.c:1218-1295 | success exactly when the list is not empty, the names fit and every allocation asked for is granted; with memory enough the only other end is the overrun |
| AlpnWire.OneName | native/src/sslcontext.c:1243-1279 | a single name: written behind its length up to 255 bytes, passed over when empty or longer than 65535, an overrun in between |
| AlpnWire.CapIsLeast | native/src/sslcontext.c:1218-1259 | the capacity used below is the least of 128 doubled that holds the bytes |
| AlpnWire.FitsExactly | native/src/sslcontext.c:1248-1269 | a list fits exactly when at every name the bytes needed so far are at most twice the least capacity for those before |
| AlpnWire.TotalIsWritten | native/src/sslcontext.c:1248-1275 | the bytes counted there are the bytes written |
| AlpnWire.OverrunExample | native/src/sslcontext.c:1252-1275 | names of 127 and 128 bytes overrun the buffer with every allocation granted |
| AlpnWire.ShortNamesFit | native/src/sslcontext.c:1248-1269 | names of at most 127 bytes always fit with one doubling each |
| AlpnWire.SingleDoublingBound | native/src/sslcontext.c:1248-1269 | 127 is exactly the bound up to which that holds for all lists |
| AlpnWire.WireIsEncoding | native/src/sslcontext.c:1247-1275 | where no name written has 256 bytes, the bytes written are the encoding of the names not passed over |
| AlpnWire.SerialiseThenDecode | native/src/sslcontext.c:1124-1135 | for any names, decoding what was serialised gives back those not passed over exactly when each has less than 256 bytes and no NUL |
| AlpnWire.LongNameExample | native/src/sslcontext.c:1270-1274 | names of 100, 98 and 256 bytes fit, but the third is written with length 0 and they do not read back |
| AlpnSelect.FindEntry | native/src/sslutils.c:453-471 | the inner loop finds the first equal entry and reads only inside the client's bytes, whatever they are |
| AlpnSelect.UnreadableExactly | native/src/sslutils.c:458-459 | the comparison reads behind the server's list exactly when the piece is cut off and the client lists a name of its length |
| AlpnSelect.SelectNextProto | native/src/sslutils.c:438-476 | the outer loop computes the specified selection on any bytes of server and client; a match lies inside the client's bytes |
| AlpnSelect.ServerPriority | native/src/sslutils.c:449-476 | on well-formed lists the first server name the client lists is selected as a slice of the client's bytes; the walk stays inside the server's list exactly when one is shared |
| AlpnSelect.FirstSharedPiece | native/src/sslutils.c:449-476 | on any bytes of the server there is a match exactly when the client lists one of the whole pieces met, and then it is the first of these, as a slice of the client's bytes |
| AlpnSelect.ConfiguredPriorityExactly | native/src/sslcontext.c:1243-1295 | end to end from any names configured: of those written, the first that the client lists is selected exactly when it is the first whole piece of the written bytes that the client lists |
| AlpnSelect.ConfiguredPriority | native/src/sslcontext.c:1243-1295 | that is so when no name of 256 bytes or more is written before it |
| AlpnSelect.LongNameHidesShared | native/src/sslutils.c:449-476 | a name of 256 equal bytes hides the shared name behind it |
| AlpnSelect.LongNameSparesShared | native/src/sslutils.c:449-476 | a name of 256 bytes that begins with 255 does not |
| AlpnSelect.PastEndExample | native/src/sslutils.c:449-476 | the lists "a" and "b" make the loop read behind the server's list |
| AlpnSelect.ArrayIndex | native/src/sslcontext.c:1064-1075 | first index or -1 |
| AlpnSelect.IndexOf | native/src/sslcontext.c:1064-1075 | the index is of an equal name with no earlier one; -1 exactly when the name is not listed |
| AlpnSelect.CmpAlpnProtos | native/src/sslcontext.c:1077-1094 | the comparison by index, then by strcmp |
| AlpnSelect.StrCmpOrder | native/src/sslcontext.c:1090-1093 | strcmp is zero exactly on equal names, antisymmetric and transitive |
| AlpnSelect.StrCmpIsLexicographic | native/src/sslcontext.c:1090-1093 | it is negative exactly for a proper prefix, or a smaller unsigned byte at the first difference |
| AlpnSelect.CmpIsTotalOrder | native/src/sslcontext.c:1077-1094 | the comparison is a total order for every client list, duplicates included |
| AlpnSelect.MostPreferred | native/src/sslcontext.c:1165-1173 | the fold returns a name that no other is preferred to |
| AlpnSelect.DecodeConfigured | native/src/sslcontext.c:1148-1158 | the loop over the configured list, with plain char signed or unsigned |
| AlpnSelect.SignedReading | native/src/sslcontext.c:1150-1157 | with signed char the reading is that with unsigned char up to the first length byte of 128 or more met, which is refused, or, far enough into the list, sends the copy astray |
| AlpnSelect.ReadingsAgree | native/src/sslcontext.c:1148-1158 | the two readings agree exactly when no such byte is met or both refuse |
| AlpnSelect.WideLengthExample | native/src/sslcontext.c:1148-1158 | a list of one name of 128 bytes is read with unsigned char and refused with signed |
| AlpnSelect.ServerAlpn | native/src/sslcontext.c:1108-1184 | for either kind of char: fatal alert exactly on the listed malformed or empty inputs, undefined exactly on a stray copy, else the greatest name and its length, at most 255 |
| AlpnSelect.GreatestIgnoresServerOrder | native/src/sslcontext.c:1165-1173 | order and repetitions in the server's list do not change the choice |
| AlpnSelect.GreatestMeansPreferred | native/src/sslcontext.c:1077-1094 | the choice is the server name earliest in the client's list, or if none is listed the one that all others come before by their bytes; and conversely |
| AlpnSelect.UnlistedExample | native/src/sslcontext.c:1165-1173 | a client listing only "h2" and a server with "spdy2" and "spdy3": "spdy3" is chosen |
| AlpnSelect.SelectorsAgree | native/src/sslutils.c:449-476 | with exactly one name in common both selectors choose it, wherever the configured bytes read as a list |
| Lifetimes.Runtime.ConPoolCleanup | native/src/ssl.c:516-529 | the cleanup bumps the destroy counter of its connection |
| Lifetimes.Runtime.PoolDestroy | native/src/pool.c:35-42 | destroying a pool runs the cleanups of the live pools below it, children first |
| Lifetimes.Runtime.NewSSL | native/src/ssl.c:531-605 | what each exit of newSSL leaves allocated, freed and registered, and the handle it returns |
| Lifetimes.CreationLeaves | native/src/ssl.c:570-604 | success leaves a handle with a live pool below the context's that carries its cleanup, counters at 0 and nothing freed; an error exit gives no handle and leaves no pool live; a pool Java creates is live and Java's to name |
| Lifetimes.Runtime.FreeSSL | native/src/ssl.c:672-691 | the connection's pool is destroyed only while destroyCount is 0; both counters and the SSL are freed |
| Lifetimes.DestroyKeeps | native/src/ssl.c:516-529 | destroying a live pool destroys exactly the pools below it, each once, and keeps the invariant |
| Lifetimes.StepOnPools | native/src/pool.c:25-42 | one event adds the pools it makes to the tree and leaves the rest of it; a pool of Java dies only by the destruction of one at or above it |
| Lifetimes.StepInOrder | native/src/ssl.c:516-691 | a state in order after some events stays so: the pools dead to Java are those destroyed by the events alone |
| Lifetimes.StepKeeps | native/src/ssl.c:516-691 | every operation keeps the invariant, unless it frees a handle again or names a dead pool: then it faults |
| Lifetimes.RunKeeps | native/src/ssl.c:516-691 | from any state in order after earlier events, a run faults exactly when it frees a handle again or names a pool destroyed by an event before; otherwise the state stays in order |
| Lifetimes.FaultExactlyOnMisuse | native/src/ssl.c:516-691 | a run from the start, naming only pools and handles Java was given, uses given-back memory exactly when some handle is freed twice, or some event names a pool that an earlier event destroyed, itself or by way of one above; the condition is on the events alone |
| Lifetimes.LegalByEvents | native/src/ssl.c:516-691 | what Java can name in a run is what the events before gave: pools it made, and handles of calls of newSSL that succeeded |
| Lifetimes.OwnEventsFaultExactlyOnMisuse | native/src/ssl.c:516-691 | the same equivalence with premise and condition on the events alone |
| Lifetimes.CreatedIsUsable | native/src/ssl.c:570-691 | in a run without misuse the slot of every successful newSSL keeps its handle, freeing it is legal, and the first time faults nothing |
| Lifetimes.UnderExactly | native/src/pool.c:35-42 | a pool is below another in the tree of the events exactly when a path of parents leads from it to that one |
| Lifetimes.DeadPoolWasDestroyed | native/src/pool.c:35-42 | in a run without fault the pools dead to Java are exactly those its events destroyed, themselves or by way of one above; connections take none of them along |
| Lifetimes.LifetimesInOrder | native/src/ssl.c:516-691 | in such a run each connection pool is destroyed at most once, destroyCount is 0 exactly while it is live, counters and SSL of a successful newSSL are freed once exactly if the handle was freed; a failed one has freed its counters and the SSL it made once and destroyed its pool once |
| SslConf.ConfContext.constructor | native/src/sslconf.c:133-137 | a new configuration holds the defaults |
| SslConf.ConfContext.Check | native/src/sslconf.c:159-267 | which setting a check changes and to what, when it reports failure, and when it would read a null value |
| SslConf.ConfContext.Assign | native/src/sslconf.c:270-285 | the context gets all four settings |
| SslConf.ConfContext.Apply | native/src/sslconf.c:288-382 | Tomcat's own commands are skipped with success, others return OpenSSL's verdict; what OpenSSL is given, with the always disabled ciphers in front of a cipher list; no setting changes; a null cipher list would be read |
| SslConf.ConfIsByLastChecks | native/src/sslconf.c:180-219 | after any calls each setting is what its own last effective check says, or its default |
| SslConf.ContextFollowsLastAssign | native/src/sslconf.c:280-284 | the context holds what the checks before the last assign say; later checks and every apply leave it alone |
| SslConf.TimeoutExact | native/src/sslconf.c:198-205 | the stored timeout is 1000 times the number exactly when that is between -2147483 and 2147483 |
| SslConf.ParseOfText | native/src/sslconf.c:201-201 | the decimal text of a number reads back as that number, with errno exactly outside a long |
| SslConf.TimeoutReachesContext | native/src/sslconf.c:198-284 | a timeout given as decimal milliseconds reaches the context as microseconds |
| SslConf.NoResponderUnlessSwitchedOn | native/src/sslconf.c:180-187 | a context never told NO_OCSP_CHECK=false before its last assign decides without regard to responders |
| SslConf.FalseExactly | native/src/sslconf.c:180-195 | the texts that switch a flag off are "false" in any mix of cases and no other; "true", "0" and "no" are not |
| SslConf.FlagsReachContext | native/src/sslconf.c:180-284 | the commands by name: each flag reaches the context alone, any command that is not Tomcat's changes nothing |
| SslConf.ParseIgnoresAround | native/src/sslconf.c:201-201 | white space in front, a sign and a tail behind the digits are read as strtol does; without digits the number is 0 |
| SslConf.AlwaysDisabledText | native/include/ssl_private.h:177-177 | the prefix of a cipher list, letter by letter |
| Renegotiation.HandshakeCallback | native/src/sslutils.c:399-433 | one event, including no connection and TLS 1.3 sessions |
| Renegotiation.StateTellsTrace | native/src/sslutils.c:411-432 | ABORT exactly when a completed handshake is followed by a later start, both outside TLS 1.3; REJECT and INIT likewise; RENEG_ALLOW never |
| Renegotiation.StateOnlyAdvances | native/src/sslutils.c:424-432 | the state only advances and ABORT is absorbing |
| Renegotiation.TracesByNumber | native/src/sslutils.c:411-432 | by bits and version numbers: start, done, start of a session below TLS 1.3 ends in ABORT; TLS 1.3 sessions and other bits leave INIT |

## Left out

- AlpnSelect.SelectNextProto: stops at `Exhausted` or `PastEnd` where no name matched; the tail that then picks the
  client's last protocol (native/src/sslutils.c:478-490) is not part of this model, because the loop before it has no
  defined end on a non-empty list.
- AlpnSelect.ReadingsAgree: `Astray` also covers stray copies that meet a NUL inside the list, where C is defined and
  only moves the cursor backwards; that walk is not followed.
- AlpnSelect.ServerAlpn: what a stray copy picks up is not modelled (`Undefined`); the selected name is a value, not a
  pointer into the connection's pool.
- AlpnWire.InitProtocols: what a write behind the buffer does is not modelled (`BufferOverrun`); null elements of the
  Java array are not modelled, and freeing the replaced block has no counterpart.
- Aia.UrlTable.Append: the extra NULL slot behind the array and allocation failure are not modelled; consumers use the
  count.
- OcspClient.RequestStatus: what happens after the walk left its buffer is not modelled (`Lost`).
- OcspClient.GetResponse: parsing the URL and the port and printing the HTTP request are parameters; timeout and verify
  flags are only handed on to APR and OpenSSL.
- OcspClient.ProcessResponse: OpenSSL's checks are boolean inputs. For a response without an entry for the certificate
  the times handed to the validity checks are never set (native/src/sslutils.c:1064-1066), which C leaves undefined;
  the model takes any verdicts on them as inputs, and such a response as one whose status is none of 0, 1 and 2.
- Transport.ReceiveAll: a failed allocation of the buffer or of a larger one (native/src/sslutils.c:907-931) is not
  modelled.
- Transport.SendRequest: a script of sends is finite and fails at its end; a socket that takes no byte for ever is not
  modelled.
- HttpHead.ReadStatus: the trimming of the reason phrase (native/src/sslutils.c:863-870) is not part of this model, it
  changes nothing that is read later; `unsigned long` has 64 bits.
- Lifetimes.Runtime.PoolDestroy: APR's own pool bookkeeping is reduced to parents, cleanups and a destruction order;
  connection pools are not handed to Java, and a run is not followed beyond its first use of given-back memory.
  Allocation failure of the two counters is not modelled.
- SslConf.ConfContext.Apply: models builds without HAVE_EXPORT_CIPHERS and a successful allocation of the prefixed
  value.
- SslConf.ConfContext.Check: `long` has 64 bits and an `int` product wraps, where C leaves overflow undefined.
- The context's own cleanup, its certificate and key slots and the Java verifier reference
  (native/src/sslcontext.c:32-82, native/src/sslcontext.c:1619-1644): each is released and cleared in a straight line.
- JNI plumbing, exceptions, statistics, option setters, protocol version choice, path checks, key and chain loading,
  BIO callbacks, library start-up: no algorithm of their own.
