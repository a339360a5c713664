# A verified model of siros-verifier

siros-verifier reads an ISO/IEC 18013-5 mobile document over Bluetooth Low Energy, checks
it and prints its claims. This project models the parts of that program whose
correctness is not in a library, and proves what they promise:

- **Der**, **IssuerId**: the strict DER recogniser and the issuer identity taken from the
  leaf certificate. The recogniser is proved to accept exactly the encodings of an
  independently defined grammar of tag-length-value trees (X.690 sections 8.1.2, 8.1.3
  and 10.1), with parsing and printing mutually inverse.
- **Framing**, **Inbox**, **Peripheral**, **Central**: BLE chunking, the reassembler, and both
  exchange coroutines as steps on a single-threaded event loop. Their theorems range over
  every sequence of events: peer writes, resumptions, timeouts, failures, cancellation.
- **Values**, **Parsing**, **Provenance**, **Validation**: the DeviceResponse parser, what its results
  say about the message as sent (who signed which bytes, and what they spell), and the accumulating
  validator against one declarative acceptance predicate.
- **Requests**, **Merging**, **DeviceRequest**: the `--request` flags, which texts spell them, and the
  DeviceRequest built from them.
- **Pdp**, **ReadGate**, **Disclosure**: the bounded read of the policy decision point's answer,
  one explicit permit per document, the release gate, and what a released response guarantees.
- **Example**: one small document that meets every premise of the gate at once.
- **SafeText**, **JsonTree**, **Rendering**, **TextWriter**: escaping, JSON conversion, and the
  traversals of the text output.

## How to read it

Code that the source writes as loops or as objects with changing fields is a method or a class
here, proved against a function or a predicate on values; the theorems are lemmas about those.
An exchange coroutine is a class whose methods are the stretches of code between two
awaits; each is proved equal to one step of the state machine the theorems speak about.
A Python dict is the ordered list of its entries, and an exception is the `Err` of a `Result`.
Hashes, signatures, certificate parsing, CBOR and JSON codecs, rendering and the PDP's HTTP replies
are parameters: every theorem holds whatever they are.

When a wait's future is already done at the moment its timeout fires, Python
versions differ in which of the two wins; the state machines allow both orders. Likewise the network
may split a body in any way and break at any read.

Five places where a reader may expect something else:

- `exchange_dropping_tail` is documented to stay at least one chunk short (ble.py:169-175), but it
  sends a single-chunk message whole (ble.py:184). `Framing.OneChunkIsSentWhole` is such a message, and
  `Framing.DroppedTailExactly` says when the peer is left incomplete: exactly when the message does not
  fit into one chunk.
- The test `child != content_end` (trust.py:79-80) can never fire, because no child ends past its limit;
  `Der.DerItemEnd` proves the loop ends exactly at the contents' end.
- Client2Server chunks that the mdoc writes before STATE_START are kept and count towards the answer.
- A SAN extension that decides nothing does not end the search for an identity; the next one is tried.
- A collision of rendered keys switches the whole map to an entry list, not only the colliding entries.

## Model

| member | source | states |
|---|---|---|
| Der.DerItemEnd | src/siros_verifier/trust.py:49-81 | The loop-and-recursion recogniser terminates and answers what `ItemEnd` answers, with the same error at the same check |
| Der.ReadsBelowLimit | src/siros_verifier/trust.py:49-81 | Octets at or past the limit change neither the answer nor which error is raised |
| Der.ValidateDerEncoding | src/siros_verifier/trust.py:84-86 | Succeeds if and only if the bytes are the encoding of some well-formed tree |
| Der.DerExact | src/siros_verifier/trust.py:49-86 | Accepted byte strings are exactly the encodings of well-formed trees |
| Der.PrintThenParse | src/siros_verifier/trust.py:49-86 | Every well-formed tree's encoding is accepted and parses back to that tree |
| Der.ParseThenPrint | src/siros_verifier/trust.py:49-86 | Every accepted byte string is the encoding of the tree it parses to |
| Der.ParseComplete | src/siros_verifier/trust.py:49-81 | Wherever an encoding stands in a buffer, the item ends at its last octet and spells that tree |
| Der.PrefixFree | src/siros_verifier/trust.py:49-81 | A byte string starts with at most one encoding, so the tree and the rest are unique |
| Der.NoProperPrefix | src/siros_verifier/trust.py:84-86 | No accepted byte string is a proper prefix of another |
| Der.ItemEndLocal | src/siros_verifier/trust.py:49-81 | A successful answer depends only on the item's own bytes: same result under shifting and under any limit at or past its end |
| Der.FailsExactly | src/siros_verifier/trust.py:49-81 | The recogniser fails exactly when no encoding starts at the offset and ends by the limit |
| Der.BigEndianUnique | src/siros_verifier/trust.py:63-68 | Digits without a leading zero are the only spelling of their number, so an accepted long form is minimal |
| Der.TagBits | src/siros_verifier/trust.py:54-75 | The tag predicates of grammar and recogniser are the source's masks 0x20 and 0x1F on the octet |
| IssuerId.ScanNames | src/siros_verifier/trust.py:108-123 | The single early-exit pass finds what three independent searches find: first usable URI, first unreadable name, first usable DNS name |
| IssuerId.MdocIssuerId | src/siros_verifier/trust.py:89-124 | The identity is the one the first settling extension gives, or the leaf hash; malformed DER, loader failure or a differing re-encoding give the hash |
| IssuerId.IdentityUnique | src/siros_verifier/trust.py:89-124 | That description leaves exactly one identity for a leaf |
| IssuerId.SpoiltExactly | src/siros_verifier/trust.py:109-121 | A name list forces the hash if and only if an unreadable URI or DNS name has no usable URI before it |
| IssuerId.OtherKindsIrrelevant | src/siros_verifier/trust.py:109-111 | Dropping every name of another kind never changes the choice |
| IssuerId.NamedExactly | src/siros_verifier/trust.py:107-123 | In the names' own text: the first http or https URI with only readable names before it gives that URI with https; without one and with all names readable, the first DNS name that is no wildcard gives it behind https://; nothing else names anybody, and every identity starts with https:// |
| IssuerId.IdentityIsNamed | src/siros_verifier/trust.py:89-124 | The identity is what a list of names gives that is strict DER, re-encodes to itself and has only lists naming nobody before it, and the leaf hash if and only if there is none |
| Framing.NegotiateChunkSize | src/siros_verifier/ble.py:41-42 | For every MTU the chunk size is MTU - 3 where that lies between 20 and 512, 20 below and 512 above |
| Framing.ChunkMessage | src/siros_verifier/ble.py:45-60 | Refused exactly for sizes of at most 1; otherwise full chunks prefixed 1, a last one prefixed 0, and payloads that spell the message |
| Framing.FramingUnique | src/siros_verifier/ble.py:45-60 | A message has exactly one such framing for a chunk size |
| Framing.Reassembler.Feed | src/siros_verifier/ble.py:70-77 | An empty chunk fails without effect; any other extends the buffer, and a chunk prefixed 0 emits and clears it |
| Framing.FramingRoundTrip | src/siros_verifier/ble.py:45-77 | Feeding a framing to an empty reassembler emits exactly that message and empties the buffer |
| Framing.StreamRoundTrip | src/siros_verifier/ble.py:45-77 | Any list of messages, empty ones included, each with its own chunk size, comes out unchanged, in order, with nothing left over |
| Framing.Conservation | src/siros_verifier/ble.py:63-77 | On arbitrary chunks, emitted messages followed by the buffer equal all payloads, with one message per 0-prefixed chunk |
| Framing.DroppedTailNeverCompletes | src/siros_verifier/ble.py:182-187 | For any keep fraction, 1 to count-1 chunks are sent and the peer holds a non-empty proper prefix and emits nothing |
| Framing.KeepsTheFraction | src/siros_verifier/ble.py:184 | The kept share is the fraction of the chunks rounded down, or the nearer of 1 and count-1 where it lies outside |
| Framing.DroppedTailExactly | src/siros_verifier/ble.py:184-187 | The peer stays incomplete if and only if the message does not fit into one chunk |
| Framing.OneChunkIsSentWhole | src/siros_verifier/ble.py:182-187 | The message [5] is one chunk, and dropping the tail drops nothing for any keep fraction: the peer completes it |
| Peripheral.Exchange.OnWrite | src/siros_verifier/ble_peripheral.py:93-101 | The write callback is one `Write` step: STATE_START resolves the start future once, Client2Server feeds the reassembler |
| Peripheral.Exchange.NotifySession | src/siros_verifier/ble_peripheral.py:157-160 | The notify loop appends exactly the framing of the session and leaves the last chunk as the characteristic's value |
| Peripheral.Exchange.OnResume | src/siros_verifier/ble_peripheral.py:143-164 | Resumption is one `Resume` step, notifying after the first wait and stopping the server after the second |
| Peripheral.Exchange.OnTimeOut | src/siros_verifier/ble_peripheral.py:145-165 | A timeout is one `TimeOut` step: it cancels the awaited future and enters the cleanup |
| Peripheral.NothingBeforeStart | src/siros_verifier/ble_peripheral.py:143-160 | In every run, anything notified comes after a STATE_START write and a later resumption |
| Peripheral.SuccessMeans | src/siros_verifier/ble_peripheral.py:142-172 | A successful run notified a framing that reassembles to the session, and returned the first complete message of all the peer's writes |
| Peripheral.LaunchedExactly | src/siros_verifier/ble_peripheral.py:103-143 | A run is still in setup if and only if nothing has ended the setup yet, and it is in setup or ended by a setup failure if and only if start() never returned first |
| Peripheral.StopsExactlyOnce | src/siros_verifier/ble_peripheral.py:142-165 | No run stops the server twice, and a finished run stopped it once if and only if start() had returned before any failure or cancellation of the setup |
| Peripheral.EndingsTell | src/siros_verifier/ble_peripheral.py:143-165 | No device or failed setup means nothing was sent; success or a response timeout means the whole session was |
| Peripheral.FinishedStays | src/siros_verifier/ble_peripheral.py:93-101 | Later events never change a finished run's outcome or notifications |
| Peripheral.PeerCannotFailARun | src/siros_verifier/ble_peripheral.py:93-101 | Without timeout, cancellation or a failing server call, no order of peer writes ends a run in anything but success |
| Peripheral.UndisturbedRunSucceeds | src/siros_verifier/ble_peripheral.py:142-172 | For every session, answer and peer chunk size, the undisturbed schedule returns the answer |
| Peripheral.EndingsAreCaused | src/siros_verifier/ble_peripheral.py:142-165 | Every ending has its event: no device and response timeout a timeout of that very wait, success a resumption of the second wait, and a cancellation or failure the corresponding event in the corresponding phase |
| Peripheral.TimeoutEndsTheWait | src/siros_verifier/ble_peripheral.py:145-165 | A timeout always ends its wait: with NoDevice and nothing sent before the session, with a response timeout after it, and the server is stopped |
| Inbox.DeliverConsistent | src/siros_verifier/ble_peripheral.py:98-101 | Every arriving chunk keeps the buffer and the response future in agreement with all chunks so far |
| Inbox.FirstMessageStays | src/siros_verifier/ble.py:117-120 | Later chunks never change the first complete message |
| Central.Exchange.OnAdvance | src/siros_verifier/ble.py:124-143 | Each awaited call's return is one `Advance` step of the transfer |
| Central.WritesInOrder | src/siros_verifier/ble.py:124-142 | Under every interleaving, the writes begun are a prefix of STATE_START, all chunks, STATE_END |
| Central.EndingsMean | src/siros_verifier/ble.py:122-152 | Success and response timeout have sent everything; success returns the first complete message; the client is left exactly once |
| Central.UndisturbedRunSucceeds | src/siros_verifier/ble.py:122-152 | For every session, MTU, answer and peer chunk size, the undisturbed schedule returns the answer |
| Central.EndingsAreCaused | src/siros_verifier/ble.py:122-142 | A success needs the wait to return, a response timeout a timeout while waiting, a cancellation a Cancel while connected, a transport failure a failing call |
| Central.WaitEnds | src/siros_verifier/ble.py:133-142 | Waiting, a timeout or a cancellation ends with just that, and once a message is complete the return of the wait succeeds with the first one |
| Central.StaleConnectionKeepsTheEnding | src/siros_verifier/ble.py:135-142 | A BleakError while writing STATE_END changes nothing about how the wait ended |
| Parsing.MsoFromCbor | src/siros_verifier/mdoc.py:117-140 | Succeeds exactly when valueDigests is a well-typed table and deviceKeyInfo a map, and copies the fields |
| Parsing.ParseItems | src/siros_verifier/mdoc.py:247-290 | Succeeds exactly when all items are good and distinct; elements then match items one for one, in order |
| Parsing.ItemsMapInjectively | src/siros_verifier/mdoc.py:247-290 | In a parsed document, element i of a namespace is what raw item i spells, and an injective map sends it to the entry of the MSO's table keyed by its digest id: none dropped, none invented, no entry hit twice |
| Parsing.ParseNamespaces | src/siros_verifier/mdoc.py:230-292 | Succeeds exactly when every namespace can be read, and keeps them in order |
| Parsing.NamespacesUnique | src/siros_verifier/mdoc.py:230-292 | A namespace map has at most one reading |
| Parsing.ParseDocument | src/siros_verifier/mdoc.py:295-327 | Succeeds exactly when the raw document describes a document, and returns that one, with the re-encoded device namespaces and the device authentication type |
| Parsing.ParseDeviceResponse | src/siros_verifier/mdoc.py:383-400 | Succeeds exactly when the plaintext describes a response, and returns that one |
| Provenance.Sign1Exactly | src/siros_verifier/mdoc.py:154-198 | A COSE_Sign1 is read, and as which issuerAuth, exactly as the message says: certificates of header 33 in sent order, all loading, signature checked under the first or not at all, MSO spelled by the payload |
| Provenance.MsoExactly | src/siros_verifier/mdoc.py:117-140 | An MSO is read from a map exactly when its fields are copied from it and its digest table is well typed |
| Provenance.ValidExactly | src/siros_verifier/mdoc.py:179-185 | The signature of a parsed document counts as valid if and only if the issuerAuth as sent is signed by the certificate it puts first; without certificates it is not checked |
| Provenance.ItemExactly | src/siros_verifier/mdoc.py:247-290 | An item is accepted, and as which element, exactly when the sent bytes carry id, at least 16 random octets, identifier and value, and the table lists its id; the digest verdict compares with that entry |
| Provenance.ElementsSaid | src/siros_verifier/mdoc.py:230-292 | Element i of a namespace of a parsed document is what item i of that namespace, as sent, says |
| Provenance.WindowExactly | src/siros_verifier/mdoc.py:478-497 | An MSO is acceptable exactly within the window opened by three dates that carry a UTC offset |
| Provenance.ErrorMapsExactly | src/siros_verifier/mdoc.py:405-427 | Error maps are valid exactly when they map texts, one or two levels deep, to integers of 64 bits and a sign |
| Validation.DocumentFaults | src/siros_verifier/mdoc.py:458-520 | Reports exactly the codes whose meaning applies to the document, in the fixed order and with the repetitions of `DocumentReport` |
| Validation.ValidateDeviceResponse | src/siros_verifier/mdoc.py:430-522 | A naive time is refused; otherwise the codes come in the order and number of `FailureReport`, a code is among them if and only if its meaning applies, and the list is empty if and only if the response is acceptable |
| Validation.AcceptedExactly | src/siros_verifier/mdoc.py:430-522 | No code applies if and only if envelope, documents, issuer, MSO, validity window, digests, device authentication, error maps and requests are all in order |
| Requests.RenderThenParse | src/siros_verifier/cli.py:40-46 | Rendering then parsing a well-formed DOCTYPE:NAMESPACE:CLAIMS gives it back |
| Requests.ParsedIsWellFormed | src/siros_verifier/cli.py:40-46 | Any accepted text yields a well-formed spec, and re-rendering it parses to the same spec |
| Requests.ReadsExactly | src/siros_verifier/cli.py:39-46 | A text is read as a spec if and only if it is its type, namespace and claims with any blanks around each claim and any blank pieces between |
| Requests.RefusedExactly | src/siros_verifier/cli.py:41-46 | A text has the wrong shape exactly with fewer than two colons, and no claims exactly when only blank pieces follow them |
| Requests.StripMeans | src/siros_verifier/cli.py:44 | Stripping removes blanks at the two ends and nothing else |
| Requests.ParseRequests | src/siros_verifier/cli.py:34-51 | Fails with the first unreadable flag's error; otherwise distinct document types and namespaces in first-seen order, claims concatenated in order; texts that spell a list of specs, padded or not, are read as the merge of that list |
| Requests.ListRoundTrip | src/siros_verifier/cli.py:34-46 | Rendering any list of well-formed specs and reading the flags gives that list and no other |
| Requests.SpelledOnce | src/siros_verifier/cli.py:39-46 | A list of flags reads as at most one list of specs, all well formed |
| Requests.FirstSeenInOrder | src/siros_verifier/cli.py:38-51 | Document types and namespaces stand in the order of their first occurrence |
| Requests.ClaimsConcatenate | src/siros_verifier/cli.py:50 | The claims of a namespace are those of its flags, one flag after the other |
| Merging.MergedDemandsExactly | src/siros_verifier/cli.py:47-51 | The merged requests demand exactly the (docType, namespace, claim) triples the flags name |
| Merging.MergingIsTransparent | src/siros_verifier/cli.py:34-51 | Merged requests accept exactly the responses that one request per flag accepts |
| Merging.OrderIsIrrelevant | src/siros_verifier/mdoc.py:450-462 | Order and repetition of flags never change acceptance |
| Merging.AnotherFlagOnlyShrinks | src/siros_verifier/mdoc.py:511-520 | One more flag for an already requested document type never admits a response refused before |
| DeviceRequest.BuildDeviceRequest | src/siros_verifier/mdoc.py:59-65 | The bytes are the encoding of version "1.0" and one tag 24 wrapped items request per merged request, every claim with intent to retain false |
| DeviceRequest.WireAsksWhatFlagsName | src/siros_verifier/cli.py:34-51 | Whoever decodes the DeviceRequest built from readable flags finds a request for exactly the triples the flags name, when the CBOR codec decodes what it encoded |
| DeviceRequest.NothingElseIsAsked | src/siros_verifier/mdoc.py:59-65 | The decoded DeviceRequest holds one ItemsRequest per document type, each namespace and each claim in it once, and nothing but false for intent to retain |
| Pdp.ReadBody | src/siros_verifier/trust.py:193-209 | However the body is split, it is returned exactly when it has at most 1 MiB and refused otherwise; never more than one octet past the limit is taken |
| Pdp.EvaluateRequest | src/siros_verifier/trust.py:178-221 | A reply that arrives whole gives exactly `Outcome`: which error, a denial or a permit; one that breaks fails; a permit needs endpoint, 2xx status, at most 1 MiB and an explicit decision |
| Pdp.PermitExactly | src/siros_verifier/trust.py:165-221 | A body is a permit if and only if it is strict JSON, an object, with the member "decision": true, and a denial if and only if that member is false; anything else is one of two errors |
| Pdp.StrictExactly | src/siros_verifier/trust.py:165-175 | Strict means that at no place of the tree, at any depth, an object names a member twice or a non-finite constant stands |
| Pdp.BuildAuthzenRequest | src/siros_verifier/trust.py:127-143 | Fails exactly for an invalid role or an empty chain; otherwise carries the leaf's identity, the chain in order, role and document type |
| Pdp.AuthorizeDocuments | src/siros_verifier/trust.py:224-231 | Succeeds exactly when every document can be asked about and is permitted; otherwise raises the error of the first that is not, which for an explicit denial is Denied with its document type; nothing is asked after it |
| ReadGate.AuthenticateDocuments | src/siros_verifier/cli.py:250-251 | Every document gets its own DeviceAuth verdict and nothing else changes, or no response does |
| ReadGate.Run.Finish | src/siros_verifier/cli.py:247-291 | Exit code 0 exactly when a response may be released, stdout then grows by its rendering only, and not at all otherwise; no PDP call before all local checks passed; a release with a PDP had, for every document, a 2xx answer of at most 1 MiB that is strict JSON with "decision": true |
| ReadGate.PermitsExplained | src/siros_verifier/trust.py:178-231 | Every permit on record stands for an answer that was an explicit permit |
| ReadGate.CheckedOnce | src/siros_verifier/cli.py:248-251 | A plaintext determines at most one checked response |
| Example.ReleaseIsPossible | src/siros_verifier/cli.py:247-291 | The conditions of a release are jointly satisfiable: a concrete response passes parsing, authentication and validation |
| Disclosure.EverythingShownIsBacked | src/siros_verifier/mdoc.py:273-281 | In an accepted response element i of a namespace, requested or not, is spelled by item i as sent in that document and namespace, and the digest of that very item is the MSO's entry under its supported algorithm |
| Disclosure.EverythingShownIsSigned | src/siros_verifier/mdoc.py:458-497 | Every document of an accepted response has an issuerAuth signed, as sent, by the first certificate sent with it, and is judged by the MSO that the signed payload spells, within its validity window |
| Disclosure.RequestedResolvesOnce | src/siros_verifier/mdoc.py:499-520 | Every requested triple resolves, in each document of that type, to exactly one element, and the item sent at its place backs it by the signed table |
| SafeText.UnescapeEscape | src/siros_verifier/display.py:37 | Escaped text can be read back character for character |
| SafeText.EscapeInjective | src/siros_verifier/display.py:37 | Different texts never look the same once escaped |
| SafeText.SafePrintableAndLinear | src/siros_verifier/display.py:32-48 | Rendered values hold only characters 0x20 to 0x7E, at most ten for each node, character or digit of the value, at any nesting |
| SafeText.NothingHidden | src/siros_verifier/display.py:32-48 | At any nesting, the text of a value holds the escaped texts of all its atoms and the numbers of its tags, whole, in order and without overlap |
| SafeText.IntTextReads | src/siros_verifier/display.py:33-36 | Every integer can be read back from its text, decimal or hexadecimal |
| Rendering.ToJsonable | src/siros_verifier/display.py:74-101 | The recursive conversion with its loops and early exit computes `Jsonable` |
| Rendering.MapKeepsEveryEntry | src/siros_verifier/display.py:89-96 | A map becomes an object with distinct names and one member per entry, or, exactly when two rendered keys coincide, an entry list of the same length and order |
| Rendering.NothingDropped | src/siros_verifier/display.py:74-101 | At every depth the JSON holds exactly what the value owes it, counted with repetition: every scalar, and every map key as a member name or, on a collision, with all the key itself owes; only excluded dataclass fields owe nothing |
| Rendering.HexBytesRead | src/siros_verifier/display.py:83-84 | The hexadecimal text of a byte string decodes to exactly that byte string |
| Rendering.SignedHexReads | src/siros_verifier/display.py:99-100 | The hexadecimal text of a large integer spells that integer, sign included |
| Rendering.ListKeepsOrder | src/siros_verifier/display.py:97-98 | A list becomes an array of its items' conversions, in order |
| Rendering.RecordKeepsOrder | src/siros_verifier/display.py:77-82 | A dataclass becomes one member per field that is not excluded, in order, under the field's name |
| Rendering.PlainMapIsObject | src/siros_verifier/display.py:89-96 | A map whose keys are all texts or all integers never falls back to an entry list; a text key is the member's name, and an integer key can be read back from it |
| Rendering.NeverDoubled | src/siros_verifier/display.py:74-105 | No object in the output, at any depth, names a member twice |
| Rendering.ExcludedNeverShows | src/siros_verifier/display.py:77-82 | Blanking every excluded dataclass field leaves the output unchanged |
| TextWriter.WriteDeviceResponse | src/siros_verifier/cli.py:423-468 | No type fault stops the loops over an accepted response; every namespace line is followed by one line per element, and the element lines of the whole text, read in order, are exactly the elements of the response; codes, device-signed items and validity have their lines as well |
| TextWriter.WriteNamespaces | src/siros_verifier/cli.py:434-438 | Namespace k has a start of its own, with its line there, a line for element i at i + 1 places after it, and the next start right behind |
| TextWriter.WriteDeviceNamespaces | src/siros_verifier/cli.py:440-445 | Fails exactly when the value is truthy and not a map of maps; otherwise every namespace has its start, line and items, as for elements |
| TextWriter.AcceptedIsWritable | src/siros_verifier/cli.py:427-466 | In an accepted response everything the writer takes for granted holds, and there is no device-signed item to print |

## Left out

- Bluetooth itself, scanning, MTU discovery, service registration, `connect_and_disconnect` and `rapid_reconnect_probe`: calls into BLE libraries.
- Exceptions raised inside the notify loop by the BLE server: the loop is modelled as the await-free step it is.
- Cryptography, CBOR encoding and X.509 parsing: parameters.
- `verify_device_auth` beyond its verdict: a parameter of the gate that may raise.
- Session setup and decryption before `parse_device_response`, and the SessionData status path: input to the gate.
- Exceptions that `run_read` does not catch: they end the program before anything is printed.
- Subject, issuer and dates of certificates, status names and algorithm names: display only.
- Python's equality of 1, True and 1.0 as dict keys: keys of different kinds are different here.
- PDP URL and bearer-token syntax: one Boolean. Base64 of the certificates: the certificate bytes stand for it.
- `format_value`, the fuzz scenarios, QR helpers and argument parsing: user interface.
- Python's recursion limit and floating-point rounding of the keep fraction, which is a real number here.
- Parsing.ParseDeviceResponse: states when parsing fails, not which error is raised, because `run_read` releases nothing for any of them.
- ReadGate.Run.Finish: takes the rendered text as a parameter; Rendering and TextWriter prove what the two renderers do.
- TextWriter.WriteDeviceResponse: leaves out the wording of the lines and the lines that only format a field; it treats every value that is not a whole number or a Boolean as a type fault in `code < 0`, although Python compares floats too; validated responses hold neither.
