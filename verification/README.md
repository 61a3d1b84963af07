# netdoc, modelled and proved in Dafny

netdoc diagnoses network endpoints. Most of it is probing, but it carries its own protocol engines: a
TLS 1.3 record layer and handshake reader, ClientHello and ServerHello parsers that fingerprint what they
read, concurrent sweeps, an NSEC3 and a DNSSEC verifier, and small codecs for SSH, BSON, Telnet and TLS 1.2
CBC records. This project models those engines and proves what each of them is for.

`dafny verify dfyconfig.toml` checks everything.

## How the model is built

- One module per source file or concern. Code that changes things step by step is a method with loops (or a
  class, where the source has an object), proved against a specification function or a declarative
  contract; the laws are lemmas about those specifications.
- `Frames` defines once what a walk over length-prefixed frames yields. TLS extensions and handshake
  messages are both such frames, so the reassembly loop, the ticket loop and all ClientHello and
  ServerHello readers are proved against the same walk.
- The crypto and library primitives (AEAD, HMAC, block cipher, SHA, RRSIG verification, DS digests, the
  network) are function-valued parameters. Where a law is needed it is a named predicate (`Lawful`,
  `LawfulHmac`, `LawfulCipher`, `IsSha1`): opening what was sealed, fixed output sizes, decryption undoing
  encryption.
- Goroutines, semaphores, wait groups and channels are transition systems. A schedule is a list of steps,
  and the theorems quantify over every schedule. The step count is exact, so "no schedule is longer" and
  "the end is reached only after all steps" are both statements of the model.
- Integers are unbounded in Dafny; each truncating conversion of the source is written out as `% 0x100` or
  `% 0x1_0000`, and the record counter wraps at 2^64. Exclusive-or is defined bit by bit on naturals.
- Where reader and writer, or code and specification, share a definition, a lemma states its meaning without it:
  the peer of the record layer, the receiver of a CBC record and the decoder of base32hex have layouts of their
  own, written from the standards, and whole messages are given octet by octet with the result they must have
  (`KnownHellos`, `KnownPolicies`, and the lemmas ending in `Octets`).
- Go strings are octet strings; `Text` has the ordering, sorting, joining, splitting and trimming the
  source takes from its library, over ASCII.

## Where a promised law fails, and exactly when

- JA4 filters GREASE from ciphers and extension types but not from the values of supported_versions, of
  signature_algorithms or of application_layer_protocol_negotiation. `GreaseAnywhere` says for which hellos
  removing all of it leaves the fingerprint as it is; `GreaseVersionShowsThrough`, `GreaseSchemesShowThrough` and
  `GreaseProtocolShowsThrough` are its three conditions. GREASE in the payload of any other extension is never read
  (`OtherPayloadsAreUnread`).
- A HelloRetryRequest is reported as one iff every key_share in it is as long as that of a ServerHello and for
  x25519 (`ParseRetry`). The key_share of a conforming one is the two octets of the selected group, so it is
  refused (`ConformingRetryIsRefused`), and the branch for retries in `tls13_handshake.go` line 98 is reached by
  no conforming one that has a key_share.
- A ServerHello whose last key share is empty reads as one without a key share, because appending nothing to
  a nil slice leaves it nil: one with a single x25519 share is parsed back iff the key is not empty or the
  random is that of a HelloRetryRequest (`ParseServer`), and the parser has a key iff the last share is not
  empty (`ReadersAgree`).
- The outer extension length of the probe's ClientHello is exact iff the name has at most 65439 bytes
  (`OuterPrefixExact`).
- The post-handshake ticket loop does not reassemble. The tickets of a ticket stream are seen iff no record
  ends inside one (`TicketsAreSeenIffUncut`; `SplitTicket` is the case of one ticket in two records), although
  the handshake loop before it handles every cut.
- The Telnet decoder looks for the first 0xFF 0xF0 and does not know that 0xFF is doubled inside a
  subnegotiation: decoding is exact iff no payload has anything after such a pair (`DecodingIsExact`).
- The lame-delegation consensus is taken by ranging over a Go map: it is a function of the votes iff no two
  serials tie for the most (`OrderFreeIffNoTie`), and on a tie a healthy server is lame under one iteration
  order and not under another (`WhoIsCleared`).
- The DNSSEC walk trusts the key sets it fetches and keeps one signature per answer. Beside it stands the chain
  of section 5 of RFC 4035: any signature over a set counts, and a key set is authentic when a key that an anchor
  or an authentic DS record speaks for signs it. What the walk accepts, the standard accepts iff no key set on
  the way is left unsigned by such a key (`AcceptedByTheWalk`). What the standard accepts, the walk accepts iff
  every zone is entered by a key with flags 257 and the last signature over every DS set and over the answer is
  a good one (`AcceptedByTheStandard`). Both failures occur (`UnsignedKeyValidates`, `SecondSignatureHides`), and
  on answers with one signature a set and entry by flags 257 alone only the first can (`OrdinaryAnswers`).
- An empty label inside a name makes its wire form undecodable (`WireIsDecodable`).
- The comment above `evaluateCSP` lists the star, data: or blob:, and http: on an HTTPS origin as items of 20
  each, has no excuse for unsafe-inline and none for a missing strict-dynamic, and charges for
  block-all-mixed-content; the code has one charge for all wildcards and scheme sources of the script list.
  `ChargedAsPromised` reads the comment literally: the penalties agree iff mixed content is blocked, strict-dynamic
  or nonces are used, and the comment counts exactly as many of its four items as the code charges wildcards. The
  code charges more iff the comment counts fewer, as for https: alone.

Two smaller differences never show. A salt with an odd number of hex digits would lose its last character
(`SaltIsExact` says exactly when a salt is accepted and when it is kept whole), but the DNS library writes
salts as whole octets. And the check for a missing nonce length in `parseNewSessionTicket` cannot fire, since
the body is already known to be longer; the model has no such error.

## Model

| member | source | states |
|---|---|---|
| Tls13Record.RecordProtector.Open | tls13_record.go:81-113 | opening is a function of keys, counter and record; the counter advances exactly when the AEAD accepted the record, whatever the inner plaintext turns out to be |
| Tls13Record.RecordProtector.Seal | tls13_record.go:118-138 | the record written is octet by octet the TLSCiphertext of section 5.2 of RFC 8446 for content and type under the current counter, with the nonce of section 5.3; the counter then advances by one modulo 2^64 |
| Tls13Record.StrippedInner | tls13_record.go:105-113 | the backward padding strip undoes padding of any length, for every nonzero inner type |
| Tls13Record.StrippedIsInner | tls13_record.go:105-113 | whatever the strip returns has a nonzero type and, padded again, is the input; an all-zero plaintext is refused |
| Tls13Record.SealOpens | tls13_record.go:81-138 | a record as any peer writes it by sections 5.2 to 5.4 of RFC 8446 opens to its content and type if and only if its type is nonzero and its ciphertext length fits the 16-bit field |
| Tls13Record.NonceIsPeers | tls13_record.go:68-73 | octet i of the nonce is octet i of the IV, exclusive-ored from octet 4 on with the octets of the sequence number, the highest first |
| Tls13Record.SealedIsPeers | tls13_record.go:118-138 | header, nonce, additional data and inner plaintext are those a peer computes from the standard alone |
| Tls13Record.NonceInjective | tls13_record.go:68-73 | two sequence numbers give the same nonce only when they are equal |
| Tls13Record.NoncesNeverRepeat | tls13_record.go:68-73 | no nonce is used twice within 2^64 consecutive records of one direction |
| Tls13Record.Lockstep | tls13_record.go:43-138 | over any run, with refused records in between and any zero padding, the opener returns every sealed content and type in order, and both counters agree at the end |
| Tls13Record.CounterCountsAuthenticated | tls13_record.go:81-113 | on arbitrary input the counter is the number of records the AEAD accepted, modulo 2^64 |
| Tls13Handshake.ReadPlaintextRecord | tls13_handshake.go:335-357 | reading one record consumes exactly that record, or what was looked at when it is refused |
| Tls13Handshake.ReadOctets | tls13_handshake.go:335-357 | five octets of header and a payload are read as that record, with nothing behind touched, if and only if the version is 3.3 or 3.1 and the length at most 16384 + 256 |
| Tls13Handshake.WriteRecord | tls13_handshake.go:359-367 | exactly one record, header and payload, is appended to what was written before |
| Tls13Handshake.ReadPlain | tls13_handshake.go:335-367 | reading inverts writing if and only if the payload is within 16384 + 256 bytes |
| Tls13Handshake.NextRecord | tls13_handshake.go:131-158 | one turn reads, reassembles the header and decrypts; only change_cipher_spec and decrypted records let the loop go on |
| Tls13Handshake.GatherOneMore | tls13_handshake.go:130-162 | reading one record more extends the decrypted stream, counter and unread input by exactly that record, or ends with its error |
| Tls13Handshake.ExtractMessages | tls13_handshake.go:164-182 | the inner loop moves exactly the complete messages to the transcript, leaves no complete message in the buffer, and sees the Finished wherever it is |
| Tls13Handshake.Reassemble | tls13_handshake.go:162-182 | feeding leftover plus the next piece yields the same messages and leftover as walking the longer stream at once |
| Tls13Handshake.DrainServerFlight | tls13_handshake.go:130-183 | on return the transcript and buffer are those of the whole decrypted stream; without error the Finished is in it and was not one record earlier; with an error no Finished had been seen |
| Frames.WalkConserves | tls13_handshake.go:164-182 | messages written plus the buffer left over are the bytes received |
| Frames.WalkConcat | tls13_hello.go:221-227 | any list of frames written back to back is read back exactly, with nothing left |
| Frames.FrontFrame | tls13_handshake.go:164-182 | at the front of a buffer an extension is two octets of type and two of length, a handshake message one and three, the highest octet first |
| Tls13Flight.GatherSent | tls13_handshake.go:130-162 | reading n of the server's sealed records collects exactly what they carry |
| Tls13Flight.OthersAreFatal | tls13_handshake.go:131-158 | a record in the clear that is neither change_cipher_spec nor application data ends the handshake, and so does a protected one that is not of type 22 |
| Tls13Flight.FlightPrefix | tls13_handshake.go:164-182 | of all prefixes of a flight only the whole one shows the Finished |
| Tls13Flight.FragmentationIndependence | tls13_handshake.go:130-183 | however a flight is cut into records, with change_cipher_spec records and padding anywhere, the transcript is the flight, the buffer is empty and the loop stops at the first record that completes it |
| Tls13Flight.FlightIsDrained | tls13_handshake.go:130-183 | for every flight and every cutting the loop does end without error, after at most all of the server's records, with the flight as its transcript |
| Tls13Tickets.WalkTickets | tls13_handshake.go:265-285 | one record contributes the maximum over its parseable tickets and whether it had a ticket at all |
| Tls13Tickets.BestIsMaximum | tls13_handshake.go:277-281 | the running value is attained and is an upper bound over all ticket bodies |
| Tls13Tickets.ReceiveTickets | tls13_handshake.go:236-292 | the verdict is the maximum over exactly the tickets the loop sees before it stops; 0-RTT is offered if and only if that is positive |
| Tls13Tickets.TicketsAreSeenIffUncut | tls13_handshake.go:236-287 | for any number of tickets cut into any fragments, with padding, application data and change_cipher_spec in between, the loop sees exactly those tickets if and only if no fragment ends inside one |
| Tls13Tickets.MessagesAreSeenIffUncut | tls13_handshake.go:265-285 | for messages of any types, walking each fragment on its own makes out exactly the messages sent if and only if no fragment ends inside one |
| Tls13Tickets.EveryTicketIsSeen | tls13_handshake.go:236-287 | among messages of any types in an uncut stream every ticket is seen, in order, and nothing else |
| Tls13Tickets.VerdictIsExact | tls13_handshake.go:236-292 | end to end, for tickets none of which is cut, the size reported is the largest that the last early_data extension (type 42, four octets or more) of some ticket holds, and 0 when none holds any |
| Tls13Tickets.VerdictOfWritten | tls13_handshake.go:236-292 | when each ticket carries its size, or none, as four octets under type 42 among extensions of other types, the size reported is the largest of them, and 0 when there is none |
| Tls13Tickets.AlertEndsTickets | tls13_handshake.go:256-262 | nothing behind an alert is looked at |
| Tls13Tickets.SplitTicket | tls13_handshake.go:265-285 | the case of one ticket in two records: seen if and only if the cut is at one of its ends |
| NewSessionTicket.EarlyDataIsLast | tls13_nst.go:80-99 | the size kept is that of the last extension of type 42 with at least four octets |
| NewSessionTicket.ReadEarlyData | tls13_nst.go:80-99 | the extension loop accepts or refuses, and finds, exactly what a walk over the extensions holds |
| NewSessionTicket.ParseNewSessionTicket | tls13_nst.go:32-101 | on all bytes the parser stays in bounds and returns the ticket or the error the layout of section 4.6.1 of RFC 8446 dictates |
| NewSessionTicket.ParseEncode | tls13_nst.go:32-101 | parsing inverts writing for every lifetime, age, nonce, ticket and extension list within the length fields, with the size the extensions grant |
| NewSessionTicket.LeftoverDecides | tls13_nst.go:80-99 | behind the last whole extension fewer than four octets are ignored, and a header with too little behind it is refused |
| NewSessionTicket.AnnouncedIsGranted | tls13_nst.go:80-99 | a size written as four octets under type 42 among extensions of other types is the size granted, and 0 is when none is written |
| NewSessionTicket.TicketOctets | tls13_nst.go:32-101 | a ticket given octet by octet parses to its lifetime, age, nonce, ticket and 16384 octets of early data |
| Ja4.ComputeFromClientHello | tls_ja4.go:117-248 | on all bytes the cursor loops compute the fingerprint of the version, cipher list and extension list found by one independent view of the message |
| KnownHellos.KnownClient | tls_ja4.go:117-248 | a ClientHello given octet by octet has the fingerprint written out: GREASE dropped, ciphers sorted, server_name and ALPN counted but not hashed, schemes in the order sent |
| Ja4Stability.Ja4IsStable | tls_ja4.go:117-248 | the fingerprint depends only on the non-GREASE ciphers and non-GREASE extensions up to order, when no non-GREASE extension type occurs twice |
| Ja4Stability.CipherInputExact | tls_ja4.go:214-220 | the cipher hash is fed equal strings if and only if the non-GREASE ciphers agree up to order |
| Ja4Stability.ExtensionInputExact | tls_ja4.go:222-246 | the extension hash is fed equal strings if and only if the hashed types agree up to order and the signature schemes agree in order |
| Ja4Stability.HashableCounts | tls_ja4.go:222-232 | types 0x0000 and 0x0010 are not hashed and every other type is, as often as it occurs |
| Ja4Stability.TwoDigitCounts | tls_ja4.go:304-315 | a count is shown in two decimal digits, 99 from 99 on |
| Ja4Grease.NameAndAlpnAreNotHashed | tls_ja4.go:222-246 | a server_name or ALPN extension added anywhere leaves the input of the extension hash as it is |
| Ja4Stability.GreaseVersionShowsThrough | tls_ja4.go:190-201 | for every list and legacy version, the version string is that of the best version without GREASE if and only if the list has no GREASE or that best version has no name anyway |
| Ja4Grease.GreaseSchemesShowThrough | tls_ja4.go:175-182 | the extension hash is fed what it would be fed without GREASE schemes if and only if there are none |
| Ja4Grease.CleanReads | tls_ja4.go:161-203 | an extension list cleaned of GREASE offers exactly the other schemes and versions, in order |
| Ja4Grease.GreaseAnywhere | tls_ja4.go:117-248 | removing GREASE from ciphers, extension types, versions, signature schemes and protocols leaves the fingerprint as it is if and only if there was none among the schemes, none among the versions unless the best other version has no name anyway, and the protocol found shows the same two characters without it |
| Ja4Grease.GreaseProtocolShowsThrough | tls_ja4.go:183-190 | of an ALPN extension the protocol component is what it would be without GREASE identifiers if and only if none stands first or the first other protocol begins and ends in its octet |
| Ja4Grease.OtherPayloadsAreUnread | tls_ja4.go:161-203 | what the payloads of all other extensions hold has no influence |
| Ja4Stability.FindPermuted | tls_ja4.go:161-203 | looking an extension up by type does not depend on the order of distinct extensions |
| ClientHello.BuildClientHello | tls13_hello.go:117-217 | the bytes written are the handshake header and the encoding of the probe's hello, for every random, session id, key and name |
| KnownHellos.KnownProbe | tls13_hello.go:117-217 | those bytes written out, for every random, session id, key and name |
| ClientHello.NestedPrefixesExact | tls13_hello.go:148-199 | every length prefix nested inside the extensions is the length of what follows it |
| ClientHello.OuterPrefixExact | tls13_hello.go:201-217 | a reader finds exactly the cipher and extensions written if and only if the name has at most 65439 bytes |
| ClientHello.ViewEncode | tls_ja4.go:117-156 | the JA4 parser recovers version, ciphers and extensions of every well-formed ClientHello |
| ClientHello.Ja4IsStableOnTheWire | tls_ja4.go:117-248 | two ClientHello messages of one version with the same non-GREASE ciphers and extensions up to order share a JA4, whatever their random, session id and compression |
| ClientHello.ProbePrefix | tls13_hello.go:117-217 | parsing the probe's own hello gives t13d010600 with a name and t13i010500 without |
| ServerHello.ParseServerHello | tls13_hello.go:251-345 | on all bytes the parser stays in bounds and returns version, random, cipher and the last x25519 key, an empty one counting as none, or the first error, as the layout of section 4.1.3 of RFC 8446 dictates |
| ServerHello.ParseServer | tls13_hello.go:251-345 | a ServerHello with one x25519 share is parsed back, whatever the session id, other extensions and trailing bytes, if and only if the key is not empty or the random is that of a HelloRetryRequest |
| ServerHello.LeftoverDecides | tls13_hello.go:309-340 | behind the last whole extension fewer than four octets are ignored, and a header with too little behind it is refused |
| KnownHellos.KnownServerParses | tls13_hello.go:251-345 | a TLS 1.3 ServerHello given octet by octet parses to its random, cipher and x25519 key, whatever stands behind it |
| ServerHello.ParseRetry | tls13_hello.go:251-345 | a message with the random of a HelloRetryRequest is reported as one if and only if every key_share in it has four octets, is for x25519 and holds the key length it names; it is refused otherwise |
| ServerHello.ConformingRetryIsRefused | tls13_hello.go:314-345 | a HelloRetryRequest whose key_share is the selected group alone, as section 4.2.8 of RFC 8446 has it, is always refused |
| ServerHello.ExtensionsRead | tls_alpn.go:263-277 | the extension reader recovers exactly the extensions a server wrote, whatever stands behind them, and nothing from any cut of the body |
| ServerHello.ReadersAgree | tls13_hello.go:251-345 | whenever the handshake parser succeeds the other readers return the same extension bytes and the same cipher, and it has a key if and only if a key share is listed and the last one is not empty |
| ServerHello.ExtensionPresent | tls_extensions.go:117-131 | the lookup succeeds if and only if the walk over the same bytes meets an extension of the type |
| ServerHello.CollectIds | tls_ja3s.go:50-66 | the identifier loop yields the types the walk meets, in order, with GREASE dropped when asked |
| ServerHello.ListsAgree | tls_ja4.go:72-85 | on any bytes the lookup, the JA3S list and the JA4S list tell one story: a type is found iff it is listed, and JA4S lists it as often as JA3S, or never when it is GREASE |
| ServerHello.DecimalUint16 | tls_ja3s.go:76-89 | filling the buffer backwards writes the decimal numeral of the value |
| ServerHello.ComputeJa3s | tls_ja3s.go:38-68 | version, cipher and the extension list of the message, or the zero record for a short body |
| ServerHello.RawIsInjective | tls_ja3s.go:38-68 | the JA3S string determines version, cipher and the ordered extension list |
| ServerHello.ComputeJa4s | tls_ja4.go:54-114 | the readable part and the hash input come from the same walk as JA3S |
| ServerHello.Ja4sKeepsOrder | tls_ja4.go:54-114 | JA4S is fed equal lists if and only if the non-GREASE extension lists are equal in order |
| KnownHellos.KnownServer | tls_ja4.go:54-114 | for that ServerHello JA3S and JA4S are written out: JA3S shows the version field, JA4S the selected version, the transport by the protocol and the extensions in the order sent |
| Batch.StepInv | batch.go:61-82 | no step of any worker or of the caller breaks the link between held slots, workers in flight and written results |
| Batch.Progress | batch.go:61-82 | some step is enabled exactly until the caller has returned |
| Batch.EverySchedule | batch.go:45-82 | under every schedule the semaphore stays within its capacity, a slot changes only by a step of its own worker and only while empty, a written slot holds its own target's result, the run ends after exactly 6n + 2 steps, and then the slots are the sequential map |
| Batch.CountUnhealthy | batch.go:97-135 | the counter is the number of results that failed or are unhealthy |
| Pool.Progress | tls_client_sim.go:365-392 | some step is enabled exactly until the caller has returned and every worker has left |
| Pool.EverySchedule | tls_client_sim.go:358-394 | under every schedule a filled slot holds its own job's result, nothing deadlocks, no run exceeds 5n + workers + 2 steps, and when the caller returns every slot is filled |
| Sweep.EverySchedule | cipher_enum.go:74-105 | under every schedule nothing is lost or duplicated on the channel, a running worker can always send, the run ends after exactly 7n + 3 steps, and the caller has received every candidate once |
| Sweep.CollectSupported | cipher_enum.go:97-104 | the caller keeps the classified rows of the supported candidates in the order received |
| Sweep.SupportedIs | cipher_enum.go:97-104 | each candidate adds its classified row exactly when it is supported, in its place |
| Sweep.CiphersAnyOrder | cipher_enum.go:74-105 | the cipher rows are the same multiset as those of a sequential sweep, under every schedule |
| Sweep.RestoreOrder | tls_alpn.go:88-100 | the protocols answered positively so far come out in registry order whatever order the results arrived in |
| Sweep.AcceptedIs | tls_alpn.go:88-100 | each protocol of the registry is listed exactly when it is accepted, in its place |
| Sweep.AlpnAnyOrder | tls_alpn.go:63-101 | under every complete schedule the ALPN sweep returns the accepted protocols in registry order |
| Nsec3.Partition | dns_nsec3.go:200-210 | for any increasing circular chain, down to one record, a hash outside it is covered by exactly one record and a hash in it by none |
| Nsec3.WholeChainDecides | dns_nsec3.go:97-108 | given the whole chain, some record covers the hash if and only if the hash is not in the chain |
| Nsec3.Prove | dns_nsec3.go:97-108 | the search returns the first record that covers the hash, lower-cased, or none when none does |
| Nsec3.CoversComparesDigests | dns_nsec3.go:200-210 | on encoded digests of one length the interval test compares the digests as octet strings |
| Base32Hex.EncodeKeepsOrder | dns_nsec3.go:141-142 | base32hex of equally long digests keeps their order and tells them apart (section 7 of RFC 4648) |
| Base32Hex.DecodeEncode | dns_nsec3.go:141-142 | a decoder written from the bit layout and alphabet of section 7 of RFC 4648 undoes the encoding |
| Base32Hex.DigitsOrder | dns_nsec3.go:141-142 | equally long digit strings are ordered as the numbers they write, in base 32 and base 256 |
| Nsec3.CanonicalNameWire | dns_nsec3.go:147-164 | the wire form is the lower-cased, length-prefixed labels and a zero; a label over 63 octets is refused |
| Nsec3.WireIsDecodable | dns_nsec3.go:147-164 | the wire form reads back as the lower-cased labels if and only if no label is empty |
| Nsec3.WireIsInjective | dns_nsec3.go:147-164 | two names have the same hash input if and only if their labels agree up to case |
| Nsec3.LabelsOfName | dns_nsec3.go:148-154 | the labels of a dotted name, with or without the final dot, are those it was joined from |
| Nsec3.HexDecodeOrEmpty | dns_nsec3.go:167-183 | decodes pairs of hex digits of the trimmed salt, empty for "" and "-", nothing when a looked-at digit is bad |
| Nsec3.SaltInvertsHex | dns_nsec3.go:167-196 | decoding undoes hex encoding in either case, for every salt |
| Nsec3.SaltIsExact | dns_nsec3.go:167-196 | a salt is accepted if and only if every character looked at is a hex digit, its octets are those digits, and it is kept whole if and only if its length is even |
| Nsec3.OddDigitIsDropped | dns_nsec3.go:173-181 | a trailing odd character is ignored, whatever it is |
| Nsec3.HashLoop | dns_nsec3.go:131-140 | the loop computes IH(salt, x, k) of section 5 of RFC 5155 for every iteration count; the first two hashes are written out |
| Nsec3.EachHash | dns_nsec3.go:131-140 | the first digest is that of the name with the salt behind it, each further one that of the digest before it with the salt behind it |
| Nsec3.Nsec3Hash | dns_nsec3.go:120-143 | the result is empty exactly for an unusable name or salt, otherwise the 32 characters of the encoded iterated hash |
| Tls12Crypto.Phash | tls_crypto.go:35-46 | the output has the requested length and starts every long enough concatenation of the recursive blocks of P_hash |
| Tls12Crypto.ShorterIsPrefix | tls_crypto.go:35-46 | a shorter output is a prefix of a longer one for the same secret and seed |
| Tls12Crypto.PHashBlocks | tls_crypto.go:35-46 | the first two blocks of the stream written out in terms of HMAC |
| Tls12Crypto.DeriveKeys | tls_crypto.go:70-82 | the four keys, in order and of 20, 20, 16 and 16 octets, tile the first 72 octets of the PRF stream of the master secret with the server random first |
| Tls12Crypto.FinishedVerifyData | tls_crypto.go:87-89 | the first 12 octets of the PRF stream for the transcript hash |
| Tls12Crypto.CbcInverts | tls_crypto.go:123-125 | CBC decryption undoes CBC encryption for any lawful block cipher and whole number of blocks |
| Tls12Crypto.CbcChains | tls_crypto.go:123-125 | each block of ciphertext is the encryption of its plaintext block exclusive-ored with the ciphertext block before it, the first with the IV |
| Tls12Crypto.MacInputOctets | tls_crypto.go:98-109 | the MAC input is, octet by octet, the eight of the sequence number, type, version, the 16-bit length of the content, and the content |
| Tls12Crypto.MacInputInjective | tls_crypto.go:98-109 | no two records with content under 2^16 octets share a MAC input |
| Tls12Crypto.EncryptRecord | tls_crypto.go:98-132 | explicit IV followed by the CBC encryption of content, MAC and padding |
| Tls12Crypto.ReceiverAccepts | tls_crypto.go:98-132 | the receiver of section 6.2.3.2 of RFC 5246, which spells out the header it authenticates from the length it recovered, finds whole blocks, valid padding and a valid MAC and returns the plaintext, if and only if it is under 2^16 octets |
| Ssh.BuildKexInit | service_ssh.go:241-285 | the packet is length, padding length, the KEXINIT payload of any ten lists, and zero padding |
| Ssh.PacketIsAligned | service_ssh.go:269-284 | the packet is a multiple of 8 octets and its padding is between 4 and 11 (section 6 of RFC 4253) |
| Ssh.PacketOctets | service_ssh.go:269-284 | the packet octet by octet: 32-bit length of what follows, padding length, payload, zeros; a name-list is its length and its octets |
| Ssh.ReadPacket | service_ssh.go:168-186 | reading one packet consumes exactly it, or reports a bogus length, oversized padding or early end |
| Ssh.ReadPacketBack | service_ssh.go:168-186 | a packet is read back, with nothing behind it touched, if and only if its length field is at most 2^18 |
| Ssh.FilterInPlace | service_ssh.go:226-233 | filtering into the array being read keeps exactly the trimmed non-empty parts, in order |
| Ssh.NamesOfJoin | service_ssh.go:222-234 | splitting undoes joining for every list of names without commas and white space |
| Ssh.ReadListsLoop | service_ssh.go:195-208 | the loop that advances the slice reads consecutive name-lists and reports truncation and overrun as the first bad one shows it |
| Ssh.ParseKexInit | service_ssh.go:191-220 | on all bytes, the first eight of ten lists behind the cookie, or the error of the first bad one |
| Ssh.KexInitRoundTrip | service_ssh.go:168-285 | for any ten lists of names within the packet limit, writing, reading and parsing gives back the first eight, name for name, each in its own field |
| Bson.ScanBsonFields | service_mongodb.go:160-242 | on all bytes the scan stays in bounds, terminates, and yields what a walk over the rest of the document yields |
| Bson.PieceOfItem | service_mongodb.go:186-238 | for every element of a handled type, whatever stands behind it, the type switch keeps the scalar's value or skips, and consumes exactly the element's octets |
| Bson.ScanInvertsEncoding | service_mongodb.go:160-242 | for every field list over the handled types and any trailing bytes, the scan holds exactly the last int32, string or bool of each name |
| Bson.ScanOfPrefix | service_mongodb.go:160-242 | for a document cut anywhere, the scan holds the last scalar of each name among the fields that arrived whole |
| Bson.ApplyAllKeepsLast | service_mongodb.go:160-242 | repeated map updates keep the last scalar of a name |
| Bson.BuildHelloBson | service_mongodb.go:138-155 | after the length is patched the bytes are the encoding of hello: 1 and $db: admin |
| Bson.HelloOctets | service_mongodb.go:138-155 | the command octet by octet |
| Bson.ReplyIsScanned | service_mongodb.go:160-242 | of a reply given octet by octet with one element of each of the ten types the scan holds the boolean, the number and the string, and nothing else |
| Bson.BuildMongoHelloMessage | service_mongodb.go:118-135 | the sixteen octets of the header (length 52, request 1, response 0, opcode 2013), zero flags, and a body from which the scanner reads the command back |
| Telnet.StripLoop | service_telnet.go:74-105 | on all bytes the cursor loop stays in bounds, always advances, and yields the octets that survive the recursive definition |
| Telnet.StripEncode | service_telnet.go:74-105 | any stream of data, negotiations, commands and subnegotiations decodes to its data octets and the leaked parts of payloads, in order |
| Telnet.DecodingIsExact | service_telnet.go:92-98 | decoding inverts encoding if and only if no payload has anything after an 0xFF, 0xF0 pair |
| Telnet.LeakExample | service_telnet.go:92-98 | a payload of 0xFF, 0xF0, 0x41 comes out as banner text |
| Telnet.BannerOctets | service_telnet.go:74-105 | a banner with negotiations, a command, an escaped octet and a subnegotiation, given octet by octet, decodes to its data |
| Telnet.StripMonotone | service_telnet.go:74-105 | a buffer cut short anywhere decodes to a prefix |
| Telnet.StripTelnetIac | service_telnet.go:74-115 | the banner is the printable part of the surviving octets with CR LF collapsed, trimmed |
| Telnet.BannerText | service_telnet.go:105-115 | which octets are text, what becomes of CR LF, and the trim, on a banner given octet by octet |
| Mtu.Sweep | mtu.go:47-58 | candidates are probed in order until one passes, and the failure before it is kept |
| Mtu.Bisect | mtu.go:63-75 | the result passed and is within 9 of a size that failed, using at most the halvings of the gap |
| Mtu.DetectPathMtu | mtu.go:41-76 | whatever the network answers, 0 means every candidate failed, anything else passed and is bracketed; the probe count is bounded by the list |
| Mtu.ThresholdIsFound | mtu.go:41-76 | on a path with threshold T the result is 0 below the smallest candidate, the ceiling at or above it, and otherwise at most T and at least T - 8 |
| Mtu.ShippedThreshold | mtu.go:20-76 | on the shipped list: 0 below 576, 1500 from 1500 on, and otherwise a size at most 8 below the threshold |
| Mtu.ShippedBudget | mtu.go:20 | the shipped list needs at most 6 sweep and 7 bisection probes |
| Csp.ParseCsp | csp_parser.go:45-64 | the policy groups the declared directives by lower-cased name, sources in order, and is the only one that does |
| Csp.ParsingConcat | csp_parser.go:45-64 | parsing a;b gives every directive the sources of a followed by those of b, and no other directive |
| Csp.DeclarationsOfRendering | csp_parser.go:45-64 | any list of directives, repeats included, is what its rendering declares, with the names in lower case |
| Csp.EvaluateCsp | csp_parser.go:157-352 | the findings are exactly the deserved ones, once each and in the order of the rubric; the score is 100 minus their weights 20, 15, 10, 5 plus bonuses 5, 5, 10, clamped to 0 to 100; strictness follows the score |
| KnownPolicies.ScriptWildcards | csp_parser.go:68-139 | scripts are charged for a wildcard if and only if a source of script-src, or of default-src in its place, is the star or one of seven bare schemes |
| KnownPolicies.ObjectSources | csp_parser.go:208-215 | objects are charged for if and only if no source of object-src, or of default-src in its place, is 'none' |
| KnownPolicies.CarelessIsCharged | csp_parser.go:157-352 | the eleven findings of a careless policy, with their severities and in order, and what they cost |
| KnownPolicies.CarefulIsCharged | csp_parser.go:157-352 | the one finding of a careful policy, and its score of 95 |
| KnownPolicies.Bonuses | csp_parser.go:320-328 | a nonce and a hash are worth 5 points each, strict-dynamic 10 |
| CspRubric.ChargedAsPromised | csp_parser.go:141-157 | for every policy with a directive and either origin the code charges what the comment lists, item by item, if and only if mixed content is blocked, strict-dynamic or nonces are used and the comment counts as many of the star, data: or blob:, http: and excused unsafe-inline as the code charges wildcards; it charges more if and only if the comment counts fewer |
| Csp.SortIsStable | csp_parser.go:347-350 | sorting orders by severity and keeps the order within each severity |
| Csp.SortedStays | csp_parser.go:347-350 | findings raised worst first are left as they are |
| DnssecChain.FetchDnskeys | dnssec_chain.go:199-222 | all keys of the answer and those with flags 257, or an error exactly when there is no key |
| DnssecChain.FetchSigned | dnssec_chain.go:226-284 | the records of the type with the last signature over it, or an error exactly when one of the two is missing |
| DnssecChain.VerifyRrsig | dnssec_chain.go:289-302 | succeeds if and only if some key with the signature's tag and algorithm verifies it |
| DnssecChain.MatchRootAnchor | dnssec_chain.go:306-337 | finds a key signing key that an anchor was published for, or there is none |
| DnssecChain.MatchDsToDnskey | dnssec_chain.go:341-364 | finds a key that one of the DS records digests, or there is none |
| DnssecChain.CheckChild | dnssec_chain.go:121-168 | a level is trusted if and only if the parent's keys vouch for its DS set and a KSK matches it; an untrusted level has a reason |
| DnssecChain.WalkZones | dnssec_chain.go:91-169 | the levels are a prefix of the zones, each trusted exactly when its link holds, only the last possibly not; the keys handed on are those of the last zone |
| DnssecChain.BrokenWalk | dnssec_chain.go:91-169 | a walk that stops early shows a link of the chain that does not hold |
| DnssecChain.ValidateDnssecChain | dnssec_chain.go:80-194 | for a name under a public suffix the levels are those of the root, the suffix and the name, from the first on; validated if and only if the root is anchored, its keys vouch for the suffix, the suffix's for the name and the name's for the address set; otherwise the reason is not empty |
| DnssecChain.ZonesAre | dnssec_chain.go:82-93 | the zones of a label under a suffix, with or without the final dot, are the root, the suffix and the whole name |
| DnssecStrict.AcceptedByTheWalk | dnssec_chain.go:91-194 | whatever the walk accepts, section 5 of RFC 4035 accepts if and only if no key set on the way is left unsigned by the keys an anchor or a DS record speaks for |
| DnssecStrict.AcceptedByTheStandard | dnssec_chain.go:213-302 | whatever section 5 of RFC 4035 accepts, the walk accepts if and only if every zone is entered by a key with flags 257 and the last signature over each DS set and over the answer verifies |
| DnssecStrict.VerdictAgainstStandard | dnssec_chain.go:80-194 | the verdict reported for any name, whatever the network answers, meets the standard under these two conditions, one for each direction |
| DnssecStrict.VerdictByName | dnssec_chain.go:80-194 | the same for a name under a public suffix, along the root, the suffix and the name |
| DnssecStrict.OrdinaryAnswers | dnssec_chain.go:80-194 | when each set has one signature and only keys with flags 257 are spoken for, the standard accepts exactly what the walk accepts with every key set signed |
| DnssecStrict.UnsignedKeyValidates | dnssec_chain.go:134-166 | there are answers that the walk accepts for every name and the standard does not, where each signature served is good only under keys that no anchor and no DS record served speaks for |
| DnssecStrict.SecondSignatureHides | dnssec_chain.go:226-284 | there are answers that the standard accepts for every name and the walk refuses, because a second signature stands behind the good one |
| LameDelegation.CountVotes | dns_lame.go:62-67 | the map holds the tally of every serial that an authoritative server gave, zero excepted, and nothing else |
| LameDelegation.Consensus | dns_lame.go:68-75 | for any iteration order, the first serial it meets among those with the most votes, and no other value is that |
| LameDelegation.CanWinExactly | dns_lame.go:68-75 | the possible consensus values are the serials with the most votes, or 0 when nobody voted |
| LameDelegation.OrderFreeIffNoTie | dns_lame.go:68-75 | the consensus is independent of the iteration order if and only if no two serials tie |
| LameDelegation.WhoIsCleared | dns_lame.go:77-93 | a healthy server is cleared under some order iff its serial has the most votes, under every order iff no other has as many; otherwise the reason is the mismatch of the two serials |
| LameDelegation.FlagLame | dns_lame.go:60-95 | each result keeps its measured fields and gets the verdict for the consensus; a server that is unreachable, not authoritative or without a serial is lame whatever the consensus, for the first of these reasons; nothing else changes |

## Left out

- The checks on one signature and one key that the DNS library makes (validity times, signer and owner names, the Zone flag; section 5.3.1 of RFC 4035): they are the verify parameter, for the walk and for the standard alike.
- Sockets, timeouts, deadlines, retries and the dial parts of every probe: replaced by byte streams, event lists and oracles.
- Write errors of the connection and the error paths of key generation.
- The cryptographic primitives, the key schedule and the transcript hash: parameters with laws; the transcript is the byte sequence fed to the hash.
- The client Finished, the sealed HTTP request and the text of the notes after the ticket loop.
- JARM, the cipher registry tables, `classifyCipher` and the names of algorithms: tables without a second side.
- Panics: where Go would panic on a nil or out-of-range access the model proves that it does not happen.
- Unicode: case mapping, white space and folding are ASCII; non-ASCII host names and headers are compared octet by octet.
- Escaped dots inside DNS names, the library's canonicalisation before `canonicalNameWire`, and the public suffix list, which is a parameter.
- SliceStable, sort.Strings, strings.Split, strings.Fields and the other library routines are specified, not taken from the library's code.
- Suggestion and issue texts of CSP findings and the rendering of lame-delegation reasons and DNSSEC algorithm names: enumerations and numbers instead of strings.
- History files, JSON output and banners of the batch runner; only its fan-out and its unhealthy count are modelled.
- The wait for the semaphore in the sweeps is modelled for a capacity of at least one, as the source uses.
- `probeNSEC3Proof` around the search: record collection from the response and the status names.
- TLS 1.2 hello builders of the ALPN and extension probes, and the JA4S headline.
- Pool.EverySchedule: bounds the number of steps from above only, because workers that are still leaving after the caller has returned may or may not have taken their last step.
- Tls12Crypto.ReceiverAccepts: the receiver is the RFC's algorithm on values; timing of the padding check is not modelled.
