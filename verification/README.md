# Aerion: a verified model of the proxy core

Aerion is a proxy core written in Rust. This project models the parts of it that are protocols and
codecs rather than plumbing, and proves what they are for. `dafny verify dfyconfig.toml` checks
everything.

| files | what they model |
|---|---|
| `MieruSequence`, `MieruSendWindow`, `MieruReceiver`, `MieruTransport`, `MieruHistory` | the Mieru reliable UDP transport: send window, receiver with its byte budget, both ends over a network that drops, duplicates and reorders, and what the fields of both ends say about the events so far |
| `ClientHello`, `RealityParser`, `Reality` | the ClientHello a REALITY client prints, the server's own reader of it, and authentication end to end |
| `TlsRecords`, `FlushProgress`, `RealityCertificate` | the TLS 1.3 record layer of the REALITY client, its flush accounting, and the certificate patched by the server and read by the client |
| `Padding`, `AnyTls` | AnyTLS frames, padding schemes, the padded frame writer and vectored writes |
| `Varint`, `UdpFragments`, `Hysteria2`, `Naive`, `Targets`, `Uot` | Hysteria2 datagrams and fragments, the Naive padded stream, UDP over TCP |
| `AnyTlsServer` | the AnyTLS server's frame loop, and UDP over TCP through it |
| `ProxyCore`, `Quota`, `ReplayCache` | users, sessions and hot replacement of the user list, traffic quota under interleaving, the replay cache |
| `Jsonc` | stripping comments from JSON |
| `Common`, `BigEndian` | shared byte-string and integer helpers |

The in-place code of the original (windows, buffers, maps, ciphers, writers, readers) is a class or a
method with loops, each proved equal to a function on values; the laws are lemmas about those
functions. Protocols between two parties are step systems, and their laws hold in every state of
every run. Fields that decide what happens next (windows, counters, flags, maps) are tied to the history
of events that made them, and wire formats to the number at each place, apart from the functions that
compute them. Cryptography, UTF-8 validation, random numbers, clocks, the Mieru path transfer unit and
per-item overhead, and the congestion window are parameters; of the cryptographic functions only their
lengths, that opening undoes sealing and that key agreement commutes are used.

Some laws one would expect are not true of the code as it stands. The model keeps the code's
behaviour and says exactly where the law holds:

- A padded session is transparent to the reader, at every point and whatever follows, if and only if
  the padding of each write taken alone is waste frames of stream 0 up to its last byte
  (`TransparentExactly`, and `SeenExactly` for one write). For a single waste frame that means that its
  length divided by 65536 is a multiple of seven (`HarmlessExactly`): the length field is 16 bits, and nothing bounds the sizes of a scheme. A scheme
  that asks for 70000 bytes loses the frame written next (`OversizedPaddingLosesFrames`).
- The UDP-over-TCP uplink ends if and only if some chunk does not fit its 65536-byte buffer beside what
  is left over before it (`ChunkingMattersOnlyByLimit`, `UplinkSendsPackets`). Packets can be cut so
  that they get through if and only if none is longer than the buffer when encoded
  (`DeliverableExactly`); the longest datagram to an IPv4 address is eight bytes too long
  (`LongestDatagramIsRefused`).
- A ClientHello split over records is reassembled if and only if its 4-byte header is not split
  (`ReassembledExactly`).
- A target read back equals the one written if and only if it is not an IPv4-mapped IPv6 address
  (`TargetUnchanged`).
- From a new key, no two TLS records share secret and nonce if and only if no two of the secrets that
  seal a record are the same (`NoncesUniqueExactly`); the key derivation alone does not promise that.
- A Mieru acknowledgement a whole sequence cycle old passes for a new one (`WholeCycleOldAckIsAccepted`),
  and so does a data packet (`TooOldIsTakenForNew`, `WholeCycleOldPacketIsDelivered`). The transport
  theorems ask that packets are less old than that.
- At the end of the stream the Naive reader fails while chunks are still padded, and returns nothing
  only afterwards (`ReadGivesNext`).

## Model

| member | source | states |
|---|---|---|
| MieruSequence.WireDistance | src/mieru.rs:1794 | wrapping subtraction of two wire numbers is the real distance of the unbounded numbers they stand for, when those are less than a cycle apart |
| MieruSendWindow.AcceptsCircularRange | src/mieru.rs:1794-1797 | the two half-circle tests accept an ACK exactly if it lies in the circular range from the last ACK to the next sequence number |
| MieruSendWindow.AcceptsUnbounded | src/mieru.rs:1794-1797 | on unbounded numbers: of all ACKs less than a cycle old exactly those not behind the last one are accepted |
| MieruSendWindow.WholeCycleOldAckIsAccepted | src/mieru.rs:1794-1797 | the bound on the age is needed: an ACK a whole cycle old is accepted |
| MieruSendWindow.RemainingInterval | src/mieru.rs:1814-1828 | an ACK removes exactly the circular interval from the last ACK up to it, across wrap-around, and leaves an interval |
| MieruSendWindow.RemovePrefix | src/mieru.rs:1814-1828 | the loop over the front of the map removes what a scan of the whole map would, and counts it |
| MieruSendWindow.AckKeepsWindow | src/mieru.rs:1787-1861 | after any ACK the unacknowledged segments are exactly the interval from peer_ack to next_seq, at most 1024 wide, with the recovery point and fast-retransmit flag inside it |
| MieruSendWindow.RecoveryPoint | src/mieru.rs:1829-1840 | the half-circle test on the recovery point means that the ACK has not reached it |
| MieruSendWindow.SendKeepsWindow | src/mieru.rs:1782-1785 | a segment sent when can_send allows it has a fresh number and keeps the window an interval of at most 1024 |
| MieruSendWindow.RetransmitKeepsWindow | src/mieru.rs:1973-1991 | the segment picked for retransmission is always the one numbered peer_ack |
| MieruSendWindow.OldestSeq | src/mieru.rs:1902-1903 | the two-step lookup finds the key nearest to a number going round the circle, for any set of keys |
| MieruSendWindow.PacketSendWindow.Ack | src/mieru.rs:1787-1861 | the in-place update equals the scan-based specification, returns the number of segments removed and keeps the window invariant; what the fields then say is `MieruHistory.RunTells` |
| MieruSendWindow.PacketSendWindow.OnRetransmit | src/mieru.rs:1867-1873 | a retransmission opens recovery once and clears the fast-retransmit flag |
| MieruReceiver.PacketsInIsQuotient | src/mieru.rs:278-288 | the packet count behind the advertised window is the quotient of free bytes and packet size |
| MieruReceiver.WindowIsRoom | src/mieru.rs:278-288 | the advertised packets fit the free bytes and, with the reordered ones, the window size of 1024, and one more would not |
| MieruReceiver.ReserveExact | src/mieru.rs:296-312 | a reservation succeeds exactly when payload, overhead and (for reordered packets) headroom fit; 32-bit wrap-around never lets one through |
| MieruReceiver.DrainFacts | src/mieru.rs:2184-2191 | draining the reorder map conserves permits, only appends to what was delivered and stops exactly at the next hole |
| MieruReceiver.DrainExact | src/mieru.rs:2184-2191 | every buffered segment the run reaches is delivered at the place its number says, and every other stays as it was |
| MieruReceiver.RouteExactly | src/mieru.rs:2167-2225 | what every arriving segment does, by numbers: the head is delivered exactly if it fits, with the run behind it; one ahead and inside the window is buffered exactly if the headroom stays free; a repeated, old, far or unaffordable one changes nothing; an ACK for all delivered is queued every time |
| MieruReceiver.RouteKeepsInv | src/mieru.rs:2167-2225 | whatever segment arrives: permits free and held add up to the session budget, the reorder map never eats the headroom, its keys stay strictly inside the window, the window is never stale |
| MieruReceiver.ReadKeepsInv | src/mieru.rs:680-735 | reading any number of bytes keeps all that, and a window told to be closed reopens only with an ACK queued |
| MieruReceiver.AdvertiseKeepsInv | src/mieru.rs:290-294 | sending an ACK keeps it too |
| MieruReceiver.HeadAlwaysAccepted | src/mieru.rs:296-312 | no reorder deadlock: once the reader has drained, the missing head packet up to the largest size is delivered, however full the reorder map is |
| MieruReceiver.SessionReceiver.RouteSegment | src/mieru.rs:2167-2225 | the in-place handling of a segment equals the specification and keeps the invariant |
| MieruReceiver.SessionReceiver.DeliverRun | src/mieru.rs:2182-2191 | the delivery loop equals draining, one buffered segment after the other |
| MieruReceiver.SessionReceiver.ReadSome | src/mieru.rs:680-735 | a read returns the next bytes and frees the permits of a payload exactly when it is read out |
| MieruTransport.StepInv | src/mieru.rs:1876-2086 | every step of sender, receiver or network keeps the end-to-end invariant, and never takes back anything delivered |
| MieruTransport.ReliableDelivery | src/mieru.rs:1876-2225 | in every state of every run over a network that drops, duplicates and reorders: delivered are exactly the first segments, once each and in order; peer_ack, next expected and next sent are ordered; bytes read are a prefix of bytes queued; a segment leaves `unacked` only after delivery |
| MieruTransport.DeliveryOnlyGrows | src/mieru.rs:2167-2225 | between any two states of a run the earlier delivery is a prefix of the later one |
| MieruTransport.CloseLosesNothing | src/mieru.rs:1911-1920 | when a closing session lets go, every byte queued was delivered |
| MieruTransport.ProgressIsPossible | src/mieru.rs:1973-2030 | no deadlock in any state of any run: with anything unacknowledged and a drained reader, two enabled steps advance one end: an ACK sent now, or the oldest segment resent and received; resending is enabled exactly while the attempt limit is not reached |
| MieruTransport.HandleAckExact | src/mieru.rs:1787-1828 | an ACK from the network moves the unbounded ACK number to exactly the larger of the two |
| MieruTransport.Recognised | src/mieru.rs:2180-2196 | a wire number is taken for head, future or old exactly as its unbounded number is, for packets less than a cycle old |
| MieruTransport.TooOldIsTakenForNew | src/mieru.rs:2180-2196 | the age bound on data packets is exact: of packets at most a cycle old exactly those beyond it are taken for ones to come |
| MieruTransport.WholeCycleOldPacketIsDelivered | src/mieru.rs:2180-2196 | and needed: a packet a whole cycle old is delivered in place of the segment that is due |
| MieruTransport.SegmentTakesFront | src/mieru.rs:1993-2030 | cutting a segment off the queue takes the front bytes and leaves the rest |
| MieruHistory.RunTells | src/mieru.rs:1787-1873 | in every state of every run the send window says what happened: its window is the one told by the last ACK that counts, its repeat count, recovery point, fast-retransmit flag and attempts are those of the events so far |
| MieruHistory.TransmitExactly | src/mieru.rs:1782-1785 | in every run a segment may go out if and only if the session is open, something is queued, and fewer are in flight than the congestion window, the window last told, and 1024 |
| MieruHistory.ZeroWindowStops | src/mieru.rs:1798 | a window of zero stops new segments until the next ACK that counts |
| MieruHistory.UrgentExactly | src/mieru.rs:1799-1840 | a fast retransmission becomes due exactly at the third ACK in a row that asks for a segment sent once, or at a partial ACK in recovery for one, and stays due until that segment is resent or acknowledged |
| MieruHistory.UrgentHead | src/mieru.rs:1973-1991 | while it is due the segment to resend is there, sent once |
| MieruHistory.SegmentsFull | src/mieru.rs:1993-2030 | a new segment has the longest size the path takes, or ends the write it is cut from, or is the client's open segment alone in front of a write that is too long for it |
| MieruHistory.SegmentsFit | src/mieru.rs:1993-2030 | in every run no packet is longer than the path takes, the open segment is at most 1024 bytes, and a later segment is empty only after an empty write |
| MieruHistory.AcksTellRoom | src/mieru.rs:278-294 | every ACK is for all that was delivered and tells a window of longest segments that fit, one more of which would not |
| MieruHistory.AckQueuedExactly | src/mieru.rs:2167-2225 | an ACK is queued exactly if since the last one a segment arrived or reading opened a closed window |
| ClientHello.EveryProfileHasRequired | src/client_hello.rs:218-322 | every fingerprint's profile has the extensions a REALITY server needs |
| ClientHello.Shuffle | src/client_hello.rs:580-585 | the in-place shuffle is Fisher-Yates on the random bytes |
| ClientHello.FisherYatesPermutes | src/client_hello.rs:580-585 | which gives a permutation for all random bytes |
| ClientHello.EveryOrderComesOut | src/client_hello.rs:580-585 | and every permutation of up to 256 elements for some |
| ClientHello.ShuffleExtensions | src/client_hello.rs:587-606 | the needed extensions go first in their own order, the others follow shuffled, and none is lost |
| ClientHello.ShuffledHasRequired | src/client_hello.rs:587-606 | no permutation loses a needed extension |
| ClientHello.EncodeExtensions | src/client_hello.rs:372-447 | the loop gives the concatenated encodings, or an error as soon as one does not fit |
| ClientHello.TypesPrinted | src/client_hello.rs:342-370 | the printed extensions, read off one by one, have exactly the types the fingerprint lists, in its order |
| ClientHello.ContentsRead | src/client_hello.rs:372-447 | what each extension holds, read off its payload: name, groups, signature algorithms, protocols, versions and key share of the profile, behind true lengths |
| ClientHello.HelloLayout | src/client_hello.rs:105-204 | the hello byte by byte: record and handshake headers with true lengths, version, random, session id, cipher suites with GREASE in front, no compression, the extensions |
| RealityParser.ParseClientHelloPrefix | src/reality.rs:478-537 | the nested loops over records equal the recursive scan, which answers whole, wait for n bytes, or malformed |
| RealityParser.Reassembles | src/reality.rs:478-537 | from any point of any split into records, with empty records anywhere, the rest of the message is collected exactly |
| RealityParser.SplitHeaderIsRefused | src/reality.rs:502-514 | a first payload shorter than the header is refused, whatever records precede or follow it |
| RealityParser.ReassembledExactly | src/reality.rs:478-537 | a message split over records comes back byte for byte if and only if its header is whole, and is refused otherwise |
| RealityParser.WaitsForMore | src/reality.rs:478-537 | on every strict prefix of the records the reader asks for more, never for more than is coming |
| RealityParser.ParseClientHello | src/reality.rs:547-650 | the offset-based reader equals the recursive one on every input, errors included |
| RealityParser.ExtensionsSound | src/reality.rs:552-650 | whatever list of extensions is accepted is whole extensions to the last byte, and what is noted are the last name, versions and key share of it |
| RealityParser.NameIsThere | src/reality.rs:652-684 | a name that is read is the host name of an entry of the list |
| RealityParser.HelloSound | src/reality.rs:547-650 | whatever is accepted is a ClientHello as section 4.1.2 of RFC 8446 lays it out, with a 32-byte session id and TLS 1.3 among its versions |
| RealityParser.ParsePeerPublicKey | src/reality.rs:705-739 | the key-share loop picks an X25519 entry, or else the tail of a hybrid one, on every input |
| Reality.ServerNameRead | src/reality.rs:652-684 | the server reads the name the client printed |
| Reality.VersionsRead | src/reality.rs:686-703 | the server sees TLS 1.3 offered, with and without GREASE |
| Reality.KeyShareRead | src/reality.rs:705-739 | the server picks the client's key, past any GREASE entry |
| Reality.HybridShareRead | src/reality.rs:705-739 | from a share with a hybrid entry alone the X25519 key is read: first 32 bytes in the Kyber draft group, last 32 in the ML-KEM one |
| Reality.ExtensionsRead | src/reality.rs:552-650 | any list of printed extensions in any order is read back as exactly what it holds |
| Reality.SameAdditionalData | src/reality.rs:348-349 | zeroing the session id of what arrived gives exactly the additional data the client sealed under |
| Reality.ServerParses | src/reality.rs:547-650 | from a printed hello the server recovers name, random, session id and key share |
| Reality.ServerOpens | src/reality.rs:326-399 | the server derives the client's key and opens the session id, and lets the client in if and only if name and short id are listed and version and clock are within the limits |
| Reality.AuthenticateSound | src/reality.rs:326-399 | nobody else gets in: whoever authenticates, from any bytes, names a listed server and short id, is within the limits as numbers, and its session id opens under the key agreed with its own key share, with the hello as additional data |
| Reality.RealityCompleteness | src/reality.rs:185-399 | whenever a hello builds for the server's key, the server reassembles it and lets the client in if and only if name and short id are listed and the limits are kept, recovering key, version, time and short id |
| Reality.EveryFingerprintAuthenticates | src/client_hello.rs:105-204 | with no limits set, for every fingerprint, shuffle, ALPN list and GREASE value exactly the listed clients are let in |
| TlsRecords.BuildNonce | src/reality_tls_client.rs:1233-1240 | the in-place exclusive-or of iv and record number equals its definition, which `TlsRecords.NonceByNumber` pins by number |
| TlsRecords.XorIsBitwise | src/reality_tls_client.rs:1236-1238 | exclusive-or sets a bit exactly if it is set in one of the two |
| TlsRecords.NonceByNumber | src/reality_tls_client.rs:1233-1240 | the first four bytes are the iv's, and taking the iv off the last eight gives the record number in network byte order (section 5.3 of RFC 8446) |
| TlsRecords.NonceInjective | src/reality_tls_client.rs:1233-1240 | under one iv different record numbers have different nonces (section 5.3 of RFC 8446) |
| TlsRecords.OpenUndoesSeal | src/reality_tls_client.rs:1088-1136 | content type and plaintext come back, even a plaintext ending in zeros (section 5.2 of RFC 8446) |
| TlsRecords.PaddedRecordsOpen | src/reality_tls_client.rs:1110-1136 | a record sealed as section 5.2 of RFC 8446 says, header as additional data, any zeros after the type, comes out with type and plaintext; zeros alone have no type |
| TlsRecords.PostsHandled | src/reality_tls_client.rs:419-453 | tickets are passed over and each KeyUpdate moves to the next secret, in any mixture in one record |
| TlsRecords.OnlyPostsAccepted | src/reality_tls_client.rs:419-453 | nothing else is accepted: tickets and well-formed KeyUpdates, whole |
| TlsRecords.UpdateHandled | src/reality_tls_client.rs:419-453 | a KeyUpdate moves the receiver to the next secret at sequence 0 and is answered exactly if asked for |
| TlsRecords.OneRecord | src/reality_tls_client.rs:325-356 | one record of data, tickets or KeyUpdate leaves both ends on the same secret and sequence number; an alert ends the reader, as closed for close_notify and as failed otherwise |
| TlsRecords.Lockstep | src/reality_tls_client.rs:325-356 | for every interleaving of data, tickets, KeyUpdates and alerts both ends agree on secret and sequence at the last record read; exactly the data before any alert is delivered in order, and nothing after (sections 4.6.3, 6 and 7.2 of RFC 8446) |
| TlsRecords.LockstepAtEveryPoint | src/reality_tls_client.rs:419-487 | the same after every prefix of the records in which no alert was sent |
| TlsRecords.SecretIsEpochs | src/reality_tls_client.rs:472-487 | the secret in use depends on the number of updates alone |
| TlsRecords.NoNonceReuse | src/reality_tls_client.rs:1088-1108 | two records of a run share secret and nonce only if updates lie between them and the secrets derived for them are the same |
| TlsRecords.NoncesUniqueExactly | src/reality_tls_client.rs:1138-1148 | from a new cipher, for every run: secret and nonce never repeat if and only if no two secrets that seal a record are the same |
| TlsRecords.RecordCipher.EncryptRecord | src/reality_tls_client.rs:1088-1108 | the record is the header and the sealed plaintext, and the sequence moves by one; too long a plaintext changes nothing |
| TlsRecords.RecordCipher.DecryptRecord | src/reality_tls_client.rs:1110-1136 | exactly what opens is returned, and the sequence moves exactly if the cipher accepted the record |
| TlsRecords.RecordCipher.ReplaceKey | src/reality_tls_client.rs:1138-1148 | both ends' key update: next secret, sequence 0 |
| RealityCertificate.ReadDerElement | src/reality.rs:797-822 | the length loop equals the value of the length bytes, on every input |
| RealityCertificate.ElementUnmoved | src/reality.rs:797-822 | bytes after an element's header do not move it |
| RealityCertificate.SpkiUnmoved | src/reality_tls_client.rs:905-919 | nor the SubjectPublicKeyInfo found by skipping elements |
| RealityCertificate.FindSpkiLoop | src/reality_tls_client.rs:905-919 | the skipping loop finds the element that five recursive skips find, on every input |
| RealityCertificate.CertificateRead | src/reality_tls_client.rs:842-919 | from every certificate of the X.509 shape with an Ed25519 key, version given or not, lengths in any form, the client reads that key and signature and the server finds the place of the signature |
| RealityCertificate.PatchedCertificateReadsBack | src/reality.rs:289-302 | overwriting the signature of a template both ends accept leaves every boundary where it was: same public key, and as signature what was written |
| RealityCertificate.CertificateAgreement | src/reality_tls_client.rs:829-919 | the client accepts the server's certificate exactly when both ends' keys give the same HMAC, and then learns the server's public key |
| FlushProgress.RunKeepsInv | src/reality_tls_client.rs:105-138 | in every interleaving of atomic accesses the byte count is the bytes accepted minus those subtracted, plus what a write in progress has counted too early |
| FlushProgress.PendingCovers | src/reality_tls_client.rs:105-138 | the count never underflows and covers every accepted byte not yet on TCP |
| FlushProgress.FlushExactly | src/reality_tls_client.rs:122-138 | a flush succeeds exactly if the pump is done with every accepted byte, and then TCP has them all; it fails exactly if bytes are pending and the pump has ended |
| FlushProgress.WokenExactly | src/reality_tls_client.rs:17-33 | a flush is woken exactly by a wake-up after its own registration, and its waker is in place until then |
| FlushProgress.NoLostWakeup | src/reality_tls_client.rs:17-33 | a flush that returned Pending was woken, or its waker is in place and the pump is not blocked on its way to firing it |
| FlushProgress.PumpStepsTowardWakeup | src/reality_tls_client.rs:392-414 | each pump step brings that wake-up nearer or delivers it |
| Padding.RecordPayloadSizes | src/padding.rs:131-150 | the loop draws what the scheme allows for the packet |
| Padding.DrawnExactly | src/padding.rs:131-150 | a list of sizes can be drawn if and only if it has a size for each rule of the first entry for the packet, a checkpoint as such, a range from its lower end to below its upper end |
| Padding.DrawnSizesFit | src/padding.rs:131-150 | a size is a checkpoint or positive, and fits 16 bits if the scheme's ranges do |
| AnyTls.FrameReadBack | src/protocol.rs:278-300 | a frame is read back whatever follows it |
| AnyTls.FrameReadExactly | src/protocol.rs:278-300 | a frame is read if and only if the stream starts with its encoding |
| AnyTls.FrameLayout | src/protocol.rs:366-373 | command, stream and length in network byte order, and the payload |
| AnyTls.FramesOfPrefix | src/protocol.rs:278-300 | the frames of a partial stream are a prefix of all frames |
| AnyTls.EmitIsPacketThenWaste | src/protocol.rs:155-219 | cutting at any sizes moves no byte: the output is the packet and then waste frames |
| AnyTls.RecordSizes | src/protocol.rs:155-219 | record by record: each piece of the packet has exactly the size next in turn; the last is filled up to exactly that size if a waste frame fits beside it, and goes alone if not; after the packet come waste frames of the sizes drawn |
| AnyTls.RecordCount | src/protocol.rs:155-219 | without checkpoints there is a record for each size, and one more for what they do not cover |
| AnyTls.CheckpointExactly | src/protocol.rs:161-166 | a checkpoint ends the padding exactly if the sizes before it cover the packet, and does nothing otherwise |
| AnyTls.WasteRead | src/protocol.rs:366-373 | a waste frame of any length reads as one of that length modulo 65536, leaving the excess zeros |
| AnyTls.InvisibleExactly | src/protocol.rs:278-300 | bytes are passed over before every continuation if and only if they are, taken alone, waste frames of stream 0 up to the last byte |
| AnyTls.HarmlessExactly | src/protocol.rs:366-373 | for one waste frame that is the case if and only if its length divided by 65536 is a multiple of seven |
| AnyTls.SeenExactly | src/protocol.rs:155-219 | for every frame and all sizes: the write is seen as that frame and waste of stream 0 before every continuation if and only if its padding alone is such waste to the last byte |
| AnyTls.OversizedPaddingLosesFrames | src/protocol.rs:155-219 | a legal scheme drawing 70000 for the first packet: of two frames written the reader sees one |
| AnyTls.PaddingIsTransparent | src/protocol.rs:106-219 | for any frames, waste among them, any sizes whose padding fills cleanly and any scheme change on the way, the frames read are the frames written in order with waste frames of stream 0 put in between |
| AnyTls.PaddedExactly | src/protocol.rs:155-160 | in every run a write is padded if and only if each write up to it had a number below the stop of the scheme then in force, and then with sizes of that scheme for that number |
| AnyTls.OutputContinues | src/protocol.rs:106-219 | the stream after each call is the stream before it and what the writer then emits |
| AnyTls.TransparentExactly | src/protocol.rs:106-219 | for every session: at every point and before every continuation the reader sees the frames written so far, filler aside, if and only if each write's padding alone is waste of stream 0 to the last byte |
| AnyTls.FittingSchemesFillCleanly | src/padding.rs:131-150 | schemes within 16 bits fill cleanly whatever they draw |
| AnyTls.PayloadArrives | src/protocol.rs:133-141 | a write of any length, cut into frames and padded, arrives byte for byte |
| AnyTls.PrefaceReadBack | src/protocol.rs:254-276 | after the preface the reader stands at the first frame |
| AnyTls.PrefaceExactly | src/padding.rs:118-129 | the preface is 34 bytes and the first size for packet 0 that is no checkpoint, and fails exactly if that exceeds 65535 |
| AnyTls.Advance | src/io_util.rs:8-26 | dropping written bytes from a slice list leaves exactly the rest and no empty front slice |
| AnyTls.Sink.WriteAllVectored | src/io_util.rs:8-26 | for every pattern of partial writes all slices go out in order, or a prefix and an error on a write of nothing |
| AnyTls.PaddedFrameWriter.WriteCut | src/protocol.rs:155-219 | the cutting loop puts out the records of its specification one by one, for all sizes |
| AnyTls.PaddedFrameWriter.WriteFrame | src/protocol.rs:106-131 | vectored and scalar path emit the same bytes, a padded frame record by record, and the packet counter moves with the sizes drawn from the scheme in force; too long a payload changes nothing |
| Varint.ReadVarintFromSlice | src/hysteria2.rs:1632-1643 | the loop equals the big-endian value without its length mark |
| Varint.VarintReadBack | src/hysteria2.rs:1604-1643 | every value below 2^62 is read back whatever follows (section 16 of RFC 9000) |
| UdpFragments.FillSlot | src/udp_fragments.rs:25-48 | filling a free slot keeps the counters of missing fragments and total length true |
| UdpFragments.FragmentPayload.Insert | src/udp_fragments.rs:25-48 | refuses out-of-range, repeated or oversized fragments without change; with the last fragment the payload comes out in index order |
| Hysteria2.DecodeUndoesEncode | src/hysteria2.rs:1662-1703 | a datagram is read back for addresses of 1 to 2048 bytes |
| Hysteria2.DatagramLayout | src/hysteria2.rs:1692-1703 | session, packet, fragment and count in network byte order, the counted address, and the payload |
| Hysteria2.FragmentsExactly | src/hysteria2.rs:1705-1752 | for every packet and limit: it can be sent if and only if it fits one datagram, or its payload fits 255 fragments beside a header of 8 bytes, address and its length; the fragments are its consecutive full pieces and the rest |
| Hysteria2.FragmentsFit | src/hysteria2.rs:1705-1746 | every encoded message fits the limit and is numbered in order |
| Hysteria2.FragmentsCarryPayload | src/hysteria2.rs:1705-1746 | the fragments' payloads in order are the payload |
| Hysteria2.ReassembleBounded | src/hysteria2.rs:1754-1819 | at most 64 packets are ever pending, with true counters |
| Hysteria2.OpensExactly | src/hysteria2.rs:1776-1795 | a fragment of a packet not waited for, or expired, is refused if and only if 64 unexpired packets are waited for; otherwise the packet starts over from it, and those waited for stay |
| Hysteria2.JoinsExactly | src/hysteria2.rs:1796-1812 | a fragment of a packet waited for is refused if and only if count or address differ, it is there, or the packet would exceed 65535 bytes; then nothing waited for changes |
| Hysteria2.AloneExactly | src/hysteria2.rs:1754-1772 | an unfragmented message passes as it is, and a malformed one is refused, without a change |
| Hysteria2.OthersDoNotDisturb | src/hysteria2.rs:1754-1819 | other packets and sweeps leave an unexpired packet's fragments alone |
| Hysteria2.FragmentArrives | src/hysteria2.rs:1754-1819 | one fragment: a duplicate is refused without harm, a new one is kept, the last puts the message out |
| Hysteria2.ReassemblyDelivers | src/hysteria2.rs:1754-1819 | fragments in any order, with duplicates and other traffic between, put the message out exactly once and only when all arrived |
| Hysteria2.FragmentationRoundTrip | src/hysteria2.rs:1705-1819 | for every packet and limit the encoder accepts: one datagram comes out as it is whatever is pending; fragments in any fair run put the packet out exactly once, and only when all arrived |
| Hysteria2.Reassembler.Receive | src/hysteria2.rs:1754-1819 | the in-place map update equals the specification |
| Hysteria2.Reassembler.CleanupExpired | src/hysteria2.rs:1821-1826 | a packet is still pending exactly if it was and has not expired, with its fragments as they were |
| Naive.NaiveWriter.Write | src/naive.rs:2098-2115 | a write of any length appends its data to what the stream encodes, cut at 65535 bytes, each chunk with the padding drawn for it in turn |
| Naive.ChunkLayout | src/naive.rs:2098-2115 | a padded chunk is two bytes of length, one of padding length, the data, and zeros |
| Naive.EncodedLength | src/naive.rs:2098-2115 | padding adds three bytes and the padding drawn to each of the first eight chunks, and nothing after |
| Naive.EncodeAppend | src/naive.rs:2098-2115 | successive writes encode like one write of all chunks, also across the change to raw mode |
| Naive.ReadGivesNext | src/naive.rs:2117-2148 | every read gives the next bytes written under every segmentation; while data is left it neither fails nor returns nothing; at the end it returns nothing in raw mode and fails in padded mode |
| Naive.ReadsArePrefix | src/naive.rs:2117-2189 | what any sequence of reads returns is a prefix of what was written, even on a cut connection |
| Naive.ReadsReachEnd | src/naive.rs:2117-2189 | on a whole connection as many reads as bytes reach the end |
| Naive.StreamRoundTrip | src/naive.rs:2098-2189 | writer to fresh reader, padding on or off, with bytes read early: a prefix always, everything if nothing is cut off, so both ends change to raw mode at the same byte |
| Naive.NaiveReader.Read | src/naive.rs:2117-2148 | the in-place reader equals the specification |
| Targets.AddressReadBack | src/uot.rs:269-331 | every address with a UTF-8 host of at most 255 bytes is read back |
| Targets.AddressLayout | src/uot.rs:269-292 | kind, address bytes or counted host, and port; only a host over 255 bytes is refused |
| Targets.AddressSound | src/uot.rs:294-331 | whatever is read as an address starts with the encoding of that address |
| Targets.TargetReadBack | src/protocol.rs:386-449 | a target comes back canonical |
| Targets.TargetUnchanged | src/protocol.rs:386-449 | it comes back unchanged if and only if it is not an IPv4-mapped IPv6 address |
| Uot.TakesWhole | src/uot.rs:91-144 | a whole packet is taken off the front whatever follows |
| Uot.PacketLayout | src/uot.rs:118-156 | address unless connected, two bytes of length, payload; refused exactly if payload or host is too long |
| Uot.TakenSound | src/uot.rs:91-144 | whatever is taken off a stream, the stream starts with its encoding |
| Uot.LeavesPartial | src/uot.rs:215-258 | every strict prefix of a packet is left alone |
| Uot.DrainLoop | src/uot.rs:91-116 | the drain loop equals its specification |
| Uot.DrainsPrefix | src/uot.rs:91-116 | from any prefix of a packet stream come exactly the packets whole in it, leaving a strict prefix of the next |
| Uot.UplinkLoop | src/server.rs:585-628 | the uplink task's loop over queued chunks equals its specification, buffer limit included |
| Uot.ChunkingMattersOnlyByLimit | src/server.rs:585-628 | on any bytes the uplink fails if and only if some chunk exceeds the buffer beside what is left over before it, and otherwise gives what the stream in one piece gives |
| Uot.UplinkSendsPackets | src/server.rs:585-628 | for any packets, any chunking and any cut: whether the uplink goes on is decided by lengths alone; if so exactly the whole packets go out in order, and otherwise the first of them |
| Uot.DeliverableExactly | src/server.rs:600-603 | some chunking gets a list of packets through if and only if no encoded packet is longer than the buffer |
| Uot.LongestDatagramIsRefused | src/server.rs:600-603 | a 65535-byte datagram to an IPv4 address gets through under no chunking |
| Uot.RequestTaken | src/uot.rs:79-89 | a request is taken off the front of a stream |
| Uot.RequestLayout | src/uot.rs:36-54 | 1 to connect or 0, and the destination |
| Uot.RequestSound | src/uot.rs:45-89 | whatever is taken for a request is one; any first byte but zero connects |
| AnyTlsServer.ServerSession.HandleFrame | src/server.rs:258-380 | one turn of the frame loop equals the specification on the three maps; what that does over a whole session is stated by the rows below |
| AnyTlsServer.HeldOnlyAfterSyn | src/server.rs:258-380 | from the start of every session: settings are known exactly after a SETTINGS frame, and a stream is in any of the three maps only if announced since it was last finished, so in none after its FIN |
| AnyTlsServer.SynExactly | src/server.rs:259-271 | a SYN is accepted if and only if settings came before and fewer than 1024 streams are held; then the stream waits for its target and nothing else changes |
| AnyTlsServer.PushWithoutSyn | src/server.rs:320 | a PSH without a SYN since the last FIN changes nothing |
| AnyTlsServer.AnnouncedWaits | src/server.rs:259-271 | from its SYN to its first PSH a stream waits for its target, whatever other streams do |
| AnyTlsServer.StreamLife | src/server.rs:259-425 | SYN, then the PSH with a target for TCP or the legacy UDP name, among any other frames: exactly that stream is open on exactly that target, an IPv4-mapped one as IPv4, with the bytes after it and every later push queued in order |
| AnyTlsServer.EndsExactly | src/server.rs:258-380 | a session ends exactly with an alert, a SYN before the settings or beyond 1024 streams, a first push without readable target or with a malformed or 257th waiting request, or a waiting request that turns out malformed or outgrows 65536 bytes |
| AnyTlsServer.OthersStand | src/server.rs:258-380 | frames of other streams do not touch a stream |
| AnyTlsServer.PushesDecide | src/server.rs:272-349 | whatever other streams do in between, a stream ends up where its target and the pushes to it put it, down to the chunks queued |
| AnyTlsServer.SplitDoesNotMatter | src/server.rs:272-349 | however the bytes after the target are split over PSH frames, target, request and bytes handed on are those of the bytes in one piece |
| AnyTlsServer.AcceptedExactly | src/server.rs:282-291 | the session accepts the pushes if and only if the waiting request stays within the buffer |
| AnyTlsServer.UotOverFrames | src/server.rs:259-349 | from the SYN on, among frames of other streams: a request and its packets, split in any way after the target, are accepted if and only if within the limits on waiting streams and bytes; then the stream has that request, and its uplink sends exactly those packets if and only if the queued chunks fit |
| Quota.TrafficIsConserved | src/core.rs:680-727 | in every interleaving total is upload plus download plus reservations in flight, and neither direction can overflow |
| Quota.EachDirectionIsConserved | src/core.rs:708-717 | in every interleaving, in each direction: counted and in flight together are exactly what was admitted in it |
| Quota.AdmissionExactly | src/core.rs:698-707 | a reservation raises the total by its bytes if and only if the sum is within 64 bits and the quota last set; otherwise nothing changes, and nothing else moves the total |
| Quota.TotalGrowsWithinQuotas | src/core.rs:698-707 | over any stretch of a run the total ends no higher than it began or within the largest quota then in force, so a quota lowered below it stops it |
| Quota.TotalStaysWithinQuota | src/core.rs:698-707 | if the quota is never lowered the total never exceeds it |
| ProxyCore.ValidMeans | src/core.rs:231-267 | the running checks accept exactly the lists without blank names, without repeated credentials and with one set of limits per user |
| ProxyCore.CredentialsPartition | src/core.rs:230-267 | in an accepted list the users' credential sets divide up the credentials as the index says |
| ProxyCore.BuildIndex | src/core.rs:230-267 | the validation loop succeeds exactly on accepted lists and collects owners, credentials, limits and order |
| ProxyCore.ReplacementEffect | src/core.rs:269-312 | kept users keep their traffic; a session survives exactly if its user stays with the same credentials |
| ProxyCore.EveryLineInForce | src/core.rs:230-312 | after a replacement every line of the list is in force: its credential leads to its user, and the user has its limits |
| ProxyCore.OnlyLinesInForce | src/core.rs:230-312 | and nothing else is; new users start with nothing counted and no session |
| ProxyCore.OpenedExactly | src/core.rs:585-631 | a session opens if and only if the user has fewer sessions than it may and brings no address beyond those it may, zero meaning no limit; the number is the next one and nothing else changes |
| ProxyCore.StepKeepsUser | src/core.rs:566-678 | no step changes the traffic counters, and only limit changes and replacements change limits or credentials |
| ProxyCore.StepInv | src/core.rs:566-678 | every open, close, cancel, limit change and replacement keeps counters, credential index, session ownership and event log right |
| ProxyCore.Bookkeeping | src/core.rs:585-678 | in every state of every run: `online` and `online_ips` are the number of sessions and of distinct addresses; each credential has exactly one owner, who exists; each session number is opened at most once, ended at most once, and live exactly in between |
| ProxyCore.LimitsHold | src/core.rs:585-631 | while a user's limits stay the same, its sessions and addresses stay within them |
| ProxyCore.NewUserWithin | src/core.rs:549-564 | a user just added is within any limits |
| ProxyCore.Core.OpenSession | src/core.rs:585-631 | succeeds exactly if there is room, with a fresh number that is used up even on refusal |
| ProxyCore.Core.CloseSession | src/core.rs:633-644 | reports the end of a session exactly if it was live, and recounts |
| ProxyCore.Core.CancelSessions | src/core.rs:646-666 | every session is reported cancelled exactly once, in some order |
| ProxyCore.Core.ApplyUserUpdate | src/core.rs:566-583 | sessions go exactly if the credentials change |
| ProxyCore.Core.ReplaceUsers | src/core.rs:230-312 | succeeds exactly on accepted lists; on refusal nothing changes; on success the whole new state is that of the list, with each dropped session cancelled once |
| ReplayCache.ExpireExact | src/replay_cache.rs:45-52 | with times in order, popping only the front removes every expired entry |
| ReplayCache.ExpireKeeps | src/replay_cache.rs:45-52 | set and queue stay the same keys, each once, whatever the clock does |
| ReplayCache.InsertRefines | src/replay_cache.rs:44-62 | the cache answers as the plain log of accepted keys does, and goes on standing for it |
| ReplayCache.AnswersByLog | src/replay_cache.rs:44-62 | every answer of every run by the earlier requests alone: Replayed exactly if accepted at most ttl ago, otherwise Full exactly if at least `capacity` different keys were |
| ReplayCache.NoReplay | src/replay_cache.rs:44-62 | no key is accepted twice within ttl |
| ReplayCache.ReplayCache.CheckAndStore | src/replay_cache.rs:38-62 | the in-place loop and inserts equal the specification |
| Jsonc.StripClean | src/config.rs:501-554 | the output has no comment opener outside strings |
| Jsonc.UnchangedExactly | src/config.rs:501-554 | a text is left unchanged if and only if it has no comment |
| Jsonc.Idempotent | src/config.rs:501-554 | a second pass changes nothing |
| Jsonc.SameLines | src/config.rs:501-554 | output and input have the same number of lines |
| Jsonc.CommentsErased | src/config.rs:501-554 | a document put together from text, line and block comments comes out as its text, string literals untouched, and the line ends of its comments |
| Jsonc.StripJsonComments | src/config.rs:501-554 | the character loop equals the recursive definition |

## Left out

- Sockets, TLS and QUIC libraries, TUN, DNS, dialing, task spawning and relay loops: calls into code that is not part of this model.
- Mieru's stream (TCP) mode, RTT and RTO estimates, the Cubic congestion window and when a timer fires: a retransmission may happen at any time in the model, and the congestion window is any number.
- Mieru packet encryption and the wire format of its metadata are not modelled: a packet is a number and a payload.
- MieruTransport.ProgressIsPossible: states that the next steps are there to be taken, not that a fair network takes them in the end.
- Parsing of padding schemes from text and the contents of the settings frame are not modelled.
- The server name check of the ClientHello builder counts ASCII white space only as blank, so the model builds hellos for a few names the original refuses.
- Parsing of REALITY keys and short ids from text, the fallback proxy, and JA3 strings: no law of their own.
- Out-of-range indices on which the certificate readers would panic are errors in the model.
- AnyTlsServer.UotOverFrames: binding and dialing are taken to succeed, frames of other streams are taken to be accepted, heartbeats are not modelled, and a stream whose uplink has ended stays in the session's map, where the original removes it some time later.
- ProxyCore.Core.ReplaceUsers: one atomic step, so a session being opened during a replacement is not modelled; memory is sequentially consistent.
- ProxyCore.Bookkeeping: session events do not carry their source address, and addresses are compared as they come, after normalisation.
- Authentication by credential or by password hash, and rate limiters, are not modelled.
- Hysteria2's TCP handshake and byte rate limiter, Naive's HTTP/2 and HTTP/3 paths, SOCKS, HTTP CONNECT, Trojan, VLESS, VMess, TUIC, Sudoku, routing and configuration structs are not modelled.
