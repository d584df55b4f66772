# noisecat transports: a verified model

This project models the secure transports of noisecat in Dafny and proves what they are for. It covers the
NoiseSocket transport with its Reject / Retry / Switch negotiation, BOLT-8 (Lightning), the WhatsApp stack, the raw
transport, and the router's `handleIO`.

`dafny verify dfyconfig.toml` checks everything.

## How the model is laid out

| files | what they hold |
|---|---|
| `bytes`, `wire`, `length_prefix` | byte strings, the network connection under a transport, the 16-bit length frame |
| `stream` | one byte-stream specification: chunking Write, buffering Read, and the theorem about any sequence of calls |
| `noise`, `noise_drive` | the Noise library as its callers see it; running the messages of a handshake in turn |
| `ns_frames`, `ns_text`, `base64`, `ns_negotiation` | NoiseSocket frames, chained prologues, negotiation text, and both negotiation loops as values |
| `ns_history`, `ns_imitation` | which application prologues leave the history behind a prologue open, and two runs in which it is |
| `ns_binding`, `ns_agreement` | negotiation against any network, and between honest sides |
| `ns_conn` | the NoiseSocket connection object |
| `bolt8_*`, `whatsapp_*`, `raw_conn` | the other three transports, each from its handshake or codec up to its connection object |
| `handleio` | goroutines, channel, timer and once-guard as interleaved steps |

## How to read the statements

* A connection (`Wire.Conn`) holds every byte that will still arrive. A statement about all values of that inbox is a
  statement about every peer and every network: frames may be dropped, replaced or injected. An honest run over FIFO
  channels is a pair of runs in which each inbox is what the other side sends.
* Code that updates its state step by step is a class or a method with a loop. Each such method is proved to compute
  a function of what will arrive; the theorems are about those functions and connect several of them.
* A completed connection object remembers, for proof only, what it had heard (`heard`): its state is the one the
  specification reaches on those bytes. On a connection that was closed locally nothing arrives and nothing is written.
* Before the handshake has run, `Ready`, `Greeting`, `Arriving` or `Incoming`, `Tx` and `Rx` describe a connection as its
  next Write or Read will find it.
* Cryptography is a record of functions. The laws a theorem needs (opening inverts sealing, both sides of a
  Diffie-Hellman exchange agree, no hash collision on the inputs at hand) are explicit hypotheses, and lemmas named
  `LawsAreSatisfiable` show that they can be met together.
* The Noise library is a record of functions of the configuration, the prologue and the messages so far.
  `Interoperable` says that two configurations complete with each other under every common prologue.

## Preconditions taken from the source

* With the retry or switch policy the supported list is not empty: its head is indexed without a check at
  `pkg/transport/noisesocket/handshake_neg.go:240` and `:249`.
* Names that BuildConfig accepts contain no semicolon (`pkg/noisecat/utils.go:69`). A retry target is not checked before it
  is sent, so honest agreement asks that it, too, be non-empty and free of semicolons.
* Quoting a name that has no semicolon adds none, as Go's `%q` does not.
* Two sides are set up for each other (`NegotiationAgreement.Paired`) when they use one Noise library and one application
  prologue, every initiator configuration can start and composes a first message that fits a frame, and the configurations
  the two sides build for one name complete with each other. Which names either side can build stays open: that is part
  of the decision.
* A Noise message is not empty: a zero length reads as no message at all
  (`pkg/transport/noisesocket/conn.go:367-369`), and an empty pending message is no pending message.

## What turned out false, and the exact condition

* `raw` Read does not keep the stream across an error: `RawConn.FailedReadLosesTheBuffer` says exactly what is lost and
  when, `RawConn.LossHappens` and `RawConn.ReadingGoesOn` show it happening, and `RawConn.ReadsAccountForEverything` says what
  holds all the same.
* A chained prologue always binds the opening negotiation_data, and with it the protocol and the roles. It binds the
  application prologue and the history behind it exactly when neither side's application prologue can imitate the other's:
  the condition is `PrologueHistory.Imitable`, the equivalence over all histories is `PrologueHistory.HistoryIsBoundIff`, and
  `NegotiationImitation.HistoriesCanDiffer` is a pair of runs that complete together behind different histories. Equal
  application prologues are always safe.
* WhatsApp nonces are distinct exactly up to 2^32 frames: `WhatsAppConn.NoncesDistinctIff`.
* Skipped protobuf fields are not invisible after the 64th recorded field: `WhatsAppProto.FixedFieldsAreInvisible` and
  `WhatsAppProto.TrailingFixedFieldIsRefused`.

## Model

| member | source | states |
|---|---|---|
| `NegotiationBinding.DowngradeBinding` | pkg/transport/noisesocket/handshake_neg.go:116-279 | Against any network and with any application prologues: a client and a server whose final handshakes have equal prologues share the opening negotiation_data, chose the same protocol and took opposite Noise roles, client-initiated exactly when the number of dead frames is even on either side; unless one application prologue can imitate the other, these and the dead frames are equal too. |
| `NegotiationBinding.EqualFingerprintsRuleOutDowngrade` | pkg/transport/noisesocket/conn.go:97-110 | The same conclusion from equal fingerprints of two completed sides, when the channel binding does not collide on their two states. |
| `NoiseSocketConn.FingerprintsRuleOutDowngrade` | pkg/transport/noisesocket/conn.go:97-110 | Two connection objects that negotiated on whatever they heard and show equal fingerprints: same protocol, same opening data, opposite roles, and, unless one application prologue can imitate the other, the same history. |
| `NoiseSocketConn.FingerprintsAgree` | pkg/transport/noisesocket/conn.go:97-110 | Two connection objects that settled with each other over FIFO channels show the same fingerprint. |
| `PrologueHistory.HistoryIsBoundIff` | pkg/transport/noisesocket/handshake_neg.go:61-67 | For two application prologues: equal bytes from ends of equal parity always mean equal application prologues and equal histories, if and only if neither starts with the other and goes on with bytes that are not complete 16-bit fields or are a positive multiple of four of them. |
| `PrologueHistory.SameBytesSameHistory` | pkg/transport/noisesocket/handshake_neg.go:61-67 | The binding half: no imitation, so one history. |
| `PrologueHistory.ImitationExists` | pkg/transport/noisesocket/handshake_neg.go:61-67 | The other half, constructively: two different histories of frames that fit, in the same bytes. |
| `PrologueHistory.PrologueIsInjective` | pkg/transport/noisesocket/handshake_neg.go:61-67 | Equal chained prologues come from the same opening negotiation_data; under equal application prologues, or at equal parity without imitation, from the same application prologue and dead frames. |
| `NegotiationImitation.HistoriesCanDiffer` | pkg/transport/noisesocket/handshake_neg.go:239-246 | Two runs of the loops that complete together with equal prologue, keys and fingerprint behind different histories: the server recorded a proposal and its retry frame, the client application prologue spells them out. |
| `NegotiationImitation.DifferentHistoriesHappen` | pkg/transport/noisesocket/handshake_neg.go:239-246 | Concrete settings in which they do. |
| `NegotiationBinding.ClientProloguesAreFresh` | pkg/transport/noisesocket/handshake_neg.go:61-67 | Against any peer a client opens at most 4 attempts and joins at most one switched one, and no two of them use the same prologue. |
| `NegotiationBinding.ClientAttemptsGrow` | pkg/transport/noisesocket/handshake_neg.go:116-192 | Attempts use transcripts that strictly extend one another; their number is bounded by the attempts left; the final handshake is the last of them. |
| `NegotiationBinding.ServerAttemptsGrow` | pkg/transport/noisesocket/handshake_neg.go:197-279 | The responder joins or opens one attempt at most, and what it recorded before stays under two frames for every attempt of the loop. |
| `NegotiationBinding.ClientEndsWell` | pkg/transport/noisesocket/handshake_neg.go:143-187 | A client ends as Noise initiator after an even number of dead frames under its own proposal, or as responder after an odd number under a switch it parsed; the name is the one it proposed first or a fallback, the dead frames are its own proposals of such names and the retries that asked for the next one, and every attempt it opened came about like this. |
| `NegotiationBinding.ServerEndsWell` | pkg/transport/noisesocket/handshake_neg.go:200-275 | The mirror image for the server: joined under a supported name after pairs of an unsupported proposal and its own retry to the head of its list, or, with the switch policy, as initiator of the head of its list after one unsupported proposal. |
| `NegotiationBinding.ClientKeepsTheRules` | pkg/transport/noisesocket/handshake_neg.go:116-192 | Whatever arrives: a client ends in the name it proposed first or one of its fallbacks, under the prologue spelled out byte for byte, and every attempt it opens carries the encoded proposal of such a name after such a history. |
| `NegotiationBinding.ClientFollowsIffDeclared` | pkg/transport/noisesocket/handshake_neg.go:148-188 | And the other way round: a retry or a switch to a name is taken up if and only if it is the one proposed first or a fallback (and, for a switch, can be joined); a reject, a proposal or text that does not parse ends the run. |
| `NegotiationBinding.ServerKeepsTheRules` | pkg/transport/noisesocket/handshake_neg.go:197-279 | Whatever arrives: a server ends in a name on its supported list, in the way its policy allows, under the prologue spelled out byte for byte. |
| `NegotiationBinding.ServerFollowsPolicy` | pkg/transport/noisesocket/handshake_neg.go:217-275 | And the other way round: a proposal of a name on the list is joined; for any other name the retry, switch or reject policy says the exact frame the server answers with and whether it goes on, and an unknown policy ends it without one. |
| `NegotiationAgreement.NegotiationRefinesDecision` | pkg/transport/noisesocket/handshake_neg.go:116-279 | Two sides set up for each other, each reading exactly what the other writes: both complete or neither does, as the function Decide of the two settings says, with its protocol and roles, equal logs and equal key pairs; at most two proposals; never both left waiting. |
| `NegotiationAgreement.HonestNegotiationExists` | pkg/transport/noisesocket/handshake_neg.go:116-279 | For every such pair of settings there is an honest run, so both loops end. |
| `NegotiationAgreement.AcceptSettles` | pkg/transport/noisesocket/handshake_neg.go:217-227 | A proposal the server supports and can build settles, from any point of both loops. |
| `NegotiationAgreement.SupportedOutcome` | pkg/transport/noisesocket/handshake_neg.go:217-227 | A proposal of a supported name settles exactly when both sides can build it and it fits a frame; otherwise both sides end empty-handed. |
| `NegotiationAgreement.RetryOutcome` | pkg/transport/noisesocket/handshake_neg.go:239-246 | With the retry policy there is one more proposal, of the head of the supported list, and the run settles exactly as Decide says. |
| `NegotiationAgreement.SwitchOutcome` | pkg/transport/noisesocket/handshake_neg.go:248-272 | With the switch policy the roles are inverted in mid-run, and the run settles exactly as Decide says. |
| `NegotiationAgreement.RejectIsOff` | pkg/transport/noisesocket/handshake_neg.go:232-237 | With no support and no counter-proposal the server sends exactly its reject frame, if that fits, the client gives up on it, and neither side completes. |
| `NegotiationAgreement.UnbuildableIsOff` | pkg/transport/noisesocket/handshake_neg.go:218-221 | A name that cannot be proposed, or is supported but cannot be built, ends in nothing on both sides. |
| `NegotiationAgreement.RejectReasonSurvives` | pkg/transport/noisesocket/handshake_neg.go:233-234 | The reject frame carries no Noise message and parses back to a reject with exactly the quoted reason. |
| `NegotiationAgreement.EveryEndingHappens` | pkg/transport/noisesocket/handshake_neg.go:217-272 | Concrete settings that meet all hypotheses and end by accept, by retry, by switch and in a reject. |
| `NoiseDrive.DrivesAgree` | pkg/transport/noisesocket/handshake_neg.go:73-111 | Two compatible sides at the same message index, for any pattern length, alternate so that each message is composed by one side and accepted by the other, and finish with equal logs and key pairs and nothing left unread. |
| `NoiseDrive.HonestStreamsFit` | pkg/transport/noisesocket/handshake_neg.go:73-111 | Such a pair of byte streams exists. |
| `NoiseDrive.DriveWritesItsTurns` | pkg/transport/noisesocket/handshake_neg.go:77-90 | A drive that completes, whatever it was sent, has put exactly the messages of the pattern through and written exactly the frames of its own turns, in order; every message of its own was composed for the state before it, and every other one accepted in it. |
| `NoiseDrive.DrivingContinues` | pkg/transport/noisesocket/handshake_neg.go:77-108 | One turn of the loop: whose turn it is, when the pending message stands in for a frame, and what each failure leaves behind. |
| `Negotiation.Propose` | pkg/transport/noisesocket/handshake_neg.go:121-141 | An attempt that goes out fits its frame, carries the given negotiation_data under the chained prologue, has exactly one message behind it, and is never of a one-message pattern. |
| `NegotiationText.ParseNeg` | pkg/transport/noisesocket/negotiation.go:69-120 | The parser loop computes Parse on every byte string, and every retry or switch it returns names a protocol. |
| `NegotiationText.ProposalRoundTrip` | pkg/transport/noisesocket/negotiation.go:41-49 | A proposal parses back to its name and application data, for all data, exactly when the name is non-empty and has no semicolon. |
| `NegotiationText.ResponseRoundTrip` | pkg/transport/noisesocket/negotiation.go:53-65 | A response parses back to its action, name and reason exactly when both are free of semicolons and a retry or switch names a protocol; so no response reads as a proposal. |
| `NegotiationText.ParsedNamesAreSeparable` | pkg/transport/noisesocket/negotiation.go:75-110 | Whatever arrives, a parsed name or reason contains no separator. |
| `NegotiationText.ParseMeans` | pkg/transport/noisesocket/negotiation.go:69-120 | The parser exactly, on every byte string: accepted if and only if every piece between semicolons is empty or a key and a value (version 1 and no other, a known action, data in base64, anything under other keys), a version is there, and a name is there where the action needs one; the result is what the last piece of each key says. |
| `Base64.RoundTrip` | pkg/transport/noisesocket/negotiation.go:44-47 | Standard base64 decoding inverts encoding, and encoded data never contains the field separator. |
| `Base64.LineBreaksAreSkipped` | pkg/transport/noisesocket/negotiation.go:104-109 | A line break anywhere in the data changes nothing, as in the standard decoder. |
| `Base64.PaddingEndsTheText` | pkg/transport/noisesocket/negotiation.go:104-109 | What decodes is whole quanta, with padding in the last two places only. |
| `Base64.SpareBitsAreIgnored` | pkg/transport/noisesocket/negotiation.go:104-109 | A last quantum of two or three characters decodes to one or two bytes whatever its unused bits are: the decoder is not the strict one. |
| `Base64.OtherCharactersAreRefused` | pkg/transport/noisesocket/negotiation.go:104-109 | One character that is not of the alphabet, padding or a line break, anywhere, and the data is refused. |
| `NoiseSocketFrames.ReadFrameInvertsFrameBytes` | pkg/transport/noisesocket/handshake_neg.go:33-43 | Reading inverts writing for every frame within the 16-bit lengths, whatever follows it. |
| `NoiseSocketFrames.ReadFrameIff` | pkg/transport/noisesocket/conn.go:339-375 | Exactly the frames within the 16-bit lengths are read, spelled out on the wire: negotiation_data first, then the Noise message. |
| `NoiseSocketFrames.TranscriptIsInjective` | pkg/transport/noisesocket/handshake_neg.go:33-43 | The recorded bytes of dead frames determine the frames. |
| `NoiseSocketFrames.PrologueBindsOpening` | pkg/transport/noisesocket/conn.go:304-313 | Equal prologues come from the same opening negotiation_data and from the same bytes of application prologue and dead frames, whatever the lengths. |
| `NoiseSocketFrames.DriveFramingIsFaithful` | pkg/transport/noisesocket/handshake_neg.go:87-96 | Handshake messages of up to 65535 bytes are framed without loss. |
| `NoiseSocketFrames.ReadLengthPrefixed` | pkg/transport/noisesocket/conn.go:361-375 | Exactly one length and body off the wire, however reads are split; a zero length is an empty message; an error leaves nothing. |
| `NoiseSocketFrames.ReadHandshakeFrame` | pkg/transport/noisesocket/conn.go:339-349 | Exactly one frame off the wire, within the 16-bit lengths. |
| `NoiseSocketFrames.WriteFrameAndRecord` | pkg/transport/noisesocket/handshake_neg.go:47-59 | Writes the exact frame bytes when both fields fit, and nothing otherwise. |
| `NoiseSocketConn.Conn.Legacy` | pkg/transport/noisesocket/conn.go:115-122 | The two constructors without negotiation. |
| `NoiseSocketConn.Conn.WithNegotiation` | pkg/transport/noisesocket/conn.go:127-135 | The two constructors with negotiation. |
| `NoiseSocketConn.Conn.AssignCipherStates` | pkg/transport/noisesocket/conn.go:211-217 | The client sends under the first key of the pair and the server under the second, both from nonce zero, whatever the Noise role. |
| `NoiseSocketConn.Conn.WriteTurn` | pkg/transport/noisesocket/handshake_neg.go:80-90 | One composed message in one frame; keys are assigned when it was the last of the pattern. |
| `NoiseSocketConn.Conn.ReadTurn` | pkg/transport/noisesocket/handshake_neg.go:101-107 | One message taken in; keys are assigned when it was the last of the pattern. |
| `NoiseSocketConn.Conn.DriveFrom` | pkg/transport/noisesocket/handshake_neg.go:73-111 | From any start index, role and pending message the loop writes, reads, and ends exactly as the specification Drive; on success the state and both keys are set. |
| `NoiseSocketConn.Conn.OpenAttempt` | pkg/transport/noisesocket/handshake_neg.go:121-141 | Builds the configuration and chained prologue, makes message 0, refuses one-message patterns, and writes the frame. |
| `NoiseSocketConn.Conn.JoinAttempt` | pkg/transport/noisesocket/handshake_neg.go:218-227 | Builds the configuration and chained prologue and runs the responder side with message 0 in hand. |
| `NoiseSocketConn.Conn.ReactTo` | pkg/transport/noisesocket/handshake_neg.go:148-188 | Accept, reject, retry or switch: a retry to an allowed protocol continues the loop and nothing else does; every other answer ends the run as specified. |
| `NoiseSocketConn.Conn.NegotiateInitiator` | pkg/transport/noisesocket/handshake_neg.go:116-192 | The whole client loop computes ClientRun on everything that will arrive: bytes written, bytes left, final state and keys. |
| `NoiseSocketConn.Conn.AnswerTo` | pkg/transport/noisesocket/handshake_neg.go:217-275 | Accept, or the policy for an unsupported proposal; only a retry frame that fits continues the loop. |
| `NoiseSocketConn.Conn.NegotiateResponder` | pkg/transport/noisesocket/handshake_neg.go:197-279 | The whole server loop computes ServerRun on everything that will arrive. |
| `NoiseSocketConn.Conn.HandshakeLegacy` | pkg/transport/noisesocket/conn.go:147-208 | The Accept-only loop: negotiation_data on the client's frame 0 only, compared by the server, then the plain drive. |
| `NoiseSocketConn.Conn.Handshake` | pkg/transport/noisesocket/conn.go:139-209 | Runs at most one successful handshake, legacy or negotiated, on an open or closed connection; later calls change nothing. |
| `NoiseSocketConn.Conn.Fingerprint` | pkg/transport/noisesocket/conn.go:97-110 | Once the handshake is done, the fingerprint of the handshake the specification runs on what this side heard; zero until then. |
| `NoiseSocketConn.Conn.Write` | pkg/transport/noisesocket/conn.go:223-257 | After the handshake exactly one Send of the byte stream: frames, state, count and error; on a closed connection nothing is written and one nonce is spent. |
| `NoiseSocketConn.Conn.WriteChunks` | pkg/transport/noisesocket/conn.go:234-256 | The chunking loop is Send with bodies of at most 65517 bytes; exhausted nonces close the connection. |
| `NoiseSocketConn.Conn.Read` | pkg/transport/noisesocket/conn.go:262-302 | After the handshake exactly one Receive of the byte stream: buffer first, else one message, surplus kept; a failure is exact about the receiving state, the bytes consumed and the close on exhausted nonces. |
| `NoiseSocketConn.Conn.FetchBody` | pkg/transport/noisesocket/conn.go:276-295 | One message off the wire, its body_len checked against the payload, with the state each failure leaves. |
| `NoiseSocketConn.LegacyAgreement` | pkg/transport/noisesocket/conn.go:147-208 | The server of two honest legacy sides completes exactly when it expects the client's negotiation_data and that fits a frame; then both hold equal logs, keys and fingerprints, and otherwise, for patterns of two messages or more, neither completes. |
| `NoiseSocketConn.LegacyKeepsTheRules` | pkg/transport/noisesocket/conn.go:139-208 | Whatever arrives, a completed legacy handshake ran under the plain prologue, spelled out, and its first message went or came with exactly the configured negotiation_data. |
| `NoiseSocketConn.LegacyContinues` | pkg/transport/noisesocket/conn.go:159-206 | One turn of the legacy loop, with the negotiation_data check on the first frame a server reads. |
| `NoiseSocketConn.PaddingIsIgnored` | pkg/transport/noisesocket/conn.go:291-296 | A payload gives back a body if and only if it is that body's length, the body, and whatever padding follows. |
| `NoiseSocketConn.FrameOpensIff` | pkg/transport/noisesocket/conn.go:276-295 | A framed ciphertext is taken if and only if it opens under the next nonce, while there is one, to a payload with a body; it then spends that nonce. |
| `NoiseSocketConn.NoncesCount` | pkg/transport/noisesocket/conn.go:243-251 | Every frame in flight takes one nonce, so a sender has moved by exactly the number of its frames. |
| `NoiseSocketConn.PaddingNeverLeaks` | pkg/transport/noisesocket/conn.go:260-302 | For any messages a peer pads as it likes, padding-only ones included, the plaintext in flight is the bodies joined and nothing else. |
| `NoiseSocketConn.MessageCodecIsFaithful` | pkg/transport/noisesocket/conn.go:223-302 | Transport messages carry the byte stream of module ByteStream; no length is truncated. |
| `NoiseSocketConn.CrossedCiphersCarryAStream` | pkg/transport/noisesocket/conn.go:211-217 | Equal key pairs, assigned by who dialled, make either direction a conserved stream, the one from the client under the first key. |
| `NoiseSocketConn.NegotiatedConnectionIsAStream` | pkg/transport/noisesocket/conn.go:139-302 | Settings with a deal: both handshakes complete, ciphers are crossed also under role inversion, and any Writes and Reads conserve the stream. |
| `NoiseSocketConn.LegacyConnectionIsAStream` | pkg/transport/noisesocket/conn.go:139-302 | The same for the legacy handshake. |
| `LengthPrefix.UnframeInvertsFrame` | pkg/transport/noisesocket/conn.go:351-375 | The 16-bit length frame is read back exactly, whatever follows. |
| `LengthPrefix.UnframeIff` | pkg/transport/noisesocket/conn.go:351-375 | A body is read exactly when the wire is its big-endian length, the body, and the rest. |
| `Bytes.Uint16RoundTrip` | pkg/transport/noisesocket/conn.go:315-321 | The two-byte header is big-endian and says the true length exactly when the length fits in 16 bits. |
| `ByteStream.StreamConserved` | pkg/transport/noisesocket/conn.go:223-302 | For every faithful codec and any calls of any sizes: returned bytes, then the read buffer, then the plaintext in flight, are exactly what the writes accepted, and opening them takes the reader to the sender's state. |
| `ByteStream.StepConserves` | pkg/transport/noisesocket/conn.go:223-302 | One Write or Read keeps that invariant. |
| `ByteStream.SentIsInFlight` | pkg/transport/bolt8/conn.go:141-161 | A Write puts exactly the bytes it counts on the wire. |
| `ByteStream.SendCutsEvenly` | pkg/transport/noisesocket/conn.go:230-256 | The frames of a Write open, one by one, to bodies that are all of the largest size but for a shorter last one, and never empty; a Write that stops early has sent only full ones. That they join to what was written is SentIsInFlight. |
| `ByteStream.ReadFillsTheSlice` | pkg/transport/whatsapp/conn.go:117-150 | A Read hands over all that it can: from a buffer that is not empty as much as fits, else of one frame as much as fits; a successful Read that returns less than was asked for leaves nothing in the buffer. |
| `ByteStream.ReadMakesProgress` | pkg/transport/whatsapp/conn.go:117-150 | A Read of positive size returns at least one byte exactly while bytes are missing and no empty frame is next; an empty frame is consumed. |
| `ByteStream.ReadsDeliverEverything` | pkg/transport/whatsapp/conn.go:117-150 | Enough Reads of any positive size hand over everything written, across empty frames. |
| `Bolt8Handshake.RunInitiator` | pkg/transport/bolt8/handshake.go:13-85 | The three acts on a connection end, whatever arrives, as the specification Initiate: bytes written, bytes left, keys or failure. |
| `Bolt8Handshake.RunResponder` | pkg/transport/bolt8/handshake.go:90-167 | The same for the responder. |
| `Bolt8Handshake.InitiatorCompletes` | pkg/transport/bolt8/handshake.go:19-85 | An initiator that finishes holds a session in which every ciphertext is the prescribed one, and act two was that session's act two. |
| `Bolt8Handshake.ResponderCompletes` | pkg/transport/bolt8/handshake.go:95-167 | The same for a responder: what it read was acts one and three of one session. |
| `Bolt8Handshake.InitiatorIsBolt` | pkg/transport/bolt8/handshake.go:13-85 | The protocol in a straight line, sharing nothing with the model of the code but the primitives: an initiator ends with these keys if and only if act two opens under the key from es and ee, with the chaining key HKDF of es, then ee, then se, its own static key sealed under the second and the last tag under the third; and it has sent just its two acts. |
| `Bolt8Handshake.ResponderIsBolt` | pkg/transport/bolt8/handshake.go:90-167 | The mirror image: a responder ends with a chaining key if and only if it is HKDF of es, then ee, then se, se from the static key it decrypted out of act three, whose tag opens under the last key. |
| `Bolt8Handshake.HandshakeAgreement` | pkg/transport/bolt8/handshake.go:13-167 | Each inbox is the other side's output exactly when they are the acts of the one honest session; then both finish with the same chaining key and hash and the right static keys. |
| `Bolt8Handshake.EqualHashesEqualTranscripts` | pkg/transport/bolt8/primitives.go:30-37 | Equal final hashes without a collision: every value absorbed by mixHash is equal. |
| `Bolt8Handshake.ChannelBinding` | pkg/transport/bolt8/conn.go:66-78 | Two completed runs with equal fingerprints, on any network: the initiator's remote key is the responder's own, same ephemerals, same chaining key, the responder recovered the initiator's static key, and each read what the other wrote. |
| `Bolt8Ratchet.MessageCodecIsFaithful` | pkg/transport/bolt8/conn.go:166-239 | Messages of two ciphertexts carry the byte stream, with rotations on both sides. |
| `Bolt8Ratchet.OpenInvertsSeal` | pkg/transport/bolt8/conn.go:205-233 | Opening inverts sealing for bodies of up to 65535 bytes and moves the receiver where the sender went. |
| `Bolt8Ratchet.OpenIff` | pkg/transport/bolt8/conn.go:205-233 | Exactly the sealed messages are opened: the length under the current nonce, the body under the next, both spent, the rotation when it is due. |
| `Bolt8Ratchet.RotationSchedule` | pkg/transport/bolt8/conn.go:244-258 | After m messages the nonce is 2(m mod 500) and the key and chaining key have been rotated m div 500 times. |
| `Bolt8Ratchet.MessageUsesItsNonces` | pkg/transport/bolt8/conn.go:166-185 | Message i is sealed under the key of epoch i div 500 with nonces 2(i mod 500) and the next. |
| `Bolt8Ratchet.NoncesNeverRepeat` | pkg/transport/bolt8/conn.go:166-185 | Every nonce is below 1000 and two uses share an epoch and nonce only if they are the same half of the same message. |
| `Bolt8Ratchet.SendAdvances` | pkg/transport/bolt8/conn.go:141-161 | A Write never stops early and moves the sender by the number of messages it was cut into. |
| `Bolt8Ratchet.RunAdvances` | pkg/transport/bolt8/conn.go:141-185 | The same over any sequence of calls. |
| `Bolt8Ratchet.RotationLockstep` | pkg/transport/bolt8/conn.go:141-258 | After any Writes and Reads the stream is conserved, the sender is where its message count dictates, and a receiver that has read everything is in the same state. |
| `Bolt8Conn.Conn.Client` | pkg/transport/bolt8/conn.go:88-90 | A fresh initiator. |
| `Bolt8Conn.Conn.Server` | pkg/transport/bolt8/conn.go:93-95 | A fresh responder. |
| `Bolt8Conn.Conn.Handshake` | pkg/transport/bolt8/conn.go:99-138 | Runs the handshake of its role once, stores hash and peer key, and splits the keys crosswise; a client without a remote key fails. |
| `Bolt8Conn.Conn.Fingerprint` | pkg/transport/bolt8/conn.go:66-78 | Once the handshake is done, the fingerprint of the handshake the specification runs on what this side heard; zero until then. |
| `Bolt8Conn.Conn.MaybeRekeySend` | pkg/transport/bolt8/conn.go:241-250 | Rotates exactly when the nonce has reached 1000. |
| `Bolt8Conn.Conn.MaybeRekeyRecv` | pkg/transport/bolt8/conn.go:252-258 | The same on the receiving side. |
| `Bolt8Conn.Conn.WriteMessage` | pkg/transport/bolt8/conn.go:163-185 | One sealed message and one advance of the ratchet; a failed write has spent both nonces and rotates nothing. |
| `Bolt8Conn.Conn.WriteMessages` | pkg/transport/bolt8/conn.go:148-160 | The chunking loop is Send with bodies of at most 65535 bytes. |
| `Bolt8Conn.Conn.Write` | pkg/transport/bolt8/conn.go:140-161 | After the handshake exactly one Send of the byte stream; on a closed connection nothing is written and two nonces are spent. |
| `Bolt8Conn.Conn.SplitKeys` | pkg/transport/bolt8/conn.go:125-135 | The two directions, crosswise by role, from the last chaining key. |
| `Bolt8Conn.Conn.ReadPlain` | pkg/transport/bolt8/conn.go:193-238 | The part of Read after the handshake: exactly one Receive, with the state a failure leaves. |
| `Bolt8Conn.Conn.ReadMessage` | pkg/transport/bolt8/conn.go:205-233 | One message off the wire; on failure at most one nonce is spent and nothing more can be read. |
| `Bolt8Conn.Conn.Read` | pkg/transport/bolt8/conn.go:187-239 | After the handshake exactly one Receive of the byte stream, with the state a failure leaves. |
| `Bolt8Conn.FingerprintsBind` | pkg/transport/bolt8/conn.go:66-78 | Two connection objects with equal fingerprints, on any network: the client talked to the server's own key, the server knows the client's, and the chaining keys agree. |
| `Bolt8Conn.SplitCrosses` | pkg/transport/bolt8/conn.go:125-135 | Each side's sending state is the other side's receiving state; the initiator sends under the first key that HKDF gives and the responder under the second, from nonce zero. |
| `Bolt8Conn.ConnectionIsAStream` | pkg/transport/bolt8/conn.go:99-239 | Honest parties over a faithful channel: both handshakes finish, states are crossed, and any Writes and Reads in either direction conserve the stream. |
| `RawConn.ReadsAccountForEverything` | pkg/transport/raw/conn.go:135-211 | After any number of calls and of failed calls, whatever arrives: the returned and lost segments in order, then the input buffer, then what is still to be decrypted, are exactly the plaintext of the wire. |
| `RawConn.LossHappens` | pkg/transport/raw/conn.go:157-172 | On a fresh connection: a peer sends one message, the caller takes part of it and asks for more than the rest when nothing arrives; the rest is lost. |
| `RawConn.ReadingGoesOn` | pkg/transport/raw/conn.go:157-209 | A frame that does not decrypt between two messages loses the rest of the first and leaves the second to be returned in full. |
| `RawConn.FailedReadLosesTheBuffer` | pkg/transport/raw/conn.go:157-193 | A Read fails exactly when the buffer does not fill the slice and no message can be fetched; it then loses exactly the buffered bytes, so nothing if and only if the buffer was empty, keeps the receiving state, and goes on behind what it consumed. |
| `RawConn.RawReadConserves` | pkg/transport/raw/conn.go:135-211 | A Read, successful or failed, keeps written equal to returned and lost, buffered and in flight. |
| `RawConn.ReadFillsTheSlice` | pkg/transport/raw/conn.go:157-209 | A Read that succeeds and returns less than was asked for leaves nothing in the buffer; it fetches exactly when the buffer does not fill the slice, and then returns the buffer and the front of the message. |
| `RawConn.ReadSpansMessages` | pkg/transport/raw/conn.go:157-209 | Two messages on the wire: a Read of part of the first, and then a Read that returns the rest of it with as much of the second as fits. |
| `RawConn.FrameOpensIff` | pkg/transport/raw/conn.go:169-193 | A framed ciphertext is taken if and only if it opens under the next nonce, while there is one, and then spends it. |
| `RawConn.NoncesCount` | pkg/transport/raw/conn.go:97-127 | Every frame in flight takes one nonce, so a sender has moved by exactly the number of its frames. |
| `RawConn.RawWriteConserves` | pkg/transport/raw/conn.go:68-131 | So does a Write. |
| `RawConn.RawRunConserves` | pkg/transport/raw/conn.go:68-211 | So does any run of Writes and Reads, across any number of failed Reads. |
| `RawConn.MessageCodecIsFaithful` | pkg/transport/raw/conn.go:68-131 | Fragments of at most 65519 bytes are framed and opened without loss. |
| `RawConn.HandshakeKeepsTheRules` | pkg/transport/raw/conn.go:256-325 | Whatever arrives, a completed handshake ran the configured pattern from the configured prologue, every message composed or accepted in its turn, and has written exactly its own messages. |
| `RawConn.HandshakeCrosses` | pkg/transport/raw/conn.go:256-325 | Honest peers complete with crossed cipher states, the client sending under the first key of the pair, and one fingerprint. |
| `RawConn.FingerprintsAgree` | pkg/transport/raw/conn.go:232-248 | Two connection objects that completed an honest handshake with each other show the same fingerprint. |
| `RawConn.ConnectionIsAStream` | pkg/transport/raw/conn.go:68-325 | Honest handshake, then any Writes and Reads, failed ones included: what was written is what was returned and lost in order, the buffer, and what is in flight; unless something was lost, what was returned is a prefix of what was written. |
| `RawConn.ReadBytes` | pkg/transport/raw/conn.go:479-493 | Exactly n bytes however the network splits them, or an error. |
| `RawConn.ReadFrame` | pkg/transport/raw/conn.go:169-183 | One header and body off the wire. |
| `RawConn.Conn.constructor` | pkg/transport/raw/conn.go:348-358 | A fresh client or server. |
| `RawConn.Conn.Handshake` | pkg/transport/raw/conn.go:256-325 | The loop over the messages of the pattern computes the specification Drive and assigns the two cipher states by side, on an open or closed connection. |
| `RawConn.Conn.WriteTurn` | pkg/transport/raw/conn.go:278-294 | One message composed and written, or refused before its length is encoded. |
| `RawConn.Conn.ReadTurn` | pkg/transport/raw/conn.go:295-314 | One message read and taken in. |
| `RawConn.Conn.Fingerprint` | pkg/transport/raw/conn.go:232-248 | Once the handshake is done, the fingerprint of the handshake the specification runs on what this side heard; zero until then. |
| `RawConn.Conn.Write` | pkg/transport/raw/conn.go:68-131 | The responder of a one-way pattern is refused at once; else, after the handshake, exactly one Send of the byte stream, and on a closed connection one spent nonce and nothing written. |
| `RawConn.Conn.WriteFragments` | pkg/transport/raw/conn.go:84-130 | The fragmenting loop is Send with fragments of at most 65519 bytes; exhausted nonces close the connection. |
| `RawConn.Conn.Read` | pkg/transport/raw/conn.go:135-211 | The responder of a one-way pattern gets nothing; else, after the handshake, exactly one RawReceive: on a failed fetch the buffered bytes are in the caller's slice but not counted, the receiving state stands, and the wire is where the next Read will find it. |
| `RawConn.Conn.DrainAndFetch` | pkg/transport/raw/conn.go:157-209 | The part after the handshake: buffer first, then one message, in place in the caller's slice. |
| `RawConn.Conn.FetchMessage` | pkg/transport/raw/conn.go:169-193 | One decrypted message, or an unchanged receiving state with exactly the consumed bytes gone. |
| `RawConn.Conn.Drain` | pkg/transport/raw/conn.go:157-167 | The input buffer into the slice; what does not fit stays. |
| `RawConn.Conn.Fill` | pkg/transport/raw/conn.go:195-209 | A message behind the drained bytes; what does not fit goes into the buffer. |
| `WhatsAppProto.AppendVarint` | pkg/transport/whatsapp/proto.go:29-36 | The loop appends the base-128 form of every uint64. |
| `WhatsAppProto.VarintRoundTrip` | pkg/transport/whatsapp/proto.go:29-36 | Decoding gives back the value and its length, whatever follows, exactly for values below 2^64. |
| `WhatsAppProto.PbParse` | pkg/transport/whatsapp/proto.go:65-115 | Total: on every byte string the loop stays in bounds, stops, and returns the specified fields (at most 64) or first error. |
| `WhatsAppProto.ParseInvertsEncode` | pkg/transport/whatsapp/proto.go:65-115 | On well-formed items the parser returns exactly the recorded fields, unless an item starts after 64 of them. |
| `WhatsAppProto.FieldLimit` | pkg/transport/whatsapp/proto.go:59-73 | n varint and length-delimited fields come back exactly when n is at most 64; beyond that the error is the field limit. |
| `WhatsAppProto.FixedFieldsAreInvisible` | pkg/transport/whatsapp/proto.go:100-109 | 32- and 64-bit fields do not change the result wherever they stand, exactly when none starts after the 64th recorded field or the rest is refused anyway. |
| `WhatsAppProto.TrailingFixedFieldIsRefused` | pkg/transport/whatsapp/proto.go:70-73 | After 64 recorded fields even a field that would be skipped is refused. |
| `WhatsAppProto.CutMessageIsRefused` | pkg/transport/whatsapp/proto.go:74-109 | A message whose last field is cut off anywhere, behind any well-formed fields, is refused: in its tag, in its varint or length, or with fewer bytes than its length or width says. |
| `WhatsAppProto.OtherWireTypesAreRefused` | pkg/transport/whatsapp/proto.go:81-112 | A field is refused for its wire type exactly when that is none of 0, 1, 2 and 5, whatever follows the tag. |
| `WhatsAppProto.NestedBytes` | pkg/transport/whatsapp/proto.go:117-125 | The data of the first length-delimited field with the number, and nothing exactly when there is none. |
| `WhatsAppProto.ClientHelloRoundTrip` | pkg/transport/whatsapp/proto.go:127-168 | The message has the field numbers of the protocol, and unmarshalling gives the ephemeral back exactly when it has 32 bytes. |
| `WhatsAppProto.ClientFinishRoundTrip` | pkg/transport/whatsapp/proto.go:133-190 | The message has the field numbers of the protocol, and unmarshalling gives both fields back, empty ones included. |
| `WhatsAppProto.FinishPayloadIsOptional` | pkg/transport/whatsapp/proto.go:170-190 | A ClientFinish without a payload reads as one with the empty payload; one without the encrypted static key is refused. |
| `WhatsAppProto.ServerHelloRoundTrip` | pkg/transport/whatsapp/proto.go:140-222 | The message has the field numbers of the protocol, and unmarshalling gives all three fields back exactly when the ephemeral has 32 bytes. |
| `WhatsAppFraming.FramedConn.constructor` | pkg/transport/whatsapp/framing.go:13-28 | A client writes the header and expects none; a server the other way round. |
| `WhatsAppFraming.FramedConn.WriteFrame` | pkg/transport/whatsapp/framing.go:30-46 | One frame, with the header if it is still due; an oversized payload touches nothing. |
| `WhatsAppFraming.FramedConn.ReadFrame` | pkg/transport/whatsapp/framing.go:48-73 | One frame off the wire however reads are split, after the header if one is still expected, and what each failure leaves. |
| `WhatsAppFraming.UnframeInvertsFrame` | pkg/transport/whatsapp/framing.go:30-73 | Reading inverts writing for payloads of up to 2^24-1 bytes, whatever follows. |
| `WhatsAppFraming.UnframeIff` | pkg/transport/whatsapp/framing.go:60-72 | A payload is read exactly when the wire is its big-endian 24-bit length, the payload, and the rest. |
| `WhatsAppFraming.HeaderIsChecked` | pkg/transport/whatsapp/framing.go:50-59 | A reader that expects the header takes nothing unless it starts with W and A, and does not look at the two version bytes. |
| `WhatsAppFraming.FramesRoundTrip` | pkg/transport/whatsapp/framing.go:30-73 | Any sequence of such payloads written by a client is read back identically by a header-expecting reader. |
| `WhatsAppFraming.HeaderWrittenOnce` | pkg/transport/whatsapp/framing.go:36-45 | The header, W A 6 3, is on the wire exactly once, in front of everything. |
| `WhatsAppFraming.Uint24RoundTrip` | pkg/transport/whatsapp/framing.go:41-42 | The three-byte length is big-endian and the true one exactly when it is at most 2^24-1. |
| `WhatsAppCert.ParseDetails` | pkg/transport/whatsapp/cert.go:49-70 | The loop computes the details with the last field of each number winning. |
| `WhatsAppCert.DetailsRoundTrip` | pkg/transport/whatsapp/cert.go:49-70 | Encoded details come back for serials below 2^32. |
| `WhatsAppCert.LastFieldWins` | pkg/transport/whatsapp/cert.go:49-70 | Of several fields with one number the last counts, serials are cut to 32 bits, and a number that does not occur leaves the zero value. |
| `WhatsAppCert.ChainAcceptedIff` | pkg/transport/whatsapp/cert.go:96-176 | A chain made by the field encoders, with keys of any length, is accepted exactly when both signatures are 64 bytes and hold, the intermediate names the root and has a 32-byte key, the leaf names the intermediate, the leaf key is the static key of the handshake, and both windows contain now. |
| `WhatsAppCert.AcceptedIff` | pkg/transport/whatsapp/cert.go:96-162 | Whatever bytes arrive, acceptance means exactly a signed path from the root key to the static key of the handshake, valid now, made of the details and signatures that stand in the chain. |
| `WhatsAppNoise.NoiseHandshake.constructor` | pkg/transport/whatsapp/handshake.go:72-87 | Hash, salt and key start from the 32-byte pattern itself, then the header is absorbed. |
| `WhatsAppNoise.NoiseHandshake.PostIncrementCounter` | pkg/transport/whatsapp/handshake.go:94-98 | Returns the counter and adds one modulo 2^32; below that no counter is used twice under one key. |
| `WhatsAppNoise.NoiseHandshake.Encrypt` | pkg/transport/whatsapp/handshake.go:100-104 | Seals under the current key, counter and hash, then absorbs the ciphertext. |
| `WhatsAppNoise.NoiseHandshake.Decrypt` | pkg/transport/whatsapp/handshake.go:106-112 | Opens under the current key, counter and hash; absorbs on success only, spends the counter always. |
| `WhatsAppNoise.NoiseHandshake.MixIntoKey` | pkg/transport/whatsapp/handshake.go:122-135 | New salt and key from HKDF, counter back to zero, a new key epoch. |
| `WhatsAppNoise.NoiseHandshake.MixSharedSecretIntoKey` | pkg/transport/whatsapp/handshake.go:114-120 | The same with the X25519 secret; fails without any change when X25519 does. |
| `WhatsAppHandshake.ClientHandshake` | pkg/transport/whatsapp/handshake.go:191-266 | The client side over frames and protobuf ends, whatever arrives, as ClientRun; the counters it uses are a prefix of four fixed, distinct (key, counter) pairs, all of them on success, so no counter is used twice under one key. |
| `WhatsAppHandshake.ClientAcceptReply` | pkg/transport/whatsapp/handshake.go:219-241 | From a parsed ServerHello to the checked certificate. |
| `WhatsAppHandshake.ClientFinishHandshake` | pkg/transport/whatsapp/handshake.go:243-265 | ClientFinish and the transport keys, or no bytes at all. |
| `WhatsAppHandshake.ServerHandshake` | pkg/transport/whatsapp/handshake.go:272-346 | The same for the responder, with ServerRun. |
| `WhatsAppHandshake.ServerSendReply` | pkg/transport/whatsapp/handshake.go:295-306 | The ServerHello, or no bytes at all. |
| `WhatsAppHandshake.ServerAcceptFinish` | pkg/transport/whatsapp/handshake.go:317-345 | From a parsed ClientFinish to the mirrored transport keys. |
| `WhatsAppHandshake.HandshakeAgreement` | pkg/transport/whatsapp/handshake.go:191-346 | Over the actual bytes, with well-formed keys: both finish or neither does, exactly when their two large messages fit a frame and no root is pinned or the server's certificate is accepted; then transport keys are crossed and each knows the other's static key. |
| `WhatsAppHandshake.HandshakeExists` | pkg/transport/whatsapp/handshake.go:191-346 | Such an exchange exists, whatever the certificate. |
| `WhatsAppHandshake.ClientIsNoise` | pkg/transport/whatsapp/handshake.go:191-266 | Whatever arrives, in a straight line over the primitives: a client ends with these keys if and only if a ServerHello stands in front with which the XX pattern goes through, every decryption and, with a pinned root, the certificate check included, to a ClientFinish that fits a frame; and it has sent just its two messages. |
| `WhatsAppHandshake.PinnedRootIsEnforced` | pkg/transport/whatsapp/handshake.go:237-241 | Whatever arrives: a client with a pinned root that completes holds a certificate that its root accepts for the static key it talks to. |
| `WhatsAppHandshake.ServerRunIsNoise` | pkg/transport/whatsapp/handshake.go:272-346 | The mirror image for the server: these keys if and only if the pattern goes through on the ClientHello and ClientFinish that arrive, and it has sent just its ServerHello. |
| `WhatsAppConn.Conn.Client` | pkg/transport/whatsapp/conn.go:41-50 | A client starts from a completed handshake with both counters at zero. |
| `WhatsAppConn.Conn.DeferredServer` | pkg/transport/whatsapp/conn.go:52-60 | A server starts with its handshake pending. |
| `WhatsAppConn.Conn.EnsureHandshake` | pkg/transport/whatsapp/conn.go:62-85 | The deferred handshake runs at most once and its failure is remembered for ever. |
| `WhatsAppConn.Conn.Write` | pkg/transport/whatsapp/conn.go:94-114 | After the handshake exactly one Send of the byte stream; on a closed connection nothing is written and one counter is spent. |
| `WhatsAppConn.Conn.WriteFrames` | pkg/transport/whatsapp/conn.go:101-113 | The chunking loop is Send with bodies of at most 2^24-17 bytes. |
| `WhatsAppConn.Conn.Read` | pkg/transport/whatsapp/conn.go:116-150 | After the handshake exactly one Receive; a frame that does not authenticate is consumed, delivers nothing and leaves the counter; a cut frame leaves nothing to read. |
| `WhatsAppConn.FrameCodecIsFaithful` | pkg/transport/whatsapp/conn.go:94-150 | Transport frames carry the byte stream, even as the uint32 counters wrap. |
| `WhatsAppConn.CounterAfter` | pkg/transport/whatsapp/conn.go:105-106 | After i frames the counter is i modulo 2^32. |
| `WhatsAppConn.FrameUsesItsNonce` | pkg/transport/whatsapp/conn.go:94-114 | Frame i goes out as its 24-bit length and the body sealed under the key of its direction and the nonce i modulo 2^32. |
| `WhatsAppConn.FrameOpensIff` | pkg/transport/whatsapp/conn.go:126-143 | A framed ciphertext is taken if and only if it opens under the next nonce, and then spends it. |
| `WhatsAppConn.NoncesDistinctIff` | pkg/transport/whatsapp/conn.go:105-106 | The first n frames of a direction use pairwise different nonces exactly when n is at most 2^32: nothing checks for exhaustion. |
| `WhatsAppConn.ConnectionIsAStream` | pkg/transport/whatsapp/conn.go:41-150 | Honest parties: crossed ciphers, and any Writes and Reads in either direction conserve the stream. |
| `HandleIO.HandleIOIsSafe` | pkg/noisecat/runners.go:108-160 | In every schedule: no copier blocks on the channel; the close body runs at most once and has closed exactly its targets before the call returns; it starts only after both reports, or after the timer fired, which needs the first report; a connection with half close is not closed before that. |
| `HandleIO.RunsAreSafe` | pkg/noisecat/runners.go:108-160 | The invariant behind it holds after every step of every schedule. |
| `HandleIO.StepKeepsReports` | pkg/noisecat/runners.go:125-153 | Every step keeps each direction to one report and the caller to its place in them. |
| `HandleIO.StepKeepsGuard` | pkg/noisecat/runners.go:111-159 | Every step keeps the close body guarded, logged and run at most once. |
| `HandleIO.StepKeepsSignals` | pkg/noisecat/runners.go:92-134 | Every step keeps exactly the endpoints whose writing has ended half closed, or closed where there is no half close. |
| `HandleIO.EndOfWriteIsSignalled` | pkg/noisecat/runners.go:92-134 | In every state of every schedule: once nothing more is sent, the connection is half closed if it can be, else closed if it can be, and the writer likewise once nothing more is received; nothing else is ever half closed, and before the close body runs nothing else is closed. |
| `HandleIO.NothingGetsStuck` | pkg/noisecat/runners.go:142-159 | Once a copy has ended, some step that needs no outside help is enabled until the call has returned. |
| `HandleIO.StepLowersRank` | pkg/noisecat/runners.go:108-160 | Every step lowers a bounded count of steps left. |
| `HandleIO.FairRunsReturn` | pkg/noisecat/runners.go:136-160 | Once a copy has ended, every fair schedule returns, provided that closing everything unblocks the copies. |
| `HandleIO.FairRunReturnsIff` | pkg/noisecat/runners.go:136-160 | A fair schedule returns if and only if some copy ends. |
| `HandleIO.FairRunsExist` | pkg/noisecat/runners.go:108-160 | There are fair schedules of both kinds: one that returns, and one in which both copies go on for ever. |
| `HandleIO.TargetsAreExact` | pkg/noisecat/runners.go:111-123 | The close body closes no endpoint twice and everything that can be closed, the connection first, then the writer, then the reader. |

## Left out

- Cryptographic primitives and curve arithmetic (SHA-256, HKDF, ChaCha20-Poly1305, AES-GCM, X25519, secp256k1, XEdDSA): parameters with stated laws.
- The flynn/noise library: idealised as described above; raw's check that a configured peer key has 32 bytes is part of whether a handshake state can be made.
- Randomness and clocks: ephemeral keys and the certificate clock are parameters.
- Write errors of the network, partial writes and deadlines: a write fails only after a local close, and a read that gets nothing finds the end of what arrives.
- Locks: Write, Read and Handshake are modelled one call at a time; one direction's state is not touched by the other.
- Dialling, listening, KCP/UDP, WebSocket, command-line flags, configuration files, key files and logging.
- The `noisenet` package and the Transport and Listener wrappers: delegation.
- One-way patterns: what their ends may do is modelled where the code checks it; the library's own handling of them is not.
- Negotiation data on frames after the opening ones: the code ignores it, so nothing is claimed about it.
- Error values and messages: a failure is a failure; the text of errors is not modelled, except the reject reason, which travels.
- WhatsAppCert.ChainAcceptedIff: times are below 2^62 seconds; beyond that time.Unix wraps, which is not modelled.
- WhatsAppProto.ClientHelloRoundTrip: lengths are below 2^60, far above what fits in memory; a field number beyond 2^61 does not fit its tag.
- PrologueHistory.HistoryIsBoundIff: speaks of all histories of frames that fit; a run has at most seven dead frames and they are proposals and retries, so some of these histories no pair of runs has.
- Byte counts and log lines of `handleIO`.
