# go-tari-lib in Dafny

A model of the two hard parts of go-tari-lib, with proofs: the Tari address codec (`address/`) and the
peer-to-peer stack (`p2p/`, `p2p/rpc/`, and the peer store of `cmd/p2p-responder-spike`).

- **Addresses.** The DammSum checksum as a linear map over GF(256), base58 with its big-number arithmetic,
  the emoji table, the byte encoding of single and dual addresses, the three text forms and the parser that
  tries them in order, and the combination of addresses.
- **RPC over a stream.** Negotiation frames, the switch, and canonical frames on one byte stream, on which
  nothing tells the two kinds apart. Caller and responder are written once as reactions between waits; the
  sequential methods over a transport object are proved to refine them, and the two-party machine runs them
  over a pipe of any capacity, unbounded, bounded or an unbuffered rendezvous, under every interleaving and
  every chunking.
- **Encrypted session.** Sealed frames with counters, the byte-stream adapter with its leftover buffer, the
  simultaneous identity exchange, the signed transcript and the Schnorr signature over it.
- **Responder.** The accept loops and the WaitGroup they share, and the store of recently seen peers.

`dafny verify dfyconfig.toml` checks the whole project. There is one module a file:

| files | contents |
|---|---|
| Bytes, Text, Positional, Hex | byte strings, code points and UTF-8, digits in a base, hexadecimal |
| DammSum, Base58, Emoji, Address, AddressText, AddressLengths, Combine | the address codec |
| Frames, StreamTransport, RpcMessages, RpcCodec | frames, the transport object, the messages, and a codec with the laws asked of one |
| Reactions, GetPeersClient, GetPeersServer, CallOutcomes, ServeOutcomes | both sides of get_peers, and what they come to on every input |
| Pipe, GetPeersProtocol | the pipe, and the protocol |
| Session, SessionRuns, IdentityExchange | the encrypted session and the identity exchange |
| Transcript, Group, IdentitySignature | the signed bytes, the group, and the signature |
| Responder, PeerStore | goroutines under one WaitGroup, and the peer store |

## What is assumed

Foreign parts are parameters, and the laws asked of them are predicates in the `requires` of the theorems:

- `RpcMessages.Faithful`: Protocol Buffers read back every message; a response without a peer has the empty
  payload and one with a peer has not. A nil claim has no wire form and arrives as an empty claim (`OnWire`). `RpcCodec.LawsCanBeMet` gives a codec with all these laws.
- `Session.Sound` and `Session.Authentic`: authenticated encryption with a 16-byte tag under a key and a
  counter (section 5.1 of the Noise Protocol Framework, revision 34). `Authentic`, that a frame opens under
  no other counter, is needed only to show what an oversized write breaks. `Session.LawsCanBeMet` gives a
  scheme with both laws.
- `Group.PrimeOrder`: a commutative group of prime order with a canonical 32-byte encoding;
  `Group.ParityHasPrimeOrder` gives one.
- `IdentitySignature.Digest`: a hash to 64 bytes; nothing else is asked of it.
- `Address.Canonicity`: any predicate that says which 32 bytes encode a group element (section 4.3.1 of
  RFC 9496).
- In the get_peers protocol no message reaches 2^32 bytes, and the protocol id has at most 255 bytes.

## Where the code falls short of a plain statement

Each of these is proved as an exact condition, with a witness where one is needed.

- A printed single address shorter than 45 characters, which takes a spend key with five or more leading
  zero bytes, is refused by the base58 parser (`AddressText.FromToBase58`, `AddressLengths.SingleFromToBase58`,
  `AddressLengths.ZeroKeyIsNotReadBack`). Likewise for the parser of dual addresses below 89 characters
  (`AddressLengths.DualFromToBase58`, `AddressLengths.ZeroKeysAreNotReadBackAsDual`).
- A write of more than 65519 bytes is refused only after the sending counter has moved, so the two ends are
  out of step from then on, and nothing written later arrives (`SessionRuns.WriteKeepsStepIff`,
  `SessionRuns.OversizedWriteBreaksTheSession`).
- The responder switches its framing after the write of its verdict has gone through. A caller that has the
  verdict already may have sent a canonical frame by then; since the responder is not reading, no harm comes
  of it (`GetPeersProtocol.ModesMatchExactly`, `GetPeersProtocol.ModesCanDiffer`).
- More than 100000 responses are an error for the caller even if the last of them carries FIN, and the
  responder is then left writing unless the pipe can hold the rest (`GetPeersProtocol.CallerReturns`,
  `GetPeersProtocol.ResponderBeyondCap`).
- Of a signature's version exactly the low byte is signed (`IdentitySignature.VersionHighBytesAreUnsigned`).
- `p2p/frame.go:48-54` notes that the Rust program skips empty frames; this one hands them up, and it is the
  adapter that skips them. `address/pubkey.go:17-19` speaks of the all-zero key as no valid encoding, whereas
  RFC 9496 encodes the identity so; the model leaves canonicity open and holds either way.

## Model

| member | source | states |
|---|---|---|
| DammSum.Horner | address/dammsum.go:26-37 | appending a byte to the data is one round of the checksum loop, over the polynomial value of the data for strings of any length |
| DammSum.Step | address/dammsum.go:29-34 | one round, by shift, top-bit test and mask, is doubling in GF(256) of the sum |
| DammSum.ComputeChecksum | address/dammsum.go:26-37 | the loop computes the value of the data bytes as a polynomial over GF(256), whatever the length |
| DammSum.OrderOfX | address/dammsum.go:22-34 | multiplying k times by x fixes a non-zero byte exactly when 51 divides k |
| DammSum.ReductionLaw | address/dammsum.go:15-22 | x^8 = x^4 + x^3 + x + 1, the polynomial of the mask |
| DammSum.XorOnBytes | address/dammsum.go:29 | adding is bitwise exclusive or of the byte numbers |
| DammSum.DoubleOnBytes | address/dammsum.go:30-34 | doubling a byte s gives 2s, and from 128 on 2s - 256 with 27 added bit by bit |
| DammSum.ChecksumIsRounds | address/dammsum.go:26-37 | the check byte is what the rounds on byte numbers come to, for data of any length |
| DammSum.CheckByteUnique | address/dammsum.go:42-50 | of the 256 possible check bytes exactly the computed one validates, and validation then returns the data |
| DammSum.SubstitutionDetected | address/dammsum.go:42-50 | changing any one byte of a valid string of any length makes it invalid |
| DammSum.SwapDetected | address/dammsum.go:42-50 | swapping two unequal bytes of a valid string is detected if and only if their distance is not a multiple of 51 |
| DammSum.ShortSwapDetected | address/dammsum.go:42-50 | every swap of unequal bytes is detected in a string of at most 51 bytes, such as a 35-byte address |
| Base58.SymbolIs | address/base58.go:35-37 | digit d is character d of the alphabet of 58 without 0, O, I and l |
| Base58.AlphabetIs | address/base58.go:46-48 | a character belongs to the alphabet exactly if it stands in it, at the place of its digit |
| Base58.EncodeKeepsValue | address/base58.go:35-37 | the characters of an encoding spell in base 58 the number that the bytes spell in base 256, with as many zeros in front |
| Base58.DecodeRefuses | address/base58.go:46-48 | decoding fails exactly on the empty string and on a character outside the alphabet |
| Base58.RebaseRoundTrip | address/base58.go:35-48 | changing the base of a digit string and back, leading zeros kept, is the identity: big-number arithmetic proved |
| Base58.DecodeEncode | address/base58.go:46-48 | decoding inverts encoding on every non-empty byte string |
| Base58.EncodeDecode | address/base58.go:46-48 | what decodes is the encoding of its result, so no two strings decode alike |
| Base58.EncodeSingleByte | address/base58.go:35-37 | a byte below 58 is printed as exactly one character, its alphabet symbol |
| Base58.DecodeSingle | address/base58.go:46-48 | one character decodes to one byte |
| Base58.EncodeLength | address/single_address.go:15-22 | bounds on the length of an encoding from its leading zeros and from how powers of 58 and 256 compare |
| Emoji.ReverseTable | address/emoji.go:26-32 | the loop over the table yields a map that sends every symbol to its byte and holds no other symbol |
| Emoji.EmojiIs | address/emoji.go:8-23 | the code point of the symbol of every byte |
| Emoji.EmojiInjective | address/emoji.go:8-23 | no symbol occurs twice among the 256 |
| Emoji.EmojiIsForeign | address/emoji.go:8-23 | no symbol is ASCII, white space or the bar that the parser removes |
| Emoji.FromToEmoji | address/dual_address.go:94-108 | reading back the symbols of any byte string gives the byte string |
| Emoji.ToFromEmoji | address/dual_address.go:94-108 | a string that is read is the string of its bytes, so no two strings are read alike |
| Emoji.EmojiToBytes | address/single_address.go:53-66 | the look-up loop returns the bytes spelled, or fails at the first symbol outside the table, with any table that inverts the symbols |
| Hex.FromToHex | address/address.go:261-270 | hexadecimal decoding inverts encoding |
| Hex.ToHexIs | address/address.go:261 | each byte is printed as two lower-case digits, the high one first |
| Hex.FromHexReadsBothCases | address/address.go:264-270 | a string is read as some bytes exactly if it spells them two digits each, in any mixture of cases |
| Hex.ToHexInjective | cmd/p2p-responder-spike/main.go:228 | different keys have different hexadecimal strings |
| Text.Utf8IsStandard | address/address.go:227-230 | the byte lengths that decide sizes are those of UTF-8, with its one to four bytes a code point |
| Text.SpacesAre | address/address.go:278 | exactly 25 given code points are trimmed as white space |
| Text.TrimTakes | address/address.go:278 | trimming takes off white space on both sides and leaves none there |
| Text.RemoveBarsSplit | address/address.go:278 | bars are removed wherever they stand, and all else stays in order |
| Address.NetworkBytes | address/network.go:20-27 | the wire byte of each of the six networks, and that there are no others |
| Address.FeatureBits | address/features.go:11-30 | the bit of each flag, and that combining is a bitwise or |
| Address.Layout | address/dual_address.go:166-176 | network, features, view key, spend key, memo and check byte stand at these places of an encoded address |
| Address.WhyBytesAreRefused | address/address.go:176-193 | bytes decode exactly under five conditions, and otherwise the first that fails is reported; the parsers of one kind differ only in the size |
| Address.NetworkRoundTrip | address/network.go:57-74 | the six network bytes and no others are recognised, and each names one network |
| Address.FeaturesRoundTrip | address/features.go:64-69 | a feature byte is accepted only without bits outside the three flags, and denotes one set of flags |
| Address.SizeOfBytes | address/address.go:168-173 | a valid address encodes to 35 bytes if single, to 67 plus its memo if dual |
| Address.FromToBytes | address/address.go:176-193 | every valid address decodes from its own bytes, with its kind preserved, also by the parser of its kind |
| Address.ToFromBytes | address/address.go:176-193 | every byte string that decodes re-encodes to itself, and what it decodes to is a valid address |
| Address.ChecksumHolds | address/address.go:162-173 | the last byte of an encoded address is the check byte of the rest |
| Address.ChangedByteRefused | address/single_address.go:89-109 | an encoded address with any one byte changed never decodes, as an address of either kind |
| Address.SwappedBytesRefused | address/dual_address.go:130-163 | an encoded single address with any two unequal bytes swapped never decodes; for a dual address, if their distance is not a multiple of 51 |
| Address.NewDualIsValid | address/dual_address.go:42-53 | a dual address is made exactly if its memo has at most 256 bytes; it is valid, has the keys, network and flags given, and is marked as carrying a memo if one was given, even an empty one |
| Address.MemoSurvivesBytes | address/address.go:150-159 | a memo is taken exactly by a dual address and up to 256 bytes; the address stays valid, keeps network, keys and the other flags, is marked, decodes from its bytes, and a later memo replaces the earlier |
| AddressText.PiecesRejoin | address/base58.go:58-66 | with network and feature bytes below 58 the three separately encoded pieces are cut apart and decoded again |
| AddressText.PiecesUnique | address/base58.go:58-66 | three pieces that can be joined are the pieces of the bytes they give |
| AddressText.FromToBase58 | address/address.go:227-258 | a printed address is read back if and only if its string has at least 45 characters; otherwise it is single and refused for its size |
| AddressText.ToFromBase58 | address/address.go:227-258 | every string that the base58 parser accepts, of any characters, is the printed form of the valid address it returns |
| AddressText.FromToEmojiString | address/address.go:201-224 | the emoji string of a valid address is read back, its length choosing the kind |
| AddressText.FromToHexString | address/address.go:261-270 | the hexadecimal string of a valid address is read back |
| AddressText.HexIsNotBase58 | address/address.go:277-289 | no hexadecimal string of an address passes the base58 attempt, since the third character is always the digit zero |
| AddressText.AsciiFailsEmojiAttempt | address/address.go:277-289 | no ASCII string that begins with neither white space nor a bar passes the emoji attempt |
| AddressText.ParseEmoji | address/address.go:277-289 | an emoji string with any white space before and after it and bars anywhere in it is read back |
| AddressText.ParseInvertsPrinters | address/address.go:277-289 | despite the fixed order of attempts every valid address is recovered from its emoji and hexadecimal strings, and from its base58 string exactly when that has at least 45 characters |
| AddressText.PrintedForms | address/address.go:219-261 | byte by byte and digit by digit, the emoji string, the lower-case hexadecimal string and the three pieces of the base58 string of every address |
| AddressText.EmojiIff | address/address.go:210-216 | a string is accepted as an emoji string exactly if it is the one printed for the valid address it gives |
| AddressText.Base58Iff | address/address.go:227-249 | a string is accepted as base58 exactly if it is the one printed for the valid address it gives and has at least 45 characters |
| AddressText.HexIff | address/address.go:264-270 | a string is accepted as hexadecimal exactly if it spells, in either case, the bytes of the valid address it gives |
| AddressText.KindBase58Iff | address/single_address.go:122-144 | the base58 parsers of one kind accept exactly what the printer of that kind prints within 45 to 48 or 89 to 443 characters |
| AddressText.WhyBase58IsRefused | address/address.go:227-249 | a base58 string is refused for its size, then for the first of its three pieces with a foreign character, then as its bytes are |
| AddressText.WhyEmojiIsRefused | address/address.go:201-216 | an emoji string is refused for its count, then for a symbol outside the table, then as its bytes are |
| AddressText.ParseIff | address/address.go:277-289 | of all strings exactly these are parsed to an address: its emoji string with outer white space and bars, its base58 string of at least 45 characters, and its bytes in hexadecimal of either case; all else is one error |
| AddressLengths.SingleBounds | address/single_address.go:15-22 | the comparisons of powers of 58 and 256 behind the limits 45 and 48 |
| AddressLengths.DualBounds | address/dual_address.go:20-25 | the comparisons of powers of 58 and 256 behind the lengths 89 to 441, for every memo of at most 256 bytes |
| AddressLengths.SingleLength | address/single_address.go:147-153 | a single address whose spend key has at most four leading zero bytes prints to 45 to 48 characters |
| AddressLengths.DualLength | address/dual_address.go:204-210 | a dual address whose view key has at most three leading zero bytes prints to 89 to 441 characters, with any memo |
| AddressLengths.ZeroKeyIsNotReadBack | address/address.go:227-230 | the single address of the all-zero key prints to fewer than 45 characters and is refused for its size |
| AddressLengths.ZeroKeysAreNotReadBackAsDual | address/dual_address.go:179-182 | the dual address of two all-zero keys without a memo prints to fewer than 89 characters and is refused for its size by the parser of dual addresses |
| AddressLengths.SingleFromToBase58 | address/single_address.go:122-153 | the parser of single addresses inverts the printer if and only if the string is within 45 to 48 characters, hence for at most four leading zero bytes |
| AddressLengths.DualFromToBase58 | address/dual_address.go:179-210 | the parser of dual addresses inverts the printer if and only if the string is within 89 to 443 characters, hence for at most three leading zero bytes |
| Combine.UnitesJoin | address/address.go:296-318 | two combinations can be combined exactly when all the addresses in both agree, and the result unites them all |
| Combine.AnyBracketing | address/address.go:296-318 | a combination of any list of addresses in any bracketing succeeds exactly when all spend keys, all networks and all dual view keys agree, and is their union without a memo |
| Combine.CombinationIsASetFunction | address/address.go:296-318 | two combinations of the same addresses in any order, bracketing and repetition both fail or give the same address |
| Combine.CombineLaws | address/address.go:296-318 | commutative and associative where defined; idempotent up to dropping the memo |
| Combine.WhyNotCombined | address/address.go:296-318 | which of spend keys, networks and view keys is reported to disagree |
| Frames.NegotiationRoundTrip | p2p/rpc/negotiation.go:42-66 | a protocol id of at most 255 bytes and its flags are decoded from their frame |
| Frames.CanonicalRoundTrip | p2p/rpc/canonicalframe.go:28-51 | a payload of less than 2^32 bytes is decoded from its frame |
| Frames.CanonicalLayout | p2p/rpc/canonicalframe.go:28-33 | the length stands in four bytes, the most significant first, and the payload follows |
| Frames.DecodesWholeFrames | p2p/rpc/canonicalframe.go:41-51 | what decodes, of either kind, is exactly one whole frame; part of a header and a wrong length are told apart |
| Frames.OversizedPayloadRefused | p2p/rpc/canonicalframe.go:28-51 | the wrapped length of any longer payload makes its frame undecodable |
| Frames.MissingOfPrefix | p2p/rpc/streamtransport.go:150-185 | having part of a frame, the reads in progress ask for no byte beyond it, and for none exactly when it is complete |
| Frames.CutFramesOfConcat | p2p/rpc/streamtransport.go:150-185 | frames of one kind written one after the other are cut apart again, with exactly the bytes behind them left |
| Frames.CutFramesUnique | p2p/rpc/streamtransport.go:150-185 | whatever frames can be cut off an input are the bytes at its beginning |
| StreamTransport.StreamTransport.ReadFull | p2p/rpc/streamtransport.go:150-164 | reads of arbitrary sizes add up to exactly the first n bytes, or to an error at the end of the stream |
| StreamTransport.StreamTransport.ReceiveFrame | p2p/rpc/streamtransport.go:138-185 | exactly one frame of the current kind is consumed, for every chunking of the underlying reads, or an error is returned |
| StreamTransport.StreamTransport.ReceiveSession | p2p/rpc/streamtransport.go:127-185 | for any negotiation frames followed by any canonical frames, a receiver that switches at the boundary gets exactly those frames and consumes exactly their bytes |
| StreamTransport.SwitchRecoversBoth | p2p/rpc/streamtransport.go:111-143 | the same for the cuts as a function: the switch at the boundary recovers both lists |
| GetPeersClient.NegotiateProtocol | p2p/rpc/negotiation.go:87-115 | the procedure refines the step machine: every error exit is an end of the machine, and success leaves the machine about to write its session frame |
| GetPeersClient.PerformSessionHandshake | p2p/rpc/handshake.go:37-71 | likewise for the handshake, up to the request |
| GetPeersClient.CollectPeers | p2p/rpc/dht_getpeers.go:118-157 | the loop over responses refines the step machine, with its cap of 100000 iterations |
| GetPeersClient.GetPeers | p2p/rpc/dht_getpeers.go:76-157 | the whole call returns, writes and leaves unread what the step machine does, on every input |
| GetPeersClient.CompleteStreamIsCollected | p2p/rpc/dht_getpeers.go:118-156 | a stream of at most 100000 responses with zero status, of which only the last has FIN, yields its peers in order, and nothing behind it is read |
| GetPeersClient.CollectedIsCompleteStream | p2p/rpc/dht_getpeers.go:118-156 | on any input, well-formed or not, at most 100000 responses are read off its beginning, whatever the outcome; an end of stream means that no whole frame follows and the cap is not reached; success means a complete stream was read and exactly its peers are returned, in order |
| CallOutcomes.LongIdIsRefused | p2p/rpc/negotiation.go:87-92 | a protocol id of more than 255 bytes is refused with nothing written or read |
| CallOutcomes.NoVerdict | p2p/rpc/negotiation.go:94-97 | an input that ends before the verdict fails the call, with the negotiation frame written |
| CallOutcomes.Verdict | p2p/rpc/negotiation.go:98-115 | the flags of bits 1 and 2 and any other id end the call with these errors and the rest unread; otherwise the session is offered |
| CallOutcomes.NoReply | p2p/rpc/handshake.go:47-50 | an input that ends before the reply fails the call, with the session offer written |
| CallOutcomes.Reply | p2p/rpc/handshake.go:51-70 | only an accepted version lets the caller write its request, with method 10; a rejection is reported with its reason, the other replies as invalid, with nothing more written and the rest unread |
| CallOutcomes.ResponsesAddUp | p2p/rpc/dht_getpeers.go:118-156 | responses without FIN add up their peers until there have been 100000, which is an error |
| CallOutcomes.BadResponse | p2p/rpc/dht_getpeers.go:128-149 | an unreadable response, a status and an unreadable payload end the call with these errors |
| CallOutcomes.NoResponse | p2p/rpc/dht_getpeers.go:124-127 | an input that ends before the next response fails the call |
| CallOutcomes.GoodAnswerSucceeds | p2p/rpc/dht_getpeers.go:76-157 | on a verdict, an accepted version and a complete stream of at most 100000 responses the whole call returns its peers, having written exactly three frames, and reads nothing behind it |
| CallOutcomes.SuccessNeedsGoodAnswer | p2p/rpc/dht_getpeers.go:76-157 | a call succeeds on no other input |
| GetPeersServer.BoundClaimAddresses | p2p/rpc/dht_getpeers_responder.go:160-179 | the addresses of a claim are cut to the bound asked for, nil claims kept |
| GetPeersServer.BoundPeerClaims | p2p/rpc/dht_getpeers_responder.go:135-155 | the loop gives the first claims up to the bound, each with its addresses bounded, nil peers kept |
| GetPeersServer.BoundPeersForRequest | p2p/rpc/dht_getpeers_responder.go:118-129 | the loop gives the first peers up to the bound, each bounded in turn |
| GetPeersServer.BoundsAreKept | p2p/rpc/dht_getpeers_responder.go:118-179 | the peers, the claims of each and the addresses of each are the first ones, exactly as many as there are or as the bound allows, with keys, features, signatures and nil entries kept |
| GetPeersServer.BoundedIsUnique | p2p/rpc/dht_getpeers_responder.go:118-179 | that describes one list only |
| GetPeersServer.BoundingTwice | p2p/rpc/dht_getpeers_responder.go:118-179 | bounding what is bounded already changes nothing |
| GetPeersServer.NegotiateProtocolInbound | p2p/rpc/negotiation.go:126-163 | the procedure, with its search through the supported protocols, refines the step machine |
| GetPeersServer.PerformSessionHandshakeResponder | p2p/rpc/handshake.go:77-102 | likewise for the handshake |
| GetPeersServer.SendPeers | p2p/rpc/dht_getpeers_responder.go:68-104 | the send loop refines the step machine: one response a peer, FIN on the last, one empty FIN response for no peers |
| GetPeersServer.ServeGetPeers | p2p/rpc/dht_getpeers_responder.go:41-104 | the whole responder returns, writes and leaves unread what the step machine does, on every input |
| ServeOutcomes.NoRequestedId | p2p/rpc/negotiation.go:126-130 | an input that ends before a request for a protocol fails with nothing written |
| ServeOutcomes.Verdict | p2p/rpc/negotiation.go:135-163 | an id in the list is sent back; any other is answered with flag 4, and the rest stays unread |
| ServeOutcomes.NoSession | p2p/rpc/handshake.go:78-81 | an input that ends before the session fails with the verdict written |
| ServeOutcomes.SessionOffered | p2p/rpc/handshake.go:82-101 | any session that can be read is answered with version 0, one that cannot ends the call |
| ServeOutcomes.NoRequest | p2p/rpc/dht_getpeers_responder.go:50-53 | an input that ends before the request fails with verdict and acceptance written |
| ServeOutcomes.RequestAnswered | p2p/rpc/dht_getpeers_responder.go:54-103 | a request that can be read is answered with one response a bounded peer under the request's own id, status 0 and FIN on the last, or one empty FIN response; one that cannot is not answered |
| Pipe.MoveKeepsBytes | p2p/rpc/streamtransport.go:27-31 | a transfer through a pipe of any capacity loses, repeats and reorders no byte and brings the bytes nearer to the reader |
| RpcMessages.DhtProtocolId | p2p/rpc/dht_getpeers.go:17 | the protocol id in use is t/dht/1 |
| RpcMessages.OnWireKeeps | p2p/rpc/dht_getpeers_responder.go:86-90 | a peer goes over the wire unchanged exactly if none of its claims is nil |
| GetPeersProtocol.StepKeepsInv | p2p/rpc/dht_getpeers.go:76-157 | every step of caller, responder or pipe keeps the invariant that ties both sides' places to the frames sent and the bytes unread |
| GetPeersProtocol.StepDecreasesMeasure | p2p/rpc/dht_getpeers.go:76-157 | every step of the two-party machine decreases a measure |
| GetPeersProtocol.RunsAreBounded | p2p/rpc/dht_getpeers.go:76-157 | no run is longer than the measure of its start |
| GetPeersProtocol.NoDeadlock | p2p/rpc/dht_getpeers_responder.go:41-104 | with at most 100000 responses some step is enabled until both sides have returned, over a pipe of any capacity, the unbuffered rendezvous included |
| GetPeersProtocol.ModesMatchFrames | p2p/rpc/streamtransport.go:111-143 | in every reachable state a side that reads is in the mode of the next frame addressed to it, which stands at the head of its unread bytes |
| GetPeersProtocol.ModesMatchExactly | p2p/rpc/dht_getpeers_responder.go:41-46 | counting also sides that are writing, the modes match in every reachable state except for a responder whose verdict is still being written when canonical bytes have arrived |
| GetPeersProtocol.ModesCanDiffer | p2p/rpc/dht_getpeers_responder.go:41-46 | that exception is reached in seven steps over a pipe of any capacity |
| GetPeersProtocol.ResultsAreSettled | p2p/rpc/negotiation.go:87-163 | in any run whatever either side has returned is fixed: success exactly when the protocol id is in the responder's list, otherwise not-supported on both sides; the caller's cap applies beyond 100000 responses |
| GetPeersProtocol.MaximalRunsComplete | p2p/rpc/dht_getpeers.go:76-157 | with at most 100000 responses every maximal run ends with both sides returned, all bytes read, and the caller holding exactly the non-nil peers of the bounded list, in order, or both reporting not-supported |
| GetPeersProtocol.CanBeFinished | p2p/rpc/dht_getpeers.go:76-157 | every run can be prolonged to a maximal one |
| GetPeersProtocol.CallerReturns | p2p/rpc/dht_getpeers.go:118-157 | with any number of responses the caller has returned at the end of every maximal run: with the peers up to 100000 responses, with an error beyond |
| GetPeersProtocol.ResponderBeyondCap | p2p/rpc/dht_getpeers_responder.go:83-103 | beyond the cap the responder returns at the end of a maximal run if and only if the pipe can hold all the responses left |
| GetPeersProtocol.DhtCallSucceedsWithinCap | p2p/rpc/dht_getpeers.go:119-121 | for the protocol id in use every maximal run brings the caller the peers if there are at most 100000 bounded ones, and the error if there are more |
| Session.CutOfFrame | p2p/frame.go:29-71 | a payload of at most 65535 bytes is read back from its frame, with the bytes behind it left |
| Session.FrameLayout | p2p/frame.go:29-45 | the length stands in two bytes, the more significant first, and the payload follows |
| Session.CutFrameIff | p2p/frame.go:57-71 | a frame is cut off exactly where one stands, and none exactly if fewer bytes are there than announced |
| Session.SendOutcome | p2p/session.go:43-52 | with the counters used up nothing happens, a plaintext over 65519 bytes costs a counter, and otherwise exactly its frame goes out |
| Session.ReceiveOutcome | p2p/session.go:56-66 | a frame is taken off whatever comes of it, the counter moves on only if it opens, and part of a frame is the end of the stream |
| Session.Endpoint.Initiator | p2p/handshake.go:146-152 | the initiator sends with the first cipher state and receives with the second |
| Session.Endpoint.Responder | p2p/handshake.go:225-231 | the responder uses them the other way round |
| Session.Endpoint.SendFrame | p2p/session.go:43-52 | seals under the counter, advances it even if the frame is then too long to write, and appends exactly the frame |
| Session.Endpoint.ReceiveFrame | p2p/session.go:56-66 | consumes exactly one frame and advances the counter exactly if it opens |
| Session.Endpoint.Write | p2p/yamuxadapter.go:40-45 | one frame a write, reported as written in full |
| Session.Endpoint.Read | p2p/yamuxadapter.go:53-73 | drains the leftover first, skips empty frames, and keeps what does not fit the buffer |
| SessionRuns.Establish | p2p/handshake.go:146-152 | two ends made from the same pair of cipher states, one as initiator and one as responder, form the established session that the runs start from |
| SessionRuns.WriteKeepsStep | p2p/session.go:43-52 | a write of at most 65519 bytes keeps both ends in step, and fails only when the counter is used up |
| SessionRuns.FetchKeepsStep | p2p/session.go:56-66 | the next frame on the connection always opens, to the next write |
| SessionRuns.RunKeepsStep | p2p/handshake.go:146-152 | over every run of both directions the two counters of a direction count the frames sent and read |
| SessionRuns.BytesAreConserved | p2p/yamuxadapter.go:40-73 | over every run whose writes fit, bytes delivered, left over and in flight are together the concatenation of all writes, for any read sizes |
| SessionRuns.ReadFindsBytes | p2p/yamuxadapter.go:53-73 | at any point of a run a read takes from what is left over, or else from the next write that has bytes, passing over empty ones, and fails only if there are none |
| SessionRuns.EmptyRead | p2p/yamuxadapter.go:54-56 | a read into an empty buffer changes nothing |
| SessionRuns.ReadReturnsSomeBytes | p2p/yamuxadapter.go:53-73 | a successful read into a non-empty buffer of n bytes returns between 1 and n bytes |
| SessionRuns.ReadIsActions | p2p/yamuxadapter.go:53-73 | a call of Read is a number of rounds of its loop and one delivery, which are the actions of the runs |
| SessionRuns.WriteKeepsStepIff | p2p/session.go:43-52 | a write keeps the ends in step if and only if it has at most 65519 bytes or the counter was used up |
| SessionRuns.OversizedWriteBreaksTheSession | p2p/frame.go:29-32 | after a refused oversized write, over every continuation of the run, what the receiver gets stays a beginning of the writes before it, and once it has those every further frame is refused |
| IdentityExchange.IdentityLayout | p2p/identity.go:147-158 | version 0, two bytes of length, the less significant first, and the message; over 1024 bytes there is no frame |
| IdentityExchange.DecodeIdentityIff | p2p/identity.go:165-190 | what decodes is exactly the frame of a message with anything after it |
| IdentityExchange.WhyIdentityIsRefused | p2p/identity.go:165-183 | all else is refused for its header, its version, its length or its missing bytes, in this order |
| IdentityExchange.IdentityRoundTrip | p2p/identity.go:147-190 | a message of at most 1024 bytes is read back from its frame, trailing bytes ignored |
| IdentityExchange.StepKeepsInv | p2p/session.go:108-169 | every step of either side or the pipe keeps the invariant of both lanes |
| IdentityExchange.NoDeadlock | p2p/session.go:77-84 | until both sides have returned some step is enabled, if the halves run concurrently or one frame fits into the pipe |
| IdentityExchange.RunsAreBounded | p2p/session.go:108-169 | no run goes on for ever |
| IdentityExchange.MaximalRunsExchange | p2p/session.go:108-169 | every maximal run of two concurrent exchanges, over a pipe of any capacity including none, ends with each side returned and holding exactly the other's message |
| IdentityExchange.SequentialRunsDeadlock | p2p/session.go:77-84 | writing first and reading afterwards, with neither frame fitting into the pipe, no run ever gets either side a message |
| IdentityExchange.DeadlockIsReached | p2p/session.go:77-84 | and a stuck state is reached in that case |
| Transcript.Hasher.constructor | p2p/hashing.go:103-114 | the hash starts with the length-prefixed domain tag |
| Transcript.Hasher.Chain | p2p/hashing.go:81-86 | each chunk is fed with its length in front |
| Transcript.ConstructChallenge | p2p/identity_signature.go:45-62 | the challenge is the hash of tag, key, nonce, version byte, timestamp, features and every address in order, each a chunk of its own |
| Transcript.ChunksAreReadable | p2p/hashing.go:81-86 | the bytes fed determine the list of chunks: number, order and boundaries |
| Transcript.TranscriptDeterminesClaim | p2p/identity_signature.go:45-62 | two claims with the same transcript are equal in key, nonce, version byte, timestamp, features and address list |
| Transcript.TranscriptReadsBack | p2p/identity_signature.go:45-62 | read chunk by chunk, a transcript is the tag com.tari.comms.core.peer_manager.v1.identity_signature, key, nonce, version byte, timestamp and features as little-endian words, and every address in order |
| Group.MulInjective | p2p/identity_signature.go:162-169 | in a group of prime order different scalars take an element other than zero to different elements |
| IdentitySignature.UniformScalarIs | p2p/ristretto_dh.go:62-85 | 64 bytes give the scalar congruent to their little-endian number, and no other size gives any |
| IdentitySignature.CanonicalScalarIs | p2p/identity_signature.go:147-150 | a scalar is read from exactly the 32 bytes whose little-endian number is below the order |
| IdentitySignature.GeneratedKeypairMatches | p2p/ristretto_dh.go:62-85 | the secret is the canonical scalar congruent to the 64 random bytes as a little-endian number, with the public key that belongs to it; other seeds are refused |
| IdentitySignature.BothSidesAgree | p2p/ristretto_dh.go:95-116 | two matching keypairs derive the same bytes, those of the product of their secrets times the base |
| IdentitySignature.AgreeRefuses | p2p/ristretto_dh.go:95-110 | a secret that is no canonical scalar is refused first, then a key that encodes no element |
| IdentitySignature.VerifyMeans | p2p/identity_signature.go:138-170 | a readable signature is valid exactly if its scalar times the base is the nonce plus the digest, as a number, times the key; otherwise the first malformed part is reported |
| IdentitySignature.VerifyIdentitySignature | p2p/identity_signature.go:138-170 | decides the Schnorr equation, with an error for each malformed part |
| IdentitySignature.BuildIdentitySignature | p2p/identity_signature.go:82-124 | with a matching keypair the signature built verifies, for every nonce, time, feature word and address list; only a secret that is no scalar is refused |
| IdentitySignature.ValidForBothIff | p2p/identity_signature.go:138-170 | for a key other than zero, a proof valid for one claim is valid for another, differing in version, timestamp, features or addresses, if and only if their digests are congruent as numbers modulo the order |
| IdentitySignature.TwoClaimsAreACollision | p2p/identity_signature.go:138-170 | so one proof for two claims that differ in version byte, timestamp, features or addresses means two different transcripts with congruent digests |
| IdentitySignature.ZeroKeySignsEverything | p2p/identity_signature.go:154-169 | the key zero has to be excluded: under it a proof valid for one claim is valid for all |
| IdentitySignature.ScalarIsUnique | p2p/identity_signature.go:147-169 | for one nonce and one claim exactly one scalar verifies |
| IdentitySignature.VersionHighBytesAreUnsigned | p2p/identity_signature.go:143 | a change of version leaves the transcript as it is if and only if it leaves the low byte as it is, and then the signature verifies as before |
| Responder.StepKeepsInv | p2p/responder.go:124-211 | every step of every goroutine keeps the WaitGroup counter equal to the number of goroutines live or about to start |
| Responder.CounterCountsGoroutines | p2p/responder.go:124-211 | so in every interleaving of Serve |
| Responder.WaitGroupDiscipline | p2p/responder.go:202-206 | the counter never goes below zero, a substream's Add always finds it positive, and Serve's own Add never happens once it waits |
| Responder.NothingAfterReturn | p2p/responder.go:117-121 | once Serve has returned no goroutine is live and no step of anything can follow |
| Responder.StreamsComeAfterIdentity | p2p/responder.go:152-203 | no substream is accepted on a connection before its handshake, its identity callback and then the start of its loop |
| Responder.RunsEndWithReturn | p2p/responder.go:124-145 | a run with n accepts has at most 2 + 7n steps, and cannot go on exactly when Serve has returned |
| Responder.EveryAcceptIsHandled | p2p/responder.go:124-211 | by then every connection and substream accepted had its goroutine, and it has finished |
| PeerStore.Store.Record | cmd/p2p-responder-spike/main.go:227-244 | the record replaces any earlier one of the same key |
| PeerStore.Store.List | cmd/p2p-responder-spike/main.go:253-273 | entries older than the window are forgotten, and up to 200 of the others are returned, in whatever order the map is walked |
| PeerStore.StoreFollowsCalls | cmd/p2p-responder-spike/main.go:227-273 | over every run with a clock that never goes back, entries are the latest records of their keys, and no latest record within the hour is missing |
| PeerStore.PrunedIsRecent | cmd/p2p-responder-spike/main.go:259-263 | after pruning the store holds exactly the keys last recorded within the hour |
| PeerStore.ListByCalls | cmd/p2p-responder-spike/main.go:253-273 | in terms of the calls alone: List gives each key last recorded at most 3600000000000 nanoseconds before, exactly as that call recorded it, all of them up to 200 and otherwise 200 |
| PeerStore.ListGivesRecentPeers | cmd/p2p-responder-spike/main.go:253-273 | a call of List returns at most 200 peers with distinct static keys, each as recorded last and at most an hour old, and all such peers if there are no more than 200 |

## Left out

- Noise_XX messages, ChaCha20-Poly1305, Blake2b and Ristretto255 arithmetic: foreign; only the laws above are used.
- Yamux: foreign; a substream is a reliable ordered byte pipe.
- The base58 library: not part of the repository; modelled by the standard definition of draft-msporny-base58, sections 2 to 4, refusing the empty string.
- Strings that are not valid UTF-8: text is a sequence of code points, with sizes counted in UTF-8 bytes where the code counts bytes.
- Addresses put together from network or feature bytes outside the known ones, which the Go constructors do not check.
- Timeouts, context cancellation and I/O errors: the protocol and exchange machines run on reliable pipes, so their error exits are only in the sequential methods; a stream that ends early is modelled there.
- GetPeersProtocol.ResponderBeyondCap: closing the stream after the caller's error is its owner's business and not a step of the machine, so a responder with too much to send is left writing there.
- Error messages: an error is its kind.
- Rejecting session handshakes (`RejectSessionHandshakeResponder`): one send; the caller's reaction to a rejection is modelled.
- The contents of an identity message: the exchange delivers its bytes; parsing them is the codec's.
- IdentitySignature.BuildIdentitySignature: randomness and the clock are parameters (`nonceSeed`, `now`), and seeds have 64 bytes, as the program always reads.
- Transcript.TranscriptDeterminesClaim: keys and addresses of 2^64 bytes or more, which cannot exist, are excluded.
- GetPeersServer.BoundsAreKept: lists of 2^32 entries or more are excluded, as the code compares lengths cast to 32 bits; the bounding methods themselves model the cast.
- PeerStore.ListGivesRecentPeers: calls are atomic; List reads its clock before it takes the lock, so concurrent calls may see each other's effects at slightly different times.
- Responder.StepKeepsInv: a goroutine registered and not yet started counts as about to start until it is spawned, and a spawned one as live; scheduling is not told apart further. What a substream does is get_peers above.
- Chain metadata, the probes, SOCKS, multiaddresses, the gRPC wrappers, key files, flags, signals and logging: single-branch plumbing around the parts modelled.
- Printing of networks and features as names, default constructors and accessors: one expression each.
