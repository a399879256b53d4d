# Signet tooling: a verified model

This project models, in Dafny 4.11, the parts of the signet repository in which bytes, curves and
commitments have to fit together, and proves what the code promises about them:

- the BIP 324 encrypted transport: the ChaCha20 block function on its in-place state, the two rekeying
  ciphers, the AEAD, the handshake with garbage and decoys, and the connection object that receives a
  byte stream in arbitrary pieces; next to it the v1 framing;
- secp256k1 over fractions, batch and table multiplication, BIP 340 signatures, key tweaks, and ECDSA
  signatures in DER;
- scripts with their integers, and Taproot script trees and output keys;
- transactions, blocks, Merkle roots and PSBTs, from stream objects to values and back;
- the signet block pipeline: template, commitment, signing data, PSBT, solution, finished block;
- the checksummed and arithmetic codecs: Bech32 and segwit addresses, descriptor checksums, compact
  targets, compressed amounts.

## How it is laid out

Each part has the form of the code it models. Code that changes fields, buffers or arrays step by step is
a class or a method with loops (`FSChaCha20`, `Poly`, `Aead`, `P2P`, `ScalarMul`, `TxObjects`, `Blocks`,
`PsbtObjects`, `Miner`, `MinerPsbt`, and the loop methods elsewhere); each such method is proved to compute
a function of its inputs or of the old state. The theorems are lemmas about those functions, most of them
over every input, every run or every fragmentation of a stream.

Definitions that many theorems share are tied to something outside themselves: the ChaCha20 block to the rounds of
RFC 8439 and a test vector (`ChaCha20Reference`), the authenticator to another, point addition to the equation of the
chord or tangent (`Curve.AddIff`), signature verification to the equation it stands for (`Schnorr.VerifyIff`,
`Ecdsa.AcceptsIff`), script trees to the verifier's rule of BIP 341 (`TaprootSpend`), Merkle roots to a tree defined
from the root down, checksums to polynomial division over a field (`Field32`), and every serialized record to the
places of its fields (`Layouts`, `SignedTx`, `TemplateLaws`).

Exceptions of the source are values: `None`, `false`, a `Raise` or a `raised` flag. Integers are unbounded
as in Python; where `to_bytes` would raise OverflowError the caller's obligation is a `...Fits` predicate.

Hash functions, HKDF and the ECDH result are arbitrary functions (with their output lengths); the transport is
proved for an arbitrary block function, and `ChaCha20.BlockIsBlock` shows that the concrete one is an instance.
Randomness (garbage, decoys, nonces, the nonce found by grinding) is an arbitrary input. That the field size is
prime, that point addition is associative and that every point has the group order as an exponent are hypotheses
(`Multiples.Group`, `Schnorr.GoodParams`); for ECDSA also that the group order is prime. Everything else about
the curve is proved.

## What turned out not to hold

- A responder in the v2 handshake keeps all it has received exactly when the read with the first byte that differs
  from a v1 message is its first read or ends with that byte; otherwise the length reported as consumed counts
  earlier reads again and bytes are lost (`V2Responder.ResponderKeeps`, `ResponderReachedIff`; an input:
  `ResponderLosesBytes`).
- A responder whose random garbage is empty takes it for garbage not yet sent. Its first key pair is used exactly when
  the read with the deciding byte brought 64 bytes (`V2Responder.FirstAnswerIff`); otherwise every later read
  compares again, and downgrades the connection, waits, or answers with another key pair (`SilentStep`; an input:
  `ResponderRestarts`).
- A v2 responder that is downgraded to v1 has thrown away the beginning of the version message, and delivers nothing
  unless the four bytes it takes for the next header happen to be the magic (`V2Responder.DowngradeLosesFrames`).
- With some negative length fields the v1 loop never ends (`V1Framing.EndlessIff`); exactly with which, and after
  which bytes, is `StuckIff`; an input is `StuckExample`.
- A script number of 76 bytes or more in the list a script is built from is not written as a push of its bytes: the
  length byte is an opcode (`ScriptNum.NumberPushIff`).
- A transaction with outputs but neither inputs nor witness data is not read back (`Ambiguity.TxRoundTripIff`).
- Serializing a transaction changes its witness list in place, and a second serialization may differ
  (`Transactions.SerializedTwice`; an input: `SerializedTwiceExample`).
- Deserializing into a used object leaves its old outputs exactly when there are any and the bytes have neither inputs
  nor witness flag (`Transactions.StaleOutputsIff`; an input: `StaleOutputsExample`).
- A PSBT map with an empty key, or with the same one-byte key as integer and as bytes, is not read back
  (`Psbt.DictRoundTripIff`).
- An ECDSA signature whose s is exactly half the order (rounded down) is kept by the low-s signer and refused by the
  low-s verifier. For which secrets, messages and nonces is `Ecdsa.LowSVerifiesIff`; for every secret and nonce there
  is such a message (`HalfOrderMessage`).
- `taproot_construct` builds script trees of any depth; a leaf below more than 128 branches cannot be spent under the
  rule of BIP 341 (`TaprootSpend.LeafAcceptedIff`).
- Rounding a target up can set the mantissa's top bit that the padding is meant to keep clear
  (`NBits.MantissaTopBitIff`; an input: `MantissaTopBitExample`).
- The comment in `respond_v2_handshake`'s caller speaks of a 12-byte prefix; the code compares 16 bytes, and so
  does the model.

## Model

| member | source | states |
|---|---|---|
| ChaCha20.RotlInjective | miner_imports/test_framework/crypto/chacha20.py:25-28 | rotating a 32-bit word loses nothing |
| ChaCha20.DoubleRoundInPlace | miner_imports/test_framework/crypto/chacha20.py:31-43 | the in-place loop over the eight index quadruples leaves in the array the composition of eight quarter rounds |
| ChaCha20.RoundsInjective | miner_imports/test_framework/crypto/chacha20.py:31-43 | any number of double rounds is a permutation: two different states never become equal |
| ChaCha20.ComputeBlock | miner_imports/test_framework/crypto/chacha20.py:46-64 | the block method returns the 64 bytes of the mixed state plus the initial state, word by word modulo 2^32 |
| ChaCha20.InputsStayApart | miner_imports/test_framework/crypto/chacha20.py:46-64 | different keys, nonces or counters are mixed into different states |
| ChaCha20.BlockIsBlock | miner_imports/test_framework/crypto/chacha20.py:46-64 | with any 64-byte blocks for counters beyond its 32-bit domain, this block function is an instance of the one that everything below is parameterized by |
| ChaCha20Reference.QuarterIs | miner_imports/test_framework/crypto/chacha20.py:35-43 | one index quadruple changes four words as the quarter round of section 2.1 of RFC 8439 does, with rotations bit by bit, and no other word |
| ChaCha20Reference.QuarterRoundVector | miner_imports/test_framework/crypto/chacha20.py:35-43 | that quarter round satisfies the test vector of section 2.1.1 of RFC 8439 |
| ChaCha20Reference.RoundsAre | miner_imports/test_framework/crypto/chacha20.py:31-43 | n double rounds are 2n rounds over the columns and diagonals of the square |
| ChaCha20Reference.StateLayout | miner_imports/test_framework/crypto/chacha20.py:48-55 | the bytes of the initial state are "expand 32-byte k", the key, the counter and the nonce |
| ChaCha20Reference.BlockIs | miner_imports/test_framework/crypto/chacha20.py:46-64 | the block is the state after twenty rounds, columns and diagonals in turn, added to the state before them, as section 2.3 of RFC 8439 has it |
| StreamCipher.FSChaCha20.GetKeystreamBytes | miner_imports/test_framework/crypto/chacha20.py:75-82 | the buffered bytes are the next bytes of the plain keystream of the current epoch; blocks are generated only as far as needed |
| StreamCipher.FSChaCha20.Crypt | miner_imports/test_framework/crypto/chacha20.py:84-92 | one call combines the chunk with the next keystream bytes; at the end of an epoch the following 32 bytes become the key |
| StreamCipherRuns.PositionClosedForm | miner_imports/test_framework/crypto/chacha20.py:84-92 | after any number of calls key, counter and offset have a closed form |
| StreamCipherRuns.OutputIsKeystreamSlice | miner_imports/test_framework/crypto/chacha20.py:75-92 | every output of a run is its chunk combined with the slice of the epoch's plain keystream that starts where the previous chunk stopped |
| StreamCipherRuns.NoKeystreamReuse | miner_imports/test_framework/crypto/chacha20.py:75-92 | over a whole run no two data bytes meet the same keystream byte |
| StreamCipherRuns.KeyBytesFollowData | miner_imports/test_framework/crypto/chacha20.py:89-92 | the keystream bytes that become key material come after all data of the epoch |
| StreamCipherRuns.EpochNonceInjective | miner_imports/test_framework/crypto/chacha20.py:75-82 | different epochs use different nonces |
| StreamCipher.EpochNonce | miner_imports/test_framework/crypto/chacha20.py:78 | four zero bytes and the epoch, lowest byte first |
| StreamCipherRuns.RunInverts | miner_imports/test_framework/crypto/chacha20.py:84-92 | a second instance with the same key undoes the whole run, call by call |
| StreamCipherRuns.LengthEpochDrawsElevenBlocks | miner_imports/test_framework/crypto/chacha20.py:75-92 | 224 length fields and the next key use exactly 11 blocks |
| Poly.Poly1305.Tag | miner_imports/test_framework/crypto/poly1305.py:25-32 | the loop over 16-byte chunks computes the polynomial in r modulo 2^130-5, plus s, modulo 2^128 |
| Poly.PolynomialSnoc | miner_imports/test_framework/crypto/poly1305.py:28-31 | one turn of the loop is one step of Horner's rule for that polynomial (section 2.5 of RFC 8439) |
| Poly.ClampIsByteMasking | miner_imports/test_framework/crypto/poly1305.py:21-23 | the single mask of the constructor clears exactly the bits that section 2.5 of RFC 8439 lists byte by byte |
| Poly.TagVector | miner_imports/test_framework/crypto/poly1305.py:25-32 | the test vector of section 2.5.2 of RFC 8439 |
| Aead.Pad16 | miner_imports/test_framework/crypto/bip324_cipher.py:20-23 | padding reaches the next multiple of 16 with fewer than 16 bytes |
| Aead.CryptBlocks | miner_imports/test_framework/crypto/bip324_cipher.py:30-36 | the nested loops combine the text with the message keystream, for every length |
| Aead.Encrypt | miner_imports/test_framework/crypto/bip324_cipher.py:26-42 | encryption of a text, or nothing for no text |
| Aead.Decrypt | miner_imports/test_framework/crypto/bip324_cipher.py:45-62 | decryption, or nothing when the ciphertext is missing, short or not authentic |
| Aead.OpenIffSeal | miner_imports/test_framework/crypto/bip324_cipher.py:26-62 | decryption returns p exactly when the ciphertext is the encryption of p, for every length |
| Aead.MacDataInjective | miner_imports/test_framework/crypto/bip324_cipher.py:38-40 | the authenticated bytes determine associated data and ciphertext |
| Aead.MacDataLayout | miner_imports/test_framework/crypto/bip324_cipher.py:38-40 | place by place what is authenticated: the associated data, the text from the next multiple of 16 on, zeros between, and the two lengths (section 2.8 of RFC 8439) |
| Aead.SmallCounters | miner_imports/test_framework/crypto/bip324_cipher.py:29-36 | block counters of 2^32 and above, outside the domain of the block function, matter for no text of up to 64*(2^32-1) bytes |
| Aead.TagFromBlockZero | miner_imports/test_framework/crypto/bip324_cipher.py:37 | the tag depends on the first 32 bytes of block 0 and on nothing else of the block function (also line 50) |
| Aead.OneTimeKey | miner_imports/test_framework/crypto/bip324_cipher.py:37-41 | r is the first 16 bytes of block 0 with the bits of section 2.5 of RFC 8439 cleared, s the next 16 |
| Aead.TextFromLaterBlocks | miner_imports/test_framework/crypto/bip324_cipher.py:29-42 | byte j of the text is combined with byte j mod 64 of block j div 64 + 1; then comes the tag |
| Aead.AuthenticatorApart | miner_imports/test_framework/crypto/bip324_cipher.py:29-37 | what block 0 is makes no difference to the text: authenticator and message never use the same block |
| Aead.FSChaCha20Poly1305.Crypt | miner_imports/test_framework/crypto/bip324_cipher.py:71-89 | one call uses the nonce of its packet and advances key and counter alike for texts, missing texts and failures |
| Aead.KeyClosedForm | miner_imports/test_framework/crypto/bip324_cipher.py:71-82 | after n calls the key is the iterate of the initial key for epoch n div 224, whatever the calls were |
| Aead.PacketNonceInjective | miner_imports/test_framework/crypto/bip324_cipher.py:71-76 | no two calls of a run share epoch and nonce |
| Aead.RekeyNonceFresh | miner_imports/test_framework/crypto/bip324_cipher.py:77-80 | no rekeying shares its nonce with a packet or with another rekeying |
| Aead.PacketNonce | miner_imports/test_framework/crypto/bip324_cipher.py:72-73 | the number of the packet in its epoch in four bytes, the epoch in eight |
| Aead.RekeyNonce | miner_imports/test_framework/crypto/bip324_cipher.py:78 | four 0xff bytes and the epoch |
| Aead.NextKeyIs | miner_imports/test_framework/crypto/bip324_cipher.py:77-80 | the next key is the first half of block 1 under the rekeying nonce |
| V2Packets.LearnLengthInStep | miner_imports/test_framework/v2_p2p.py:268-273 | the length cipher advances once per packet, at the first attempt that has three bytes, and yields the packet's length |
| V2Packets.ReceiveInStep | miner_imports/test_framework/v2_p2p.py:261-283 | on any prefix of the remaining stream the next packet is accepted exactly when complete (decoys as nothing); otherwise the attempt can be repeated |
| V2Packets.StreamSplit | miner_imports/test_framework/v2_p2p.py:248-259 | what has been encrypted so far and what is still to come make up the stream the receiver sees |
| V2Packets.StreamToPrefix | miner_imports/test_framework/v2_p2p.py:248-259 | what is sent does not depend on later packets |
| V2Packets.PacketWire | miner_imports/test_framework/v2_p2p.py:248-259 | a packet is its length under the length cipher in three bytes and, sealed with its associated data, the ignore bit 0x80 or zero and the contents |
| V2Handshake.SessionsMirror | miner_imports/test_framework/v2_p2p.py:97-110 | with agreeing elliptic-curve results both ends derive one secret, and each one's sending ciphers and terminator are the other's receiving ones (also lines 226 to 246) |
| V2Handshake.KeysByRole | miner_imports/test_framework/v2_p2p.py:228-246 | sending uses the keys labelled with the own role and the own half of the terminators, receiving the other role's |
| V2Handshake.KeysDiffer | miner_imports/test_framework/v2_p2p.py:230-246 | if the key derivation separates the labels, the four cipher keys of every session are pairwise different |
| V2Handshake.SecretBinds | miner_imports/test_framework/v2_p2p.py:97-110 | the shared secret determines both public keys, in the order of the roles, and the elliptic-curve result, or the tagged hash has a collision |
| V2Handshake.FindsTerminator | miner_imports/test_framework/v2_p2p.py:187-207 | with no earlier match the search stops exactly after the garbage, and only once the whole terminator has arrived |
| V2Handshake.AuthPacketsInStep | miner_imports/test_framework/v2_p2p.py:209-224 | authentication consumes exactly the complete packets up to the version packet; the garbage is associated data of the first one only |
| P2P.PeerState.constructor | miner_imports/test_framework/v2_p2p.py:226-246 | keys, ciphers and terminators of the two roles |
| P2P.EncryptedP2PState.GenerateKeypairAndGarbage | miner_imports/test_framework/v2_p2p.py:112-118 | key pair and garbage (chosen by the environment) are stored and returned for sending |
| P2P.EncryptedP2PState.RespondV2Handshake | miner_imports/test_framework/v2_p2p.py:128-148 | compares the received prefix byte by byte with a v1 version message; the reported length is that of the whole prefix |
| P2P.EncryptedP2PState.CompleteHandshake | miner_imports/test_framework/v2_p2p.py:150-174 | nothing happens before the peer's 64 bytes are there; then ciphers are set up and terminator, decoys and version packet returned |
| P2P.EncryptedP2PState.SendHandshakePackets | miner_imports/test_framework/v2_p2p.py:167-173 | decoys and version packet in stream order, the first one authenticating the garbage |
| P2P.EncryptedP2PState.AuthenticateHandshake | miner_imports/test_framework/v2_p2p.py:176-224 | takes the step of the value-level authentication in every case, including both rejections |
| P2P.EncryptedP2PState.AuthenticatePackets | miner_imports/test_framework/v2_p2p.py:209-224 | the loop over decoys until the version packet takes the steps of its value-level definition |
| P2P.EncryptedP2PState.FindGarbage | miner_imports/test_framework/v2_p2p.py:187-207 | the scan finds the first match within 4095 bytes of garbage, reports that more is needed, or gives up |
| P2P.EncryptedP2PState.V2EncPacket | miner_imports/test_framework/v2_p2p.py:248-259 | encrypts one packet and moves only the sending ciphers |
| P2P.EncryptedP2PState.V2ReceivePacket | miner_imports/test_framework/v2_p2p.py:261-283 | one attempt to receive moves only the receiving ciphers, exactly as its value-level definition |
| MessageTypes.MessageRoundTrip | miner_imports/test_framework/p2p.py:333-343 | every message of a known type of at most 12 bytes (not ending in NUL) arrives as built, by short or long identifier (sender: lines 410 to 417) |
| MessageTypes.EncodeLayout | miner_imports/test_framework/p2p.py:409-417 | the plaintext starts with the place of the type in the table, counted from one, or with zero and the type in twelve bytes |
| MessageTypes.StripZeros | miner_imports/test_framework/p2p.py:338 | removes exactly the trailing NUL bytes |
| P2P.P2PConnection.BuildV2Message | miner_imports/test_framework/p2p.py:405-417 | the plaintext is the encoded message, encrypted as the next packet |
| P2P.P2PConnection.OneV2Packet | miner_imports/test_framework/p2p.py:320-343 | one turn of the loop in v2 mode |
| P2P.P2PConnection.OnDataV2 | miner_imports/test_framework/p2p.py:313-374 | delivers messages until bytes are missing, a decoy was skipped or an exception is raised |
| P2P.P2PConnection.OnDataV1 | miner_imports/test_framework/p2p.py:344-369 | the same loop in v1 mode, up to the turn that would be repeated without end |
| P2P.P2PConnection.ReadFrame | miner_imports/test_framework/p2p.py:344-364 | one v1 frame: magic, length, checksum and type, with slices for negative lengths, or waiting |
| P2P.P2PConnection.OnDataV2Handshake | miner_imports/test_framework/p2p.py:252-300 | one read during the handshake, including the downgrade to v1 |
| P2P.P2PConnection.Complete | miner_imports/test_framework/p2p.py:277-284 | key completion on the connection |
| P2P.P2PConnection.Authenticate | miner_imports/test_framework/p2p.py:286-300 | authentication on the connection, then whatever is already buffered |
| P2P.P2PConnection.DataReceived | miner_imports/test_framework/p2p.py:304-311 | every socket read moves the connection object exactly as the state machine that the theorems below are about |
| V2Delivery.OnDataInStep | miner_imports/test_framework/p2p.py:313-343 | one call on a prefix of the remaining stream delivers exactly the complete packets up to a decoy and keeps the rest buffered |
| V2Delivery.FeedReaches | miner_imports/test_framework/p2p.py:252-343 | any fragmentation leads from any state that corresponds to m received bytes to one that corresponds to all of them |
| V2Delivery.InitiatorDelivers | miner_imports/test_framework/p2p.py:252-343 | for every fragmentation of every prefix of the peer's bytes: handshake done exactly when the version packet is complete; delivered is the messages of the first k packets in order; everything later is buffered; without decoys after the handshake nothing complete is held back |
| V2Endpoints.EndpointIsGoodPeer | miner_imports/test_framework/v2_p2p.py:97-118 | the other end of a handshake, for any keys, garbage and decoys, is such a peer as soon as the elliptic-curve results agree and its terminator does not occur early |
| V2Endpoints.EndpointWritesWire | miner_imports/test_framework/v2_p2p.py:150-174 | what an endpoint writes is the beginning of the bytes the delivery theorem is about |
| V2Responder.RespondReadIs | miner_imports/test_framework/v2_p2p.py:138-148 | the comparison stops at the first byte that differs from a v1 message, at the end of what has arrived, or after 16 bytes |
| V2Responder.V1PrefixIs | miner_imports/test_framework/v2_p2p.py:128-148 | what the responder compares with is the beginning of every v1 version message |
| V2Responder.ResponderKeeps | miner_imports/test_framework/p2p.py:262-277 | for every fragmentation: what the responder keeps is everything received exactly when the read with the deciding byte is the first one or ends with that byte; otherwise exactly as many bytes are lost as came before that read, or after that byte if those are fewer; and it goes on as if it had received, in one read, what it keeps |
| V2Responder.ResponderContinues | miner_imports/test_framework/p2p.py:262-284 | under that condition (and, with empty garbage, if 64 bytes have arrived) the responder continues like an initiator |
| V2Responder.ResponderDelivers | miner_imports/test_framework/p2p.py:252-343 | and then delivers just as faithfully, for every fragmentation of the rest |
| V2Responder.ResponderReachedIff | miner_imports/test_framework/p2p.py:262-284 | with non-empty garbage, and as long as what is kept is no complete key, the responder is in the right state exactly under that condition |
| V2Responder.ResponderKeyIff | miner_imports/test_framework/p2p.py:262-284 | once 64 bytes are kept the session is made from the first 64, which are the key of the peer exactly when the bytes that moved up happen to be the same |
| V2Responder.ResponderLosesBytes | miner_imports/test_framework/v2_p2p.py:138-148 | a smallest failure: key bytes that agree in one read and the others in a second; all 64 have arrived and the session is not set up |
| V2Responder.SilentStep | miner_imports/test_framework/p2p.py:263-277 | a responder with empty garbage compares again at every read, from where its prefix ends: it is downgraded, waits, or answers with another key pair |
| V2Responder.FirstAnswerIff | miner_imports/test_framework/p2p.py:252-300 | with empty garbage, in every run in which later key pairs differ: the key pair sent first is that of the session exactly when the deciding read brought 64 bytes; otherwise it is given up whatever the later reads |
| V2Responder.ResponderRestarts | miner_imports/test_framework/p2p.py:262-277 | a smallest failure: with empty garbage two reads of one key lead to two answers, and the key does not complete |
| V2Responder.Downgrades | miner_imports/test_framework/p2p.py:262-270 | a peer that sends the 16 bytes of a v1 message makes the connection a v1 one, without those bytes |
| V2Responder.DowngradeLosesFrames | miner_imports/test_framework/p2p.py:262-269 | so of a peer that sends v1 frames no message is ever delivered, whatever the later reads, unless the bytes taken for the next header are the magic |
| V2Responder.FirstReadDowngrades | miner_imports/test_framework/p2p.py:262-269 | when the 16 bytes come in one read, that would take a version message whose length is the magic |
| V1Framing.NextFrameInStep | miner_imports/test_framework/p2p.py:344-364 | a prefix of the remaining frames holds the next message exactly when its frame is complete |
| V1Framing.FrameLayout | miner_imports/test_framework/p2p.py:419-427 | place by place the header of a v1 message: magic, type, length, checksum, payload |
| V1Framing.V1Delivers | miner_imports/test_framework/p2p.py:304-369 | for every list of messages and every fragmentation: exactly the complete messages delivered in order, a proper prefix of the next frame buffered |
| V1Framing.TurnShortensIff | miner_imports/test_framework/p2p.py:353-364 | a turn takes bytes off the buffer exactly when the length field is above -24, or below it and the buffer longer than that many bytes |
| V1Framing.StuckIff | miner_imports/test_framework/p2p.py:345-364 | the exact received bytes that keep the loop on its turn: the header of an empty message of a known type with a length field of -24, or less by at least the number of bytes received |
| V1Framing.EndlessIff | miner_imports/test_framework/p2p.py:319-369 | the outcome recorded as endless is exactly a loop that is never left, however many turns it has taken |
| V1Framing.StuckExample | miner_imports/test_framework/p2p.py:353-364 | a 24-byte header on which it happens |
| Modular.InvCorrect | miner_imports/test_framework/crypto/secp256k1.py:91-96 | the modular inverse used everywhere is one, for every nonzero residue of a prime modulus |
| FieldElement.OfInt | miner_imports/test_framework/crypto/secp256k1.py:30-47 | an integer becomes the fraction of its residue |
| FieldElement.AddFE | miner_imports/test_framework/crypto/secp256k1.py:49-57 | a proper fraction that denotes the sum |
| FieldElement.AddInt | miner_imports/test_framework/crypto/secp256k1.py:49-57 | adding an integer |
| FieldElement.SubFE | miner_imports/test_framework/crypto/secp256k1.py:59-67 | a proper fraction that denotes the difference |
| FieldElement.MulFE | miner_imports/test_framework/crypto/secp256k1.py:69-77 | a proper fraction that denotes the product |
| FieldElement.RMul | miner_imports/test_framework/crypto/secp256k1.py:75-77 | multiplying by an integer |
| FieldElement.Div | miner_imports/test_framework/crypto/secp256k1.py:79-81 | a proper fraction that denotes the quotient, refused exactly for a zero divisor |
| FieldElement.PowFE | miner_imports/test_framework/crypto/secp256k1.py:83-85 | a proper fraction that denotes the power |
| FieldElement.NegFE | miner_imports/test_framework/crypto/secp256k1.py:87-89 | a proper fraction that denotes the negation |
| FieldElement.NormalizeKeepsValue | miner_imports/test_framework/crypto/secp256k1.py:91-96 | conversion to an integer yields the residue and leaves the same value |
| FieldElement.FieldObject.ToInt | miner_imports/test_framework/crypto/secp256k1.py:91-96 | on an object the conversion replaces the fraction in place; every holder of the object still sees the same value |
| FieldElement.Sqrt | miner_imports/test_framework/crypto/secp256k1.py:98-115 | what is returned squares to the argument |
| FieldElement.SqrtComplete | miner_imports/test_framework/crypto/secp256k1.py:98-115 | a root is found whenever there is one (Fermat's little theorem is proved in Modular) |
| FieldElement.EqIffSameValue | miner_imports/test_framework/crypto/secp256k1.py:126-130 | equality holds exactly when the denoted residues are equal |
| FieldElement.IsEven | miner_imports/test_framework/crypto/secp256k1.py:122-124 | parity is that of the residue |
| Modular.SquareRoot | miner_imports/test_framework/crypto/secp256k1.py:98-115 | for a prime that is 3 modulo 4, the power (p+1)/4 of a square is plus or minus its root |
| Curve.AddOnCurve | miner_imports/test_framework/crypto/secp256k1.py:186-207 | sums of curve points are curve points in the infinity, doubling and chord cases |
| Curve.NegOnCurve | miner_imports/test_framework/crypto/secp256k1.py:235-239 | negations are curve points and inverses |
| Curve.AddCommutes | miner_imports/test_framework/crypto/secp256k1.py:186-207 | addition is commutative |
| Curve.AddIff | miner_imports/test_framework/crypto/secp256k1.py:193-207 | R is P + Q exactly if (R.x, -R.y) is on the chord or tangent and R.x is the third root beside P.x and Q.x, said without division |
| Curve.SumInfinityIff | miner_imports/test_framework/crypto/secp256k1.py:193-197 | the sum is infinity exactly for opposite points |
| Schnorr.GeneratorDoubled | miner_imports/test_framework/crypto/secp256k1.py:186-207 | the published double of the generator is what adding it to itself gives (if the field size is prime) |
| GroupElement.NewGE | miner_imports/test_framework/crypto/secp256k1.py:171-184 | the constructor refuses exactly the points off the curve |
| GroupElement.AddRefines | miner_imports/test_framework/crypto/secp256k1.py:186-207 | addition over fractions is the curve's addition; it raises exactly when a point with y = 0 is doubled |
| ScalarMul.Mul | miner_imports/test_framework/crypto/secp256k1.py:209-227 | batch double-and-add equals the sum of the individual multiples, for every list of integer scalars and points |
| ScalarMul.FastGEMul.constructor | miner_imports/test_framework/crypto/secp256k1.py:333-337 | the table holds the 2^i-fold points |
| ScalarMul.FastGEMul.Mul | miner_imports/test_framework/crypto/secp256k1.py:339-345 | the table gives the same multiple for every integer scalar, negative ones included |
| Multiples.MultMod | miner_imports/test_framework/crypto/secp256k1.py:216-217 | reducing a scalar modulo the order does not change the multiple |
| Multiples.MultipleMod | miner_imports/test_framework/crypto/secp256k1.py:216-217 | nor does reducing a negative one, whose multiple is the negation of the positive multiple |
| Multiples.NoPointOfOrderTwo | miner_imports/test_framework/crypto/secp256k1.py:196-203 | with an odd group order the tangent case never divides by zero |
| Schnorr.GeneratorOnCurve | miner_imports/test_framework/crypto/secp256k1.py:319 | the generator is on the curve with even y; the sizes of field and group are as the theorems need |
| Keys.LiftGE | miner_imports/test_framework/crypto/secp256k1.py:256-264 | lifting over fractions is lifting on the curve |
| Schnorr.LiftOfPoint | miner_imports/test_framework/crypto/secp256k1.py:256-264 | lifting the x coordinate of any curve point gives the one of plus or minus that point with even y |
| Schnorr.LiftIff | miner_imports/test_framework/crypto/secp256k1.py:256-266 | lifting finds the curve point with that x coordinate and even y, and fails exactly when there is none |
| Keys.PublicPoint | miner_imports/test_framework/key.py:278-281 | a multiple of the generator with its encoding and parity |
| Keys.SignSchnorr | miner_imports/test_framework/key.py:268-290 | signing over fractions computes the value-level signature, with any flips |
| Keys.VerifySchnorr | miner_imports/test_framework/key.py:240-266 | verification over fractions decides as the value-level one |
| Schnorr.VerificationEquation | miner_imports/test_framework/key.py:260-261 | s*G - e*P is the nonce point whenever s is k + e*d |
| Schnorr.SignatureVerifies | miner_imports/test_framework/key.py:268-290 | every signature without flips verifies under the x-only key, in all four parity combinations |
| Schnorr.NonceInput | miner_imports/test_framework/key.py:284-285 | the nonce hashes the masked secret, the public key and the message, each at its place |
| Schnorr.VerifyIff | miner_imports/test_framework/key.py:240-266 | a signature is accepted exactly if s is below the order and there are curve points P and R with even y, at the x coordinates of the key and of the first half, such that s*G == R + e*P with e the BIP 340 challenge |
| Schnorr.ScalarVerifiesIff | miner_imports/test_framework/key.py:240-266 | for a key d*G and a nonce point k*G, both even, exactly one s below the order is accepted for a message: k + e*d |
| Schnorr.FlippedVerifiesIff | miner_imports/test_framework/key.py:268-290 | what the two flips do: with the public key flipped a signature verifies only for a zero challenge, with the nonce point flipped never, with both only if s is zero |
| Schnorr.TweaksAgree | miner_imports/test_framework/key.py:204-238 | tweaking the public key gives the public key of the tweaked private key, with the right negation flag, and fails exactly when that does |
| Schnorr.TweakPrivIff | miner_imports/test_framework/key.py:204-221 | exactly what is returned: the nonzero scalar below the order whose point is t*G plus the even point of the key |
| Schnorr.TweakPubIff | miner_imports/test_framework/key.py:223-238 | exactly what is returned: x coordinate and oddness of P + t*G, for the even point P of the key and a tweak below the order, unless that is infinity |
| Schnorr.ComputeXOnlyIff | miner_imports/test_framework/key.py:191-202 | exactly what is returned: the x coordinate of key*G and whether its y is odd, for keys from 1 to the order minus one |
| Der.ParsesIffEncoded | miner_imports/test_framework/key.py:66-97 | a byte string is parsed to two numbers exactly when it is the encoding of those numbers |
| Der.EncodedIsMinimal | miner_imports/test_framework/key.py:184-189 | numbers are encoded non-negative and without a byte too many |
| Der.EncodedLayout | miner_imports/test_framework/key.py:184-189 | place by place the bytes of a signature, r first |
| Ecdsa.Sign | miner_imports/test_framework/key.py:167-189 | signing over fractions computes the value-level signature for the nonce |
| Ecdsa.Verify | miner_imports/test_framework/key.py:59-111 | verification over fractions decides as the value-level one |
| Ecdsa.VerifiersPointIs | miner_imports/test_framework/key.py:105-108 | the verifier's point is plus or minus the nonce point |
| Ecdsa.AcceptsIff | miner_imports/test_framework/key.py:103-111 | the numbers are accepted exactly if they are in range (and s low if required) and there is a curve point R with s*R == z*G + r*P and x coordinate r modulo the order |
| Ecdsa.SignatureVerifiesIff | miner_imports/test_framework/key.py:59-111 | a signature verifies exactly when neither number is zero and, if a low s is required, s is below half the order |
| Ecdsa.LowSVerifiesIff | miner_imports/test_framework/key.py:102-189 | with low s on both sides, in terms of secret, message and nonce: refused exactly when r is zero or the signed number is, modulo the order, zero or plus or minus the nonce times half the order |
| Ecdsa.HalfOrderMessage | miner_imports/test_framework/key.py:167-189 | for every secret and nonce some 32-byte message is signed with s equal to half the order; that signature is valid if r is not zero, and refused with low s |
| Script.RawIterate | miner_imports/test_framework/script.py:475-529 | the loop yields the operations with their offsets, or fails |
| Script.BuildParses | miner_imports/test_framework/script.py:464-529 | parsing a script built from any list of opcodes and data gives that list back with the offsets where its elements start |
| Script.TokenEncodes | miner_imports/test_framework/script.py:52-64 | every push is one operation that carries exactly its data, in each of the four length forms |
| Script.PushLayout | miner_imports/test_framework/script.py:52-64 | the opcode and the length bytes of each of the four forms of a push |
| Script.OffsetsPartition | miner_imports/test_framework/script.py:475-529 | the offsets of any readable script partition its bytes |
| Script.PiecesUnique | miner_imports/test_framework/script.py:475-529 | a script has only one decomposition into operations |
| Script.FindAndDelete | miner_imports/test_framework/script.py:612-627 | the loop with its pending slice keeps exactly the operations whose position does not start with the signature |
| Script.DeleteOpcode | miner_imports/test_framework/script.py:612-627 | deleting a non-push opcode leaves exactly the other operations, push data untouched, and deleting again changes nothing |
| Script.DeleteCodeSeparator | miner_imports/test_framework/script.py:612-627 | the same for the script that consists of OP_CODESEPARATOR, as the legacy signature hash uses it |
| ScriptNum.EncodeNum | miner_imports/test_framework/script.py:390-404 | the loop builds magnitude, sign and length |
| ScriptNum.DecodeNum | miner_imports/test_framework/script.py:406-420 | the loop reads magnitude and sign |
| ScriptNum.NumRoundTrip | miner_imports/test_framework/script.py:390-420 | every number that can be encoded is decoded again |
| ScriptNum.Bn2vchIsBody | miner_imports/test_framework/script.py:37-47 | the encoder over the bits of a number and the one that works byte by byte give the same bytes |
| ScriptNum.ListedNumbers | miner_imports/test_framework/script.py:757-776 | the nineteen encodings the source's own test lists |
| ScriptNum.CoercedEncodes | miner_imports/test_framework/script.py:436-455 | opcodes, data, integers and script numbers of fewer than 76 bytes are each written as exactly the operation they stand for |
| ScriptNum.NumberPushIff | miner_imports/test_framework/script.py:436-455 | a script number is written as a push of its bytes exactly if there are fewer than 76 |
| ScriptNum.IntegerReadBack | miner_imports/test_framework/script.py:66-90 | every integer in a script, as opcode or push, is read back as that integer |
| ScriptNum.ElementsParse | miner_imports/test_framework/script.py:436-529 | reading a script built from any list of such elements gives the list back, with the offsets where they start |
| ScriptNum.HeightScriptParses | miner_imports/test_framework/blocktools.py:139-144 | the coinbase starts with its height as one operation; above 16 it decodes to the height |
| Taproot.LeavesInOrder | miner_imports/test_framework/script.py:859-896 | every named leaf appears exactly once, in order |
| Taproot.BranchesFoldToRoot | miner_imports/test_framework/script.py:859-896 | folding the branch of each named leaf from its leaf hash yields the root, function partners included |
| Taproot.SucceedsIff | miner_imports/test_framework/script.py:859-896 | no assertion fails exactly when every leaf is valid and every partner function, at any depth, stands where halving the list leaves it second of a pair |
| Taproot.SortedSymmetric | miner_imports/test_framework/script.py:884-895 | a branch hash does not depend on which child is called left |
| TaprootSpend.BranchIs | miner_imports/test_framework/script.py:893-895 | the child that is smaller as a number is hashed first |
| Taproot.FlatDepth | miner_imports/test_framework/script.py:876-881 | a flat list of at most 2^d scripts has no branch longer than d |
| Taproot.EndDepths | miner_imports/test_framework/script.py:886-892 | in a flat list of n named leaves the first one's branch has floor(log2 n) hashes and the last one's ceil(log2 n) |
| TaprootOutput.OutputScriptParses | miner_imports/test_framework/script.py:937 | the output script is read as OP_1 and a push of the output key |
| TaprootOutput.OutputKeyIsTweaked | miner_imports/test_framework/script.py:913-937 | the output key is the public key of the private key tweaked with the root of the tree, negation flag included; it exists exactly when that private key does |
| TaprootOutput.KeyPathVerifies | miner_imports/test_framework/script.py:913-937 | what is signed with that private key verifies under the output key |
| TaprootOutput.ScriptPathVerifies | miner_imports/test_framework/script.py:913-937 | for every well-formed tree the leaf hash and branch of each named leaf lead to the root, and with the internal key to the output key and its negation flag |
| TaprootOutput.LeavesByName | miner_imports/test_framework/script.py:936 | if names are distinct the returned dict has exactly the named leaves of the tree, with script and version |
| TaprootSpend.LeafAcceptedIff | miner_imports/test_framework/script.py:913-937 | the rule of BIP 341 accepts every named leaf with its control block exactly if its branch is not longer than 128 hashes |
| TaprootSpend.OnlyLeavesReach | miner_imports/test_framework/script.py:859-896 | no version, script and branch lead to the root of a tree but those of its leaves, or the lemma names a collision |
| TaprootSpend.OnlyLeavesAccepted | miner_imports/test_framework/script.py:913-937 | the rule of BIP 341 accepts, under the internal key of the output, only scripts that are leaves of the tree with their versions, or the lemma names a collision of the tagged hash |
| TaprootSpend.InfinityOutput | miner_imports/test_framework/script.py:932-933 | with the internal key taken as infinity the output is the point of the tweak |
| Codec.CompactSizeRoundTrip | miner_imports/test_framework/messages.py:100-121 | a compact size is read back, whatever follows |
| Codec.CompactSizeShortest | miner_imports/test_framework/messages.py:100-121 | no encoding that is read as a number is shorter than the one that is written |
| Layouts.ByteOrder | miner_imports/test_framework/messages.py:100-110 | little-endian numbers start with the lowest byte, big-endian ones with the highest |
| Layouts.CompactSizeLayout | miner_imports/test_framework/messages.py:100-110 | the first byte is the number or tells how many bytes follow |
| Codec.StringRoundTrip | miner_imports/test_framework/messages.py:124-130 | a byte string is read back, whatever follows |
| Codec.StringsRoundTrip | miner_imports/test_framework/messages.py:195-208 | so is a list of byte strings |
| Transactions.InRoundTrip | miner_imports/test_framework/messages.py:457-468 | an input is read back |
| Transactions.OutRoundTrip | miner_imports/test_framework/messages.py:483-491 | an output is read back, negative values included |
| Layouts.InLayout | miner_imports/test_framework/messages.py:463-468 | where hash, index, script and sequence stand in an input |
| Layouts.OutLayout | miner_imports/test_framework/messages.py:487-491 | where value and script stand in an output |
| Transactions.InVectorRoundTrip | miner_imports/test_framework/messages.py:153-176 | a vector of inputs is read back |
| Transactions.OutVectorRoundTrip | miner_imports/test_framework/messages.py:153-176 | a vector of outputs is read back |
| Transactions.WitnessRoundTrip | miner_imports/test_framework/messages.py:541-552 | one stack per input, without a count |
| Ambiguity.TxRoundTripIff | miner_imports/test_framework/messages.py:587-638 | whatever follows in the stream, even nothing: a transaction is read back (witness normalized and padded) exactly unless it has outputs, no inputs and no witness data |
| Transactions.TxRoundTrip | miner_imports/test_framework/messages.py:587-638 | also at the end of a stream, for all other transactions |
| Transactions.DeserTxFits | miner_imports/test_framework/messages.py:587-607 | whatever bytes are read, the transaction can be written |
| Layouts.TxLayout | miner_imports/test_framework/messages.py:609-615 | where version, inputs, outputs and lock time stand in what an identifier hashes |
| Layouts.WitnessLayout | miner_imports/test_framework/messages.py:618-638 | the full form is the form without witnesses, with 00 01 after the version and the stacks before the lock time (BIP 144) |
| Transactions.SerializedTwice | miner_imports/test_framework/messages.py:618-638 | serializing twice gives the same bytes exactly when cutting the witness list to the inputs does not cut away its only data |
| Transactions.SerializedTwiceExample | miner_imports/test_framework/messages.py:618-638 | a transaction without inputs but with a witness stack is such a case |
| Transactions.StaleOutputsIff | miner_imports/test_framework/messages.py:587-607 | the outputs an object had before reading make no difference exactly when there were none, or the bytes read say that there are inputs or a witness flag |
| Transactions.StaleOutputsExample | miner_imports/test_framework/messages.py:587-607 | ten bytes that leave the old outputs in place |
| Transactions.HeaderRoundTrip | miner_imports/test_framework/messages.py:715-733 | a header is 80 bytes and is read back |
| Transactions.BlockRoundTrip | miner_imports/test_framework/messages.py:767-778 | a block is read back, whatever follows |
| Layouts.HeaderLayout | miner_imports/test_framework/messages.py:725-733 | where the six fields stand in the 80 bytes of a header |
| Layouts.BlockLayout | miner_imports/test_framework/messages.py:771-778 | a block is the header, the count and the full forms one after the other |
| TxObjects.ByteStream.CompactSize | miner_imports/test_framework/messages.py:113-121 | reads from the stream object as the value-level parser |
| TxObjects.ByteStream.String | miner_imports/test_framework/messages.py:124-126 | reads a byte string from the stream |
| TxObjects.ByteStream.StringVector | miner_imports/test_framework/messages.py:195-201 | the loop over a list of byte strings |
| TxObjects.ByteStream.DeserializeIn | miner_imports/test_framework/messages.py:457-461 | reads an input |
| TxObjects.ByteStream.DeserializeOut | miner_imports/test_framework/messages.py:483-485 | reads an output |
| TxObjects.ByteStream.InVector | miner_imports/test_framework/messages.py:153-162 | the loop over inputs |
| TxObjects.ByteStream.OutVector | miner_imports/test_framework/messages.py:153-162 | the loop over outputs |
| TxObjects.ByteStream.Witness | miner_imports/test_framework/messages.py:541-543 | the loop over witness stacks |
| TxObjects.CTransaction.Copy | miner_imports/test_framework/messages.py:578-585 | copies the fields and the cached hash |
| TxObjects.CTransaction.Deserialize | miner_imports/test_framework/messages.py:587-607 | assigns what the parser reads; without inputs and flag the old outputs stay |
| TxObjects.CTransaction.SerializeWithoutWitness | miner_imports/test_framework/messages.py:609-615 | writes the bytes the identifier is made of |
| TxObjects.CTransaction.SerializeWithWitness | miner_imports/test_framework/messages.py:618-638 | writes the full form and pads or cuts the witness list in place |
| TxObjects.CTransaction.CalcSha256 | miner_imports/test_framework/messages.py:656-663 | a cached identifier is kept whatever the fields now are, while the printed hash is always recomputed |
| TxObjects.CTransaction.CalcWtxid | miner_imports/test_framework/messages.py:656-659 | the hash of the full form is not cached |
| TxObjects.CTransaction.Rehash | miner_imports/test_framework/messages.py:649-652 | the identifier is that of the fields as they now are |
| Merkle.GetMerkleRoot | miner_imports/test_framework/messages.py:781-789 | the level loop computes the root of the recursive tree |
| Merkle.RootIsTree | miner_imports/test_framework/messages.py:782-789 | the level-by-level root is that of the lowest tree with room for the leaves, defined from the root down, with missing right halves repeated |
| SignedTx.BlockRootIsTree | miner_imports/test_framework/messages.py:791-796 | the root of a block is the tree over the hashes of its transactions' bytes |
| Merkle.RootBindsLeaves | miner_imports/test_framework/messages.py:781-789 | two lists of equally many leaves with one root are equal, or the lemma names a hash collision |
| Merkle.RepeatedLeafSameRoot | miner_imports/test_framework/messages.py:783-788 | repeating the last of an odd number of leaves does not change the root |
| Blocks.CBlock.Deserialize | miner_imports/test_framework/messages.py:767-769 | reads header and transactions into new objects without cached identifiers |
| Blocks.CBlock.Serialize | miner_imports/test_framework/messages.py:771-778 | writes the block and brings every witness list to its inputs; an object listed twice is written the second time with the list the first time has left |
| Blocks.CBlock.CalcMerkleRoot | miner_imports/test_framework/messages.py:791-796 | the root is made of the cached identifiers; it is that of the transactions as they are if no cache is stale |
| Blocks.CBlock.CalcWitnessMerkleRoot | miner_imports/test_framework/messages.py:798-807 | zero for the coinbase, then the hashes of the full forms in the order they are written; witness lists are padded on the way |
| Blocks.CBlock.Solve | miner_imports/test_framework/messages.py:821-827 | finds the first nonce from the present one on whose header hash meets the target; it gives up only for a bad target or when no nonce is left |
| Blocks.CBlock.Rehash | miner_imports/test_framework/messages.py:735-750 | the header hash is that of the header as it now is |
| Psbt.PSBTMap.Deserialize | miner_imports/test_framework/psbt.py:73-84 | the loop fills a map until the empty key, or fails on a repeated key, leaving the old map |
| Psbt.PSBTMap.Serialize | miner_imports/test_framework/psbt.py:86-94 | writes the entries in order and the separator |
| Psbt.DictRoundTripIff | miner_imports/test_framework/psbt.py:73-94 | a map is read back, one-byte keys as integers, exactly when no key is empty and no two keys come back the same |
| Psbt.ContainerRoundTripIff | miner_imports/test_framework/psbt.py:105-124 | a container that can be written is read back exactly when that holds of all its maps |
| Psbt.NormalGet | miner_imports/test_framework/psbt.py:80-83 | what a map says under a key that stays as it is survives the round trip |
| PsbtObjects.PSBT.Deserialize | miner_imports/test_framework/psbt.py:105-112 | fills the object as the value-level parser, and fails exactly when an assertion does |
| PsbtObjects.PSBT.Serialize | miner_imports/test_framework/psbt.py:114-124 | writes the container, and fails exactly when an assertion does |
| Miner.SignetTxs | miner:35-67 | computes the two transactions to sign from a modified copy; header and transactions of the block stay as they are |
| Miner.ModifiedRoot | miner:39-46 | the modified root is made of fresh identifiers, even if the coinbase's cached one is stale |
| Miner.FinishBlock | miner:81-94 | appends header and solution to the coinbase, wherever in the block that object stands; the new Merkle root is made of the coinbase's new identifier and the cached ones of the others, so of the transactions as they now are if none of those is stale; the nonce is the one that grinding found or the first that meets the target |
| Signet.SignedParts | miner:48-52 | the signed data is version, previous block, modified root and time, in that order |
| Signet.SignedDataBinds | miner:39-52 | the signed data commits to version, previous block, time and everything in the transactions but their witnesses, or the lemma names a hash collision |
| SignedTx.ChallengeTxBytes | miner:54-59 | byte for byte the transaction that is spent: signed data in the input, challenge in the output |
| SignedTx.SpendBytes | miner:61-65 | byte for byte the transaction to sign: its input names the hash of the other one's bytes (Specification section of BIP 325) |
| SignedTx.SpendBinds | miner:61-65 | equal transactions to sign spend transactions with equal bytes, or the lemma names a hash collision |
| SignedTx.SignedTxBinds | miner:35-67 | equal transactions to sign come from equal challenges, versions, previous blocks, times and transaction bodies, or the lemma names a hash collision |
| Signet.FinishedScriptParses | miner:82 | a finished coinbase script reads as the old operations and one push of header and solution |
| Signet.CutUndoesFinish | miner:82 | cutting the first solution to the bare header gives back the script that was signed, exactly when the script had no solution before |
| Signet.FinishKeepsWhatWasSigned | miner:35-94 | recomputed from the finished block with its solution cut, the transaction to sign is the one that was signed, whatever the nonce, the header's Merkle root and the witnesses became (Specification section of BIP 325) |
| SignetPsbt.CommitmentBuildable | miner_imports/test_framework/blocktools.py:114-117 | the witness commitment is a 38-byte script without a solution |
| SignetPsbt.TemplateTxsFit | miner:96-124 | the block made from any template can be serialized, and its last coinbase output is a script the theorems apply to |
| TemplateLaws.TemplateCommits | miner:115-124 | the commitment, computed before the output and witness that carry it exist, is right for the block that contains them (Commitment structure section of BIP 141) |
| TemplateLaws.PushKeepsCommitment | miner:35-94 | pushing the signet header or the solution does not disturb the witness commitment |
| MinerPsbt.CoinbaseTx | miner:100-110 | the coinbase of a template |
| MinerPsbt.TemplateBlock | miner:100-124 | header and transactions of the block made from a template, with its witness commitment |
| MinerPsbt.GeneratePsbt | miner:96-136 | the serialized container holds the transaction to sign, the block and the spent transaction; it is always accepted for serialization |
| TemplateLaws.GeneratedBytes | miner:126-136 | byte for byte the unsigned PSBT |
| SignetPsbt.DecodesCarriedBlock | miner:69-79 | a container that carries a block under the signet key is decoded to that block and to the solution its final fields say, whatever else it holds |
| TemplateLaws.SolutionBytes | miner:76-79 | the solution is the counted script of key 7, or none, and the witness of key 8, or one zero byte |
| MinerPsbt.DecodePsbt | miner:69-79 | returns the value-level result in new objects without cached identifiers, and fails exactly when an assertion does |
| MinerPsbt.SolvePsbt | miner:181-184 | the block that comes out is the decoded one with the solution pushed and a fresh Merkle root; without a grinding command its header meets the target |
| SignetPsbt.SignedBlockVerifies | miner:69-136 | generate, sign by adding any entries, decode and finish: a verifier arrives at the very transaction that was given to the signers |
| SignetPsbt.TemplateBlockVerifies | miner:69-136 | in particular for every template and every choice of options |
| Checksum.ComputePolymod | miner_imports/test_framework/segwit_addr.py:19-28 | the nested loops compute the remainder (also lines 13 to 21 of descriptors.py) |
| Checksum.RunLinear | miner_imports/test_framework/segwit_addr.py:22-27 | the remainder is linear over GF(2) in state and symbols |
| Field32.PolymodIsRemainder | miner_imports/test_framework/segwit_addr.py:19-28 | for such generator words the bit-wise loop computes the remainder of polynomial division over that field |
| Field32.Bech32OverField | miner_imports/test_framework/segwit_addr.py:21 | the Bech32 generator words are the multiples of one polynomial of degree 6 over the field of 32 symbols (BIP 173) |
| Field32.DescriptorsOverField | miner_imports/test_framework/descriptors.py:11 | the descriptor generator words are the multiples of one polynomial of degree 8 over that field |
| Bech32.Bech32CodeGood | miner_imports/test_framework/segwit_addr.py:21 | no choice of generator words cancels in the last symbol, so the checksum loses nothing |
| Bech32.CreatedChecksumVerifies | miner_imports/test_framework/segwit_addr.py:36-51 | a created checksum verifies under its own encoding |
| Bech32.HrpRecovered | miner_imports/test_framework/segwit_addr.py:31-33 | the upper and lower parts of the expansion make up the characters |
| Bech32.BurstDetected | miner_imports/test_framework/segwit_addr.py:36-44 | any change confined to six consecutive symbols, at any length, breaks verification under the same constant; one symbol is the special case |
| ConvertBits.ConvertBits | miner_imports/test_framework/segwit_addr.py:79-99 | the accumulator loop regroups the bits, with padding or with the two padding checks |
| ConvertBits.RegroupRoundTrip | miner_imports/test_framework/segwit_addr.py:79-99 | splitting into smaller groups and back, with the padding recognized, gives the values back |
| ConvertBits.SplitBack | miner_imports/test_framework/segwit_addr.py:79-99 | values that regroup without padding are exactly what splitting the result gives |
| ConvertBits.ConvertKeepsNumber | miner_imports/test_framework/segwit_addr.py:79-99 | with padding the big-endian number stays what it is but for appended zero bits |
| Bech32.DecodeEncoded | miner_imports/test_framework/segwit_addr.py:54-76 | what is encoded with a valid human-readable part is decoded to the same parts |
| Bech32.EncodeSegwitIff | miner_imports/test_framework/segwit_addr.py:102-125 | an address comes out exactly for valid arguments, and then decodes to the version and program it was made of |
| Bech32.DecodeSegwitIff | miner_imports/test_framework/segwit_addr.py:102-125 | a text decodes to a version and program exactly if it is the address made of them, in lower or in upper case |
| Bech32.VersionConstant | miner_imports/test_framework/segwit_addr.py:102-118 | a decoded address has version 0 and remainder 1, or another version and remainder 0x2bc830a3 (BIP 350), and a program of a permitted length |
| Descriptors.DescsumCodeGood | miner_imports/test_framework/descriptors.py:11 | the descriptor generator loses nothing either |
| Descriptors.Expand | miner_imports/test_framework/descriptors.py:23-40 | the loop expands characters to symbols and groups of three, or fails |
| Descriptors.ThreeCharacters | miner_imports/test_framework/descriptors.py:26-35 | three characters are four symbols: the lower five bits of each, and the upper parts as digits to the base of three |
| Descriptors.LastCharacters | miner_imports/test_framework/descriptors.py:36-39 | one or two characters left over are closed by one symbol |
| Descriptors.CreatedPasses | miner_imports/test_framework/descriptors.py:42-57 | a created checksum always passes the check |
| Descriptors.SubstitutionDetected | miner_imports/test_framework/descriptors.py:48-57 | substituting any one character of a passing descriptor, in text, checksum or separator, makes the check that requires a checksum fail (without that requirement a lost separator passes) |
| NBits.EncodesCeiling | miner:190-204 | the string arithmetic computes the size with a clear top bit and the leading digits rounded up |
| NBits.RoundsUp | miner:186-204 | decoding what was encoded gives at least the target, less than one unit more, and less than one part in 2^15 more if anything was cut off |
| NBits.MantissaTopBitIff | miner:196-202 | the padding that is meant to keep the top bit clear fails exactly for targets above 0x7fffff units |
| NBits.MantissaTopBitExample | miner:196-202 | one such target: 0x7fffff01 |
| NBits.EncodeInvertsIff | miner:186-204 | encoding inverts decoding exactly on the canonical compact targets |
| NBits.KnownTargets | miner:186-204 | 0x1d00ffff and 0x207fffff stand for their targets, both ways |
| NBits.DecodersAgree | miner_imports/test_framework/messages.py:145-148 | the two decoders agree exactly for exponents of at least 3 |
| Compressor.CompressAmount | miner_imports/test_framework/compressor.py:11-24 | the loop divides out tens; the digit assertion cannot fail |
| Compressor.DecompressAmount | miner_imports/test_framework/compressor.py:27-43 | the loop multiplies them back |
| Compressor.DecompressCompress | miner_imports/test_framework/compressor.py:11-43 | decompressing inverts compressing on every amount |
| Compressor.CompressDecompress | miner_imports/test_framework/compressor.py:11-43 | compressing inverts decompressing on every number |
| Compressor.ListedAmounts | miner_imports/test_framework/compressor.py:52-58 | the six amounts the source's own test lists |

## Left out

- V1Framing.NextFrame: parsing the payload is not modelled; a message type that does not accept an empty payload raises and so leaves the endless loop.
- FieldElement.FieldObject.ToInt: the coordinates inside group elements are values, so that one conversion is not seen to speed up another holder's next one; the value is the same either way.
- TxObjects.CTransaction.Copy: inputs, outputs and witness stacks are values, so aliasing between the lists of two transactions (which the source's deep copy avoids) is not captured.
- ChaCha20.BlockIsBlock: what the source computes for block counters of 2^32 and above, outside the documented domain, is an arbitrary block; none is used (`Aead.SmallCounters`, `StreamCipherRuns.LengthEpochDrawsElevenBlocks`).
- Miner.FinishBlock: the grinding subprocess; the nonce it finds is an arbitrary input.
- MinerPsbt.GeneratePsbt: JSON, hexadecimal and base64 encodings of template and PSBT.
- P2P.P2PConnection.DataReceived: a delivered message is its type and payload; parsing payloads, callbacks, logging and the version message sent after the handshake are not modelled.
- P2P.P2PConnection.OnDataV2Handshake: an exception ends the connection; asyncio transport, threads and locks are not modelled.
- Transactions.SerTx: values that do not fit their fields raise OverflowError in the source; here they are excluded by a precondition.
- SHA-256, RIPEMD-160, HMAC, HKDF and tagged hashes: arbitrary functions with fixed output lengths.
- crypto/ellswift.py: the ECDH result is an arbitrary value that both ends share.
- Associativity of point addition, the order of the group and the primality of field size and group order: hypotheses.
- Signature hashes, sigop counting, address and wallet helpers, and the other message types of messages.py: repeats of what is proved, or remote calls.
- blocktools.create_block and add_witness_commitment: the miner builds its blocks itself.
- RFC 6979 nonces: the ECDSA nonce is an arbitrary number below the order.
- ECKey and ECPubKey objects: their arithmetic is modelled, their fields are not.
- Bech32.EncodeSegwitIff: versions that have no character (32 and above) and program values that are not bytes raise exceptions in the source and are excluded by the types.
- Uppercase and non-ASCII input of Bech32 decoding is modelled only as far as the range and case checks look at it.
- The miner's block interval, polling loops, calibration and multiminer schedule: clocks, floating point and remote calls.
- Deployment: shell scripts, containers, web server and faucet.
