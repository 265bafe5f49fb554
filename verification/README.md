# Verification of the Coalesce SSH transport

This project models the arithmetic and protocol core of Coalesce, an SSH-2 transport in C, and
proves properties of that model.

* **Curve arithmetic.** The field GF(2^255 - 19) on five 51-bit limbs, X25519, arithmetic modulo
  the group order L, the Edwards group in extended coordinates, point compression, and Ed25519 key
  derivation, signing and verification. The limb code works in place on arrays of machine words:
  `u64` and `u128` are bounded types, so each assignment is a proof that the expression does not
  wrap. Every method is tied to a function on residues, and the theorems are about those functions:
  the X25519 ladder is the function of RFC 7748 and takes the u-coordinate of a point to that of its
  multiple, so that two parties derive the same secret; and Ed25519 signatures verify.
* **The packet protocol.** AES, counter mode, HMAC-SHA-256, the two halves of a packet exchange and
  key installation, as classes that update their fields; their contracts equate the new state with a
  function of the old one. Over those functions: what one send writes one receive accepts, only such
  packets are accepted, and over whole runs with key changes the receiver outputs exactly what was
  sent.
* **Codecs around them.** Streaming SHA-256 and SHA-512, key expansion, the growable buffer with
  strings and mpints, KEXINIT and negotiation, base64.

## Hypotheses

Three facts about the curve are not proved here. They appear by name in every contract that needs
them: `PrimeField.PIsPrime` (p = 2^255 - 19 is prime), `Edwards.AdditionAssociates` (the affine
addition is associative on the curve) and `Times(L, B) == ZERO` (the base point has order dividing
L; the conjunction of the three is `Ed25519Theorems.Hypotheses`). That d is not a square, that
2^((p-1)/4) is a square root of -1, that inverses exist, that the addition law is complete and closed,
and Fermat's little theorem are proved from the first.

The block functions `sha256_block` and `sha512_block` are parameters: what is proved about hashing,
HMAC, Ed25519 and the channel holds for every compression function.

## Where the code decides

* `ge_frombytes` does not compare y with p, which section 5.1.3 of RFC 8032 asks for. The model
  follows the code; `BytesRoundTrip` says exactly when an accepted string is reproduced.
* `session_recv` guards the padding length with `padding + 1 < total`; the following subtraction
  needs `padding + 5 <= total`. In the gap the payload length is 2^64 - 1, - 2 or - 3, the output
  buffer has been emptied, and the doubling in `buf_reserve` wraps to 0 without getting there: the
  receiver never returns. `WrapsIff` says for which inputs, `GrowthNeverEnds` why, and no stream that
  `session_send` produces is among them.
* `session_set_keys` replaces the keystream before it looks at the MAC name. `FailureAtomicIff` says
  when a failing call is harmless; on a direction in use it need not be (`FailureGarbles`).
* After a short write `session_send` has used up keystream but not counted the packet.
* The comment in `sha512_update` says that the carry into the high counter word never happens; it
  does once the low word wraps, and `CountBits` needs it.
* `kex_init_decode` does not check its string reads; a failed one leaves NULL and decoding goes on.
  `NullIff` says for which messages, and `MisfitFails` that negotiation then fails.
* `base64_decode` takes any number of padding characters up to two, whatever the digits, and drops
  left-over bits without looking at them; `DecodedIff` and `DecodedMeaning` say exactly what it takes.
* `base64_encode` and `base64_decode` cast the length to `int`, which changes it from 2^31 on.

## Files

Arithmetic, Bits, Bytes, BitVectors, Options: integers, machine words, byte strings. Field, Fermat,
PrimeField: the field and what primality gives. Fe25519, FeBytes: the limb code. X25519, Montgomery:
the ladder and what it computes. Edwards, Extended: the curve. Ge, GeCodec, Decompression: points. Scalar: arithmetic modulo L.
Ed25519, Ed25519Theorems: the signature scheme. StreamHash, Sha256, Sha512, Kdf: hashing. Aes, Ctr:
the cipher. Packets, Session, KeyInstall, Channel: the packet protocol. Buffer, KexInit, Negotiation,
Base64: codecs. `dafny verify dfyconfig.toml` checks everything.

Loops of a source method that are nested, or that follow one another, are methods of their own here.
Calls the source repeats for ten name-lists (or matches for eight) are written as one loop.

## Model

| member | source | states |
|---|---|---|
| Fe25519.Add | src/fe25519.c:109-112 | limbwise addition computes the field sum of the values; no 64-bit limb wraps as long as the limb bounds add up below 2^64; the output bound is the sum of the input bounds; out may alias an input |
| Fe25519.Sub | src/fe25519.c:114-118 | a + 2p - b computes the field difference and never wraps when b is at most 2p limbwise; a negation stays in that class |
| Fe25519.Mul | src/fe25519.c:120-145 | for limbs below 2^54 the output is congruent to the product, no 64- or 128-bit step wraps (every intermediate is a bounded machine type) and the output is in product shape: limb 0 at most 2^51 + 18, the others below 2^51 |
| Fe25519.Mul121666 | src/fe25519.c:152-167 | multiplication by 121666 modulo p, with the same shape and in place |
| Fe25519.CarryOnce | src/fe25519.c:65-83 | one carry pass with the factor-19 fold, as a function on the five limbs, without overflow |
| Fe25519.PassMeaning | src/fe25519.c:65-83 | a carry pass with the fold by 19 keeps the value modulo p |
| Fe25519.PassReduces | src/fe25519.c:136-145 | one pass leaves the product shape when the upper limbs already are below 2^51 |
| Fe25519.CSwap | src/fe25519.c:185-193 | the masked exchange swaps the two arrays exactly when asked to |
| Fe25519.MaskedSwap | src/fe25519.c:185-193 | the exclusive-or trick with the all-ones and the all-zero mask, for all 64-bit words |
| Fe25519.Pow | src/fe25519.c:197-209 | square-and-multiply over 256 exponent bits computes a^e modulo p for every 32-byte e |
| Fe25519.PowBit | src/fe25519.c:201-207 | what one exponent bit does to the running power |
| Fe25519.ExponentTables | src/fe25519.c:24-41 | the three exponent tables are p - 2, (p + 3) / 8 and (p - 1) / 4 |
| FeBytes.FromBytes | src/fe25519.c:45-63 | loads the little-endian number modulo 2^255 into limbs below 2^51 |
| FeBytes.SplitMeaning | src/fe25519.c:52-62 | cutting four words at the 51-bit marks drops bit 255 and nothing else |
| FeBytes.TwoPasses | src/fe25519.c:68-83 | two carry passes bring any limbs below 2^54 to limbs below 2^51 of the same residue |
| FeBytes.SubtractOnce | src/fe25519.c:84-95 | adding 19 carries out of bit 255 exactly when p must be subtracted, so one conditional step gives the least residue |
| FeBytes.ToBytes | src/fe25519.c:65-105 | writes the unique encoding of the residue below p |
| FeBytes.EncodingInjective | src/fe25519.c:65-105 | different field elements have different encodings |
| FeBytes.EncodingRoundTrip | src/fe25519.c:45-105 | reading an encoding back gives the same field element |
| FeBytes.Invert | src/fe25519.c:211-214 | a^(p-2), in product shape |
| PrimeField.InverseLaw | src/fe25519.c:211-214 | if p is prime, a^(p-2) is the inverse of every nonzero a, and 0 for 0 (from a proof of Fermat's little theorem) |
| FeBytes.IsZero | src/fe25519.c:216-223 | true exactly for the zero residue, in any limb representation in the bound class |
| FeBytes.Parity | src/fe25519.c:225-230 | the parity of the canonical residue |
| FeBytes.Equal | src/ed25519.c:148-156 | true exactly when the residues are equal |
| FeBytes.Neg | src/ed25519.c:141-146 | field negation, inside the class at most 2p limbwise |
| X25519.Eval | src/curve25519.c:8-69 | for every scalar and point the bytes written are the X25519 function of section 5 of RFC 7748, through the deferred swap and the rewritten constant |
| X25519.RunLadder | src/curve25519.c:29-63 | all 255 iterations with deferred swaps equal the RFC ladder that swaps before and after each step |
| X25519.LadderStep | src/curve25519.c:36-60 | one iteration computes the RFC step with a24 = 121665; all limb bounds close |
| X25519.RewrittenConstant | src/curve25519.c:55-59 | E (BB + 121666 E) equals E (AA + 121665 E) |
| X25519.ClampNumber | src/curve25519.c:12-17 | the clamped scalar is bits 3 to 253 of the 32 input bytes and bit 254, as a number |
| X25519.ClampValue | src/curve25519.c:14-17 | clamped scalars are multiples of 8 with bit 254 as the highest bit |
| Montgomery.DifferentialAdd | src/curve25519.c:46-60 | the ladder's sum represents the sum of two points, from the coordinate of their difference alone |
| Montgomery.Doubling | src/curve25519.c:38-60 | the ladder's double represents the double, which is where d = -121665/121666 matters |
| Montgomery.ClimbMeaning | src/curve25519.c:29-63 | after each bit the two pairs represent (k >> t) P and one P more |
| Montgomery.Curve25519Meaning | src/curve25519.c:8-69 | for the u-coordinate of any curve point P the bytes are the u-coordinate of [k]P with k = 2^254 + 8 (s / 8 mod 2^251) for the scalar's number s, given that p is prime and the addition associative |
| Montgomery.SharedSecret | tests/test_phase2.c:230-234 | applying two scalars in either order gives the same bytes, from any curve point |
| Montgomery.KeyAgreement | tests/test_phase2.c:230-234 | two parties that exchange public keys made from u = 9 compute the same secret, for all pairs of private keys |
| Scalar.Ge4 | src/ed25519.c:26-33 | four-word comparison |
| Scalar.Sub4 | src/ed25519.c:36-44 | four-word subtraction; it wraps modulo 2^256 exactly when the minuend is smaller |
| Scalar.ReduceStep | src/ed25519.c:54-62 | doubling, adding a bit and one conditional subtraction keep r equal to the bits consumed so far modulo L |
| Scalar.ReduceWide | src/ed25519.c:48-67 | the input of any length modulo L, as 32 bytes |
| Scalar.Product | src/ed25519.c:79-97 | the schoolbook product with rippling carries is the product and never leaves 64 bytes |
| Scalar.AddLow | src/ed25519.c:98-107 | adds the 32-byte addend without overflow |
| Scalar.MulAddMod | src/ed25519.c:75-111 | the unique value below L congruent to a b + c, for all 32-byte a, b and c |
| Scalar.BelowOrder | src/ed25519.c:114-122 | true exactly for scalars below L |
| Scalar.OrderValue | src/ed25519.c:17-22 | the order is 2^252 + 27742317777372353535851937790883648493 |
| Ge.GeAdd | src/ed25519.c:167-194 | the extended addition formulas on limb buffers; bounds are kept and the output may alias either or both inputs |
| Edwards.Complete | src/ed25519.c:164-194 | if p is prime, the denominators 1 + d x1 x2 y1 y2 and 1 - d x1 x2 y1 y2 never vanish on the curve |
| PrimeField.DIsNonresidue | src/ed25519.c:295-305 | d is not a square modulo p (proved, given that p is prime) |
| Edwards.AddOnCurve | src/ed25519.c:167-194 | the affine sum of two curve points is on the curve |
| Edwards.SumUnique | src/ed25519.c:167-194 | the division-free equations of the addition law determine the sum |
| Extended.ExtAddRepresents | src/ed25519.c:167-194 | the formulas represent the affine sum of section 5.1.4 of RFC 8032 for all representatives of all curve points, doublings included |
| Extended.RepresentsInvariant | src/ed25519.c:124-128 | X Y = Z T and -X^2 + Y^2 = Z^2 + d T^2 for everything ge_add produces |
| Extended.NegRepresents | src/ed25519.c:196-202 | negating X and T represents the negated point |
| Ge.GeNegate | src/ed25519.c:196-202 | negation in place, in the same bound class |
| Ge.GeCSwap | src/ed25519.c:204-210 | conditional exchange of two points |
| Ge.GeStep | src/ed25519.c:220-228 | swap, add, double, swap |
| Ge.GeScalarMult | src/ed25519.c:213-229 | the in-place 255-step loop computes the ladder function; the result may overwrite the input point |
| Ge.RungsMeaning | src/ed25519.c:213-229 | after each bit r0 represents (n >> bit) P and r1 represents one P more |
| Ge.ExtTimesRepresents | src/ed25519.c:213-229 | the result represents n P for every n below 2^255, given associativity |
| GeCodec.GeToBytes | src/ed25519.c:232-240 | writes y with the parity of x in the top bit |
| GeCodec.CompressMeaning | src/ed25519.c:232-240 | the encoding is y + 2^255 (x mod 2) as a little-endian number |
| GeCodec.AffineMeaning | src/ed25519.c:232-240 | the affine point, hence the encoding, is the same for every projective representative |
| GeCodec.GeFromBytes | src/ed25519.c:243-285 | accepts exactly what the decompression function accepts and writes its point; a rejected string leaves the output alone |
| GeCodec.EdInit | src/ed25519.c:295-310 | computes -121665/121666, twice that, and 2^((p-1)/4) |
| Decompression.EdConstants | src/ed25519.c:295-310 | those are the curve constant d and a square root of -1 |
| Decompression.SquareRootMeaning | src/ed25519.c:263-275 | a root is found exactly for squares, and it squares back |
| Decompression.XSquaredMeaning | src/ed25519.c:253-261 | x^2 = (y^2 - 1) / (d y^2 + 1) exactly on the curve |
| Decompression.DecompressSound | src/ed25519.c:243-285 | an accepted string yields a curve point with Z = 1, T = X Y, the given y, and the parity of X equal to the sign bit |
| Decompression.DecompressIff | src/ed25519.c:243-285 | a string is accepted exactly when a curve point with its y and sign exists |
| Decompression.PointRoundTrip | src/ed25519.c:232-285 | point to bytes to point is the identity on the curve |
| Decompression.BytesRoundTrip | src/ed25519.c:245-251 | an accepted string is reproduced exactly when its y is below p, a comparison the source does not make |
| Decompression.NonCanonicalAccepted | src/ed25519.c:245-251 | y = p + 1 is accepted as the identity and not reproduced |
| Ed25519.PubkeyFromSeed | src/ed25519.c:323-337 | writes the public key function of the seed |
| Ed25519.Sign | src/ed25519.c:350-394 | writes the signature function of seed and message |
| Ed25519.Verify | src/ed25519.c:396-429 | accepts exactly when the verification predicate holds: S below L, the key decodes, and the encoding of [S]B - [k]A equals R |
| Ed25519Theorems.PublicKeyMeaning | src/ed25519.c:314-337 | the public key is the encoding of [a]B, a being the clamped first half of the seed's SHA-512 digest as a number |
| Ed25519Theorems.SignatureMeaning | src/ed25519.c:350-394 | R = [r]B and S = r + k a mod L, with r and k the whole 64-byte digests of the strings section 5.1.6 of RFC 8032 names, modulo L |
| Ed25519Theorems.VerifyMeaning | src/ed25519.c:396-429 | for every key, signature and message: verification is S < L and a curve point A with the key's y and sign for which R = [S]B - [k]A, k being the whole digest of R, key and message modulo L |
| Ed25519Theorems.BaseMeaning | src/ed25519.c:287-293 | the stored base point always decompresses, to the base point of RFC 8032 |
| Ed25519Theorems.Completeness | src/ed25519.c:323-429 | for every seed, message and hash compression function the signature verifies under the public key, given the three named hypotheses |
| StreamHash.FoldAppend | src/sha512.c:76-106 | folding whole blocks may stop and resume anywhere: only the left-over bytes matter |
| StreamHash.PaddedNumber | src/sha512.c:108-129 | the padded message as a number: the message, a one bit, the fewest zero bits, and the length field (section 5.1 of FIPS 180-4) |
| StreamHash.BlockBuffer.Absorb | src/sha256.c:72-98 | after any update the state is the fold of everything absorbed and the buffer holds the left-over bytes |
| StreamHash.BlockBuffer.Finish | src/sha256.c:100-120 | marker, zeros, length, and one or two last blocks amount to folding the padded message |
| Sha256.Context.Update | src/sha256.c:72-98 | absorbs the data; the bit counter is 8 times the length modulo 2^64 |
| Sha256.Context.Final | src/sha256.c:100-125 | the digest is the one-shot hash of everything absorbed, however it was cut |
| Sha256.HashMeaning | src/sha256.c:63-125 | the one-shot hash: blocks of the padded message with its bit length modulo 2^64, chained from the initial value, the last value's words big-endian |
| Sha256.InitialWords | src/sha256.c:63-70 | the initial value is the fractional parts of the square roots of the first eight primes |
| Sha256.HmacMeaning | src/sha256.c:137-173 | the two pads byte by byte: a long key hashed, a short one filled with zeros on the right |
| Sha256.HmacOfPieces | src/sha256.c:137-173 | streaming HMAC over any pieces is the nested formula of section 2 of RFC 2104 |
| Sha256.HmacContext.Final | src/sha256.c:167-173 | the outer hash over the inner digest |
| Sha512.CountBits | src/sha512.c:76-86 | the two-word counter with its carry is 8 times the length modulo 2^128 |
| Sha512.Context.Update | src/sha512.c:76-106 | absorbs the data and keeps the counter |
| Sha512.Context.Final | src/sha512.c:108-138 | the digest is the one-shot hash of everything absorbed |
| Sha512.HashMeaning | src/sha512.c:66-138 | the one-shot hash, with the bit length modulo 2^128 |
| Sha512.InitialWords | src/sha512.c:66-74 | the initial value is the fractional parts of the square roots of the first eight primes |
| Aes.SBoxMeaning | src/aes.c:7-24 | every table entry is the inverse in GF(2^8) followed by the affine map of section 5.1.1 of FIPS 197 |
| Aes.SBoxInverse | src/aes.c:7-24 | the inverse table undoes the table |
| Aes.AesCtx.SetEncryptKey | src/aes.c:38-70 | fails exactly for key sizes other than 128, 192 and 256; otherwise fills in the key schedule of section 5.2 of FIPS 197 |
| Aes.ScheduleStart | src/aes.c:38-56 | the expanded key starts with the key's bytes, and has four words per round and four more |
| Aes.ScheduleMeaning | src/aes.c:58-70 | every later byte is the one a key length back plus what section 5.2 of FIPS 197 adds: the next byte of the word before, substituted, with the round constant; that byte substituted; or that byte |
| Aes.RoundConstants | src/aes.c:26-28 | each round constant is twice the one before |
| Aes.AddRoundKey | src/aes.c:74-82 | the in-place loop adds the four words of the round key |
| Aes.ShiftRows | src/aes.c:89-99 | the in-place moves rotate row r left by r |
| Aes.MixColumns | src/aes.c:106-117 | the in-place loop applies the column map |
| Aes.MixColumnMatrix | src/aes.c:106-117 | the column map is the matrix of section 5.1.3 of FIPS 197 over GF(2^8) |
| Aes.MixColumnFour | src/aes.c:101-117 | the column map has order four, so its third power is its inverse |
| Aes.AesCtx.EncryptBlock | src/aes.c:119-139 | the in-place rounds compute the cipher function for 10, 12 and 14 rounds |
| Aes.EncryptedMeaning | src/aes.c:74-139 | every ciphertext byte is that of section 5.1 of FIPS 197: diagonals substituted, multiplied by the matrix and keyed in all rounds but the last, which does not multiply |
| Aes.CipherInverse | src/aes.c:119-139 | for every key schedule the inverse cipher undoes the cipher |
| Aes.EncryptedInjective | src/aes.c:119-139 | for every key schedule different blocks encrypt differently |
| Ctr.CtrIncrement | src/aes.c:143-149 | the early-exit loop is the byte-wise carry function |
| Ctr.IncrementMeaning | src/aes.c:143-149 | the byte-wise carry is +1 modulo 2^128 (for any width) |
| Ctr.KeystreamBlocksDistinct | src/aes.c:143-178 | no two of 2^128 consecutive keystream blocks are equal |
| Ctr.CryptedMeaning | src/aes.c:162-178 | byte i is under byte (p + i) mod 16 of the encryption of the initial counter plus (p + i) / 16, modulo 2^128 |
| Ctr.AesCtr.Init | src/aes.c:151-160 | starts a keystream at the given counter; a bad key size leaves round keys, counter, block and offset all zero |
| Ctr.AesCtr.Crypt | src/aes.c:162-178 | one call, in place or not, exclusive-ors the data with the keystream at the current position and advances it |
| Ctr.ChunkIndependence | src/aes.c:162-178 | any sequence of calls produces what one call on the whole would |
| Ctr.Recut | src/aes.c:162-178 | decrypting with a different chunking recovers the plaintext |
| KeyInstall.SetKeys | src/session.c:130-163 | accepts exactly the supported names and sizes; the new state in every case, failing ones included |
| KeyInstall.Activate | src/session.c:165-169 | switches encryption on and nothing else |
| KeyInstall.AcceptedArguments | src/session.c:138-161 | exactly which names and sizes are accepted |
| KeyInstall.FirstPacket | src/session.c:130-256 | the first packet under new keys: the packet under the keystream of the given key and counter from its beginning, and the HMAC under the given MAC key |
| KeyInstall.EndsAgree | src/session.c:130-169 | after the same keys are installed and activated two ends are in the same state exactly when their sequence numbers agree, whatever they were in before |
| KeyInstall.FailureAtomicIff | src/session.c:149-161 | a failing call leaves the direction alone exactly when the cipher arguments were at fault (or the keystream was already the new one), and never touches anything but the keystream |
| KeyInstall.FailureChangesKeys | src/session.c:149-161 | a failing call that is not atomic: an unknown MAC name on a direction without keys |
| KeyInstall.FailureGarbles | src/session.c:149-161 | a failing call with the cipher key and counter in use restarts the keystream, after which no block the peer sends is decrypted to what it was |
| Packets.PaddedPacketMeaning | src/session.c:196-225 | the packet byte by byte: length, padding length, payload, padding, with the least padding of four bytes or more that fills up the block |
| Packets.SendableIff | src/session.c:198 | payloads of 1 to 32768 bytes are sent |
| Packets.WireMeaning | src/session.c:221-250 | on the wire: the packet under the keystream, and the HMAC of its four-byte sequence number and the plaintext packet when there is a MAC key |
| Packets.PlainWire | src/session.c:250-254 | before encryption the packet itself |
| Packets.NumbersAuthenticated | src/session.c:313-335 | a packet made under one sequence number is accepted at another only if the HMACs of two different strings coincide |
| Packets.AcceptedIff | src/session.c:264-362 | over all direction states and inputs: accepted exactly when the input starts with the wire form of a packet within the size limits, of whole blocks, whose padding length is four or more and leaves a payload; what is refused does not count |
| Session.SessionSend | src/session.c:196-256 | what goes on the wire and the new direction state, for success, refusal, random failure and a short write |
| Session.SessionRecv | src/session.c:264-362 | the receive function on the socket input: outcome, output buffer, bytes consumed and the new direction state, for every byte stream; it never returns exactly on the inputs of WrapsIff |
| Session.ComputeMac | src/session.c:227-237 | HMAC over sequence number and packet, streamed |
| Packets.ReceiveSent | src/session.c:196-362 | for every shared direction state, payload of 1 to 32768 bytes, padding bytes and following bytes, the receiver accepts what the sender wrote, returns the payload and ends in the sender's state |
| Packets.AcceptedIsSent | src/session.c:264-362 | conversely, accepting means that the input starts with the wire form of exactly the returned payload under this direction's keys and sequence number |
| Packets.ReceiveFramed | src/session.c:264-339 | for every packet with a well-formed length that a holder of the keys puts on the wire, the receiver recovers the packet and is left with the padding and payload length checks |
| Packets.WrapsIff | src/session.c:264-354 | over all direction states and inputs, the payload length wraps exactly when the input starts with a whole packet, authentic where that is checked, whose padding length is between its packet length and two more |
| Packets.GapPacketWraps | src/session.c:340-354 | every such packet from a holder of the keys gets there, encrypted and authenticated or not |
| Packets.WrapExample | src/session.c:340-354 | the shortest one, for both kinds of direction |
| Session.PayloadLength | src/session.c:347-354 | the payload length in size_t arithmetic: the real one, or in the gap one for which no buffer's growth ends |
| Channel.RunSynced | src/session.c:130-362 | the channel invariant holds after every disciplined run from any two ends whose protection in force agrees: sender = receiver advanced by what is in flight, wire = exactly those packets |
| Channel.RecvKeeps | src/session.c:264-362 | receiving keeps the channel invariant |
| Channel.SendKeeps | src/session.c:196-256 | sending keeps the channel invariant |
| Channel.ChangeOutKeeps | src/session.c:130-169 | installing or activating keys on the sending end keeps the invariant |
| Channel.ChangeInKeeps | src/session.c:130-169 | so does doing it on the receiving end where the sender did |
| Channel.Delivered | src/session.c:130-362 | over all disciplined runs, with session_set_keys and session_activate as separate steps, failing calls and packets in between: nothing is refused, the output is a prefix of what was sent, sequence numbers differ by the packets in flight modulo 2^32, and a receiver that has caught up agrees with the sender |
| Buffer.SshBuf.Reserve | src/buffer.c:49-65 | for every size_t: keeps the contents and grows to the first doubling, in size_t arithmetic, that reaches the size; that fails exactly when none does, which never happens below 2^63 |
| Buffer.NewCapacity | src/buffer.c:54-57 | the loop returns the first doubling that is large enough, or there is none |
| Buffer.GrowthNeverEnds | src/buffer.c:54-57 | no capacity below 2^63 - 1 ever doubles to the last three sizes |
| Buffer.SshBuf.PutMpint | src/buffer.c:154-180 | appends the minimal non-negative mpint encoding, its length field truncated to 32 bits |
| Buffer.MpintValue | src/buffer.c:154-180 | an mpint stands for the given number and its sign bit is clear |
| Buffer.MpintShortest | src/buffer.c:154-180 | the length field, and the shortest string with a clear sign bit that stands for the number |
| Buffer.MpintCanonical | src/buffer.c:154-180 | two byte strings of any length are written identically, length field included, exactly when they stand for the same number |
| Buffer.SshBuf.GetString | src/buffer.c:237-258 | reads what the read function says; a short string still consumes its length field |
| Buffer.StringRoundTrip | src/buffer.c:139-146 | a string is read back whatever follows it |
| KexInit.Encode | src/kex.c:48-68 | appends the encoded message across any buffer growth |
| KexInit.Decode | src/kex.c:70-96 | the decoding function, unchecked string reads included |
| KexInit.RoundTrip | src/kex.c:48-96 | decoding undoes encoding for all NUL-free lists and any trailing bytes; NULL lists come back empty |
| KexInit.RoundTripExact | src/kex.c:48-96 | a message is reproduced exactly when none of its lists is NULL |
| KexInit.EncodedFields | src/kex.c:48-68 | the message number 20, the cookie, the lists, the flag and four zero bytes |
| KexInit.EncodedExample | src/kex.c:48-68 | one message byte by byte |
| KexInit.OthersRefused | src/kex.c:75-77 | another message number, or a message shorter than its cookie, is refused |
| KexInit.NullIff | src/kex.c:79-88 | an accepted message has a NULL list exactly when its ten strings do not fit |
| KexInit.TruncatedAccepted | src/kex.c:79-94 | a message whose first list is cut short is accepted with a NULL list |
| Kdf.DeriveKey | src/kex.c:192-229 | fails exactly for length 0; otherwise writes the first bytes of K1, K2, ... |
| Kdf.KeyMeaning | src/kex.c:192-229 | the key starts with HASH(K, H, letter, session id), and after any whole number of blocks comes the HASH of K, H and those |
| Kdf.ShorterIsPrefix | src/kex.c:192-229 | a shorter key is a prefix of a longer one from the same inputs |
| Negotiation.ListContains | src/kex.c:116-130 | true exactly when the name is one of the names of the list |
| Negotiation.NamesOfJoin | src/kex.c:132-151 | splitting a comma-joined list gives the names back |
| Negotiation.NamesExample | src/kex.c:116-130 | the separator is a comma |
| Negotiation.MatchList | src/kex.c:132-151 | the first client name the server also has, or none exactly when there is none |
| Negotiation.OutcomeUnique | src/kex.c:132-151 | the two lists determine the outcome |
| Negotiation.Negotiate | src/kex.c:153-174 | fails exactly when one of the eight pairs has no common name |
| Negotiation.MisfitFails | src/kex.c:70-174 | when the first eight strings of an accepted message do not fit, negotiation with any proposal fails, from either side |
| Base64.Encode | src/base64.c:7-39 | writes the encoding and a NUL and returns its length as an int, or fails exactly when they do not fit |
| Base64.Decode | src/base64.c:51-79 | the decoding function of the text and the output capacity, its length returned as an int |
| Base64.DigitValue | src/base64.c:41-49 | every digit is read back as its value |
| Base64.DigitCode | src/base64.c:4-5 | the digits' ASCII codes, in the order of table 1 of RFC 4648 |
| Base64.EncodedMeaning | src/base64.c:7-39 | the encoding as a number: digits for the bytes and the fewest zero bits, and one padding character for every two of those |
| Base64.DigitStep | src/base64.c:64-73 | after every digit output and pending bits are the number read so far, although the accumulator is never cleared and overflows 32 bits |
| Base64.DecodedIff | src/base64.c:51-79 | over all texts and capacities: decoding succeeds exactly for digits, not one too many, followed by at most two padding characters, line breaks anywhere, whose bytes fit |
| Base64.DecodedMeaning | src/base64.c:51-79 | and gives the whole bytes of the digits' number |
| Base64.RoundTrip | src/base64.c:7-79 | an encoding with CR and LF inserted anywhere decodes to the original bytes exactly when they fit the output buffer |

## Left out

- `src/net.c`, `src/rand.c`, `src/main.c`: sockets, entropy and the command line; the network is a byte stream per direction, random bytes and the number of bytes a write gets through are parameters.
- `src/packet.c`: an older plaintext framing that the session code replaces.
- `session_exchange_ident` and `session_ident_check`: banner input and a one-pass scanner.
- `sha256_block` and `sha512_block`: parameters; no property of the compression functions is needed.
- `curve25519_base`, `curve25519_generate_private`, `ed25519_keypair`: one call each of a modelled function, with a constant or with random bytes.
- Allocation failure, NULL arguments, the `*_free` functions and scrubbing of secrets.
- Timing, secrecy, unforgeability and collision resistance: not functional properties.
- The primality of p, the associativity of the curve's addition and the order of the base point: named hypotheses.
- `buf_put_u64`, `buf_get_u64` and the plain accessors of the buffer: the 32-bit codecs show the same.
- A direction activated without keys: `session_activate` is modelled for a direction whose keystream has been set up.
- Objects of 2^63 - 1 bytes or more, which C implementations do not have: the writers of the buffer and `session_recv` are stated below that size.
- Session.SessionRecv: where the source does not return, the method returns the state the source stays in, with a status of its own.
- Ed25519.Sign: does not model that A is kept for a while in the second half of the output buffer while k is computed; the buffer's final contents are what is stated.
- Sha512.Context.Update: takes lengths below 2^64, the range of size_t.
- Channel.Delivered: does not cover a sender whose write fails half-way; the channel is lossless.
- Montgomery.Curve25519Meaning: does not cover u-coordinates that belong to the quadratic twist, on which the same formulas compute multiples too; `X25519.Eval` holds for all inputs.
- KexInit.Decode: a decoded list is the bytes read; a C reader would see it up to its first NUL.
