# A verified model of QuarkDash

QuarkDash is a Go implementation of a small secure-channel protocol: a Ring-LWE key
encapsulation (KEM) whose ring products run over a number-theoretic transform (NTT), a
symmetric session with per-packet metadata, a MAC, a replay window and key rotation, and two
stream ciphers behind a cached, seekable keystream. This project models those three parts in
Dafny and proves what they are for.

`Wrappers` and `ByteStrings` hold shared types and encodings. Classes and methods follow the source's loops and fields; each is proved equal to a function on
values, and the theorems are lemmas about those functions.

* **Ring-LWE.** `Modular`, `NumberTheory`, `Polynomial`, `BitReversal`, `Transform` and `Ntt`
  hold the mathematics and the butterfly loops, `RingLwe.BaseRingLwe` is the object with its
  twiddle caches and protection options, `RingCodec` its byte conversions and samplers,
  `Reconciliation` the hint arithmetic, and `Kem` the scheme on values with the agreement
  theorems. The transform has no twist by a square root of its root, so the product is *cyclic*
  convolution (modulo x^N - 1), and everything is stated for that.
* **Ciphers.** `Words`, `ChaCha`, `Gimli`, `Keystream`, `Cipher`, and the literal blocks of
  `ChaChaVector` and `GimliVector`. The infinite keystream is a
  function of position; the cached object is proved to return it whatever was evicted. The
  permutation called Gimli in the source leaves out the published rotations, so nothing is
  claimed about the published Gimli.
* **Session.** `KeyRotation` (payload, decimal counter, derivation), `ReplayWindow`,
  `Session` (one endpoint, each public call a function of state and arguments), `QuarkDash`
  (the object with its fields, proved to follow `Session`), `Wire` (packets, tags, keys and
  errors spelled out byte by byte), `SessionRuns` (every run of one endpoint), `Lockstep` (every run of two endpoints over two ordered queues) and `Handshake`
  (KEM and session together).

SHA-256, SHAKE256 and the KDF are arbitrary deterministic functions of fixed output length.
Random bytes and clock readings are arguments. Go's `%` truncates toward zero: `Rem` and `Quo`
model it where the source applies it to values that may be negative. Integers are unbounded
except where the source's width shows: 32-bit block counters and sequence numbers, the 64-bit
timestamp difference, the rekey counter and `itoa`; moduli are at most 65536, so no product of
two residues exceeds 32 bits.

Three places where the code does less than its documentation or its shape suggests are proved
rather than smoothed over:

* The timestamp test passes a packet whose clock is exactly 2^63 ms away, whatever the
  tolerance (`ReplayWindow.FreshExactly`, `ReplayWindow.HalfRangeAccepted`).
* A packet number that has been evicted from the replay window is accepted a second time:
  exactly when is `SessionRuns.AcceptedAgainExactly`, a run for every window size is
  `SessionRuns.EvictedIsAcceptedAgain`.
* KEM agreement is not unconditional: random bytes that break it are in
  `Handshake.WorstCaseFails`, and exactly when it holds is `Kem.AgreementExactly`.

The lockstep theorems assume ordered, loss-free queues and four conditions on rotations. Each
is needed, and the lemma that shows what happens without it is:

* no rotation starts while one is on its way to its maker: `Lockstep.CrossedToken` says what
  becomes of a crossed token, for every suite, and `Lockstep.CrossingBreaksLockstep` gives a
  run in which it is refused;
* tokens arrive within the timestamp tolerance, and at most 2^32 rotations are made:
  `Session.ApplySealedToken` refuses exactly a late token and one whose counter does not fit
  32 bits;
* a side sends fewer than 2^32 packets: after that numbers repeat (`SessionRuns.SentNumbers`),
  and `Session.ApplySealedToken` refuses a token whose number is still in the window.

Data is under no condition but the number of packets. Whatever becomes of data that crosses a
rotation, it does not disturb the key chains (`Lockstep.EveryArrival`).

Verify with `dafny verify dfyconfig.toml`.

## Model

| member | source | states |
|---|---|---|
| NumberTheory.ModInverse | ringlwe/ringlwe.go:72-81 | For a > 0 and m > 1 the Euclidean loop terminates with a residue in [0, m), which is an inverse of a modulo m whenever gcd(a, m) = 1 |
| NumberTheory.InverseUnique | ringlwe/ringlwe.go:72-81 | Two inverses of the same number modulo m are congruent, so modInverse returns the only one in [0, m) |
| NumberTheory.PowMod | ringlwe/ringlwe.go:83-95 | Square-and-multiply returns base^exp modulo m for every exponent >= 0 |
| NumberTheory.PrimeCoprime | ringlwe/ringlwe.go:385-386 | Every blinding factor in [1, q) has an inverse when q is prime |
| NumberTheory.Prime7681 | ringlwe/ringlwe.go:540 | 7681 is prime |
| NumberTheory.Prime12289 | ringlwe/ringlwe.go:541 | 12289 is prime |
| BitReversal.RevInvolution | ringlwe/ringlwe.go:257-273 | Reversing k bits twice gives the index back |
| BitReversal.NextReversed | ringlwe/ringlwe.go:262-267 | The carry loop turns the reversal of i - 1 into the reversal of i, and terminates |
| BitReversal.BitReverse | ringlwe/ringlwe.go:257-273 | The swapping loop is exactly the bit-reversal permutation for every power-of-two length |
| BitReversal.SwapStep | ringlwe/ringlwe.go:268-270 | The test i < j swaps every pair once: a pair already exchanged is not exchanged back |
| BitReversal.PermutedSplit | ringlwe/ringlwe.go:257-273 | Bit reversal puts the reversed even-indexed entries before the reversed odd-indexed ones |
| BitReversal.PermutedTwice | ringlwe/ringlwe.go:257-273 | Bit reversal is its own inverse |
| Polynomial.EvalConv | ringlwe/ringlwe.go:394-400 | At any x with x^N = 1 mod q the cyclic convolution evaluates to the product of the factors' values |
| Transform.DftIsSum | ringlwe/ringlwe.go:318-336 | The specified transform is entry by entry the sum of a[i] * root^(i*j) modulo q |
| Transform.FftIsDft | ringlwe/ringlwe.go:275-293 | Butterflies over the bit-reversed input compute the discrete Fourier transform, for every N = 2^k and every root with root^(N/2) = -1 mod q, q not necessarily prime |
| Transform.PassAdvances | ringlwe/ringlwe.go:321-334 | One in-place pass over all blocks turns transforms of size 2^s into transforms of size 2^(s+1) |
| Transform.RootOrder | ringlwe/ringlwe.go:540-541 | root^(N/2) = -1 gives root^N = 1 |
| Transform.InverseTransform | ringlwe/ringlwe.go:338-359 | Transforming with the inverse root gives N times the input: orthogonality of the roots by halving |
| Transform.RoundTrip | ringlwe/ringlwe.go:295-359 | The inverse transform undoes the transform up to reduction, for every input |
| Transform.DftInjective | ringlwe/ringlwe.go:275-293 | Polynomials with equal transforms are congruent coefficient by coefficient |
| Transform.DftOfConv | ringlwe/ringlwe.go:394-400 | The transform of the cyclic convolution is the pointwise product of the transforms |
| Transform.BlindedDft | ringlwe/ringlwe.go:383-400 | Factors scaled by c and by its inverse give the transform of the unscaled product |
| Ntt.TwiddleSquare | ringlwe/ringlwe.go:238-245 | The twiddle of a pass squares to the twiddle of the pass before |
| Ntt.TwiddleUnit | ringlwe/ringlwe.go:247-255 | Every twiddle is invertible modulo q without q being prime |
| Ntt.SizeCoprime | ringlwe/ringlwe.go:65 | N is invertible modulo q, so InvN exists |
| Ntt.RingLweParams | ringlwe/ringlwe.go:540 | 5685^128 = -1 mod 7681 |
| Ntt.RrlweParams | ringlwe/ringlwe.go:541 | 8340^128 = -1 mod 12289 |
| Ntt.ProductBound | ringlwe/ringlwe.go:283-288 | Products of residues stay below 2^32, inside 64-bit integers |
| Ntt.ButterflyStep | ringlwe/ringlwe.go:282-289 | One butterfly in place: both entries and the running twiddle become the specified residues, all other entries stay |
| Ntt.ButterflyPass | ringlwe/ringlwe.go:280-291 | The two inner loops rewrite the array to the specified pass, with every entry in [0, q) |
| RingLwe.BaseRingLwe.constructor | ringlwe/ringlwe.go:54-67 | A new object has InvN * N = 1 mod Q, full protection and empty caches |
| RingLwe.BaseRingLwe.GetWlen | ringlwe/ringlwe.go:238-245 | With or without a cached entry the result is Root^(N/length) mod Q, and the cache stays correct |
| RingLwe.BaseRingLwe.GetInvWlen | ringlwe/ringlwe.go:247-255 | The result is the inverse of that twiddle in [0, Q), and both caches stay correct |
| RingLwe.BaseRingLwe.Ntt | ringlwe/ringlwe.go:275-293 | The in-place loops return exactly the transform of the polynomial |
| RingLwe.BaseRingLwe.HardenedNtt | ringlwe/ringlwe.go:318-336 | The variant with cached twiddles returns the same transform and keeps the caches correct |
| RingLwe.BaseRingLwe.InvNtt | ringlwe/ringlwe.go:295-316 | The in-place loops return exactly the inverse transform, division by N included |
| RingLwe.BaseRingLwe.HardenedInvNtt | ringlwe/ringlwe.go:338-359 | The same with cached inverse twiddles |
| RingLwe.BaseRingLwe.Blind | ringlwe/ringlwe.go:383-393 | Whatever two random bytes are drawn, the blinded factors have the product of the unblinded ones |
| RingLwe.BaseRingLwe.DoubleCheck | ringlwe/ringlwe.go:401-414 | The second computation always agrees: the NTT fault error is never raised |
| RingLwe.BaseRingLwe.SecureMultiply | ringlwe/ringlwe.go:361-416 | Under every combination of protection options and every blinding factor: the cyclic convolution modulo Q, or exactly the validation error of the inputs |
| RingLwe.ScaledFactors | ringlwe/ringlwe.go:383-400 | Pointwise products of scaled factors transform back to the schoolbook cyclic convolution |
| RingLwe.BlindedIsRingMul | ringlwe/ringlwe.go:383-400 | The blinding factor and its inverse cancel in the product |
| RingLwe.FactorsValid | ringlwe/ringlwe.go:173-185 | A reduced or unvalidated factor and a ternary one pass validation |
| RingLwe.FirstErrorReported | ringlwe/ringlwe.go:362-369 | With validation on: which error comes when, the first factor before the second and a length before a coefficient |
| RingLwe.DeserializedFactors | ringlwe/ringlwe.go:518-530 | Two polynomials decoded from any bytes never trip the checks of secureMultiply |
| RingLwe.BaseRingLwe.GenerateKeyPair | ringlwe/ringlwe.go:473-485 | The key pair is (a, a*s + e) and s for the polynomials drawn, serialised |
| RingLwe.BaseRingLwe.Encapsulate | ringlwe/ringlwe.go:487-505 | Every byte string gives the specified ciphertext and secret or the length error; no panic is reachable |
| RingLwe.BaseRingLwe.Decapsulate | ringlwe/ringlwe.go:507-532 | Every triple of byte strings gives the specified secret or the first length error; no panic is reachable |
| RingCodec.ValidatePoly | ringlwe/ringlwe.go:173-185 | Accepts exactly the right length and, when validating, coefficients in [-Q, Q); the length error comes exactly for other lengths |
| RingCodec.NormalizePoly | ringlwe/ringlwe.go:230-236 | Truncated remainder, plus Q, remainder again is reduction into [0, Q) for every integer |
| RingCodec.SerializePoly | ringlwe/ringlwe.go:220-228 | The loop writes the two little-endian bytes of every residue |
| RingCodec.DeserializePoly | ringlwe/ringlwe.go:208-218 | The loop reads them back, reducing only when validation is on |
| RingCodec.RoundToBitsWithHint | ringlwe/ringlwe.go:148-160 | Both arrays hold exactly the high bits and the hint bits, packed low bit first |
| RingCodec.RecToBits | ringlwe/ringlwe.go:162-171 | The array holds exactly the reconciled bits |
| RingCodec.UniformPoly | ringlwe/ringlwe.go:418-426 | Two random bytes per coefficient, reduced into [0, Q) |
| RingCodec.UniformFromBytes | ringlwe/ringlwe.go:421-424 | Coefficient i is the residue of the little-endian number in bytes 2i and 2i + 1 |
| RingCodec.SmallPoly | ringlwe/ringlwe.go:428-445 | Two random bits per coefficient give -1, 0, 1, 1, so the secret is ternary |
| RingCodec.TernaryFromBits | ringlwe/ringlwe.go:432-442 | The two bits of coefficient i, shifted and masked as the source does, give -1 for 0, 0 for 1 and 1 for 2 and 3 |
| RingCodec.ErrorRange | ringlwe/ringlwe.go:447-467 | The error sampler yields integers from -20 to 19 |
| RingCodec.ErrorRangeAttained | ringlwe/ringlwe.go:447-467 | Both ends occur, for twelve bytes 0 and for twelve bytes 255 |
| RingCodec.ErrorFromBytes | ringlwe/ringlwe.go:452-457 | For every byte sum the coefficient is the floor of 319 (sum - 1530) / 25500, in whole numbers |
| RingCodec.TwelveBytes | ringlwe/ringlwe.go:452-455 | The sum runs over all twelve bytes |
| RingCodec.ErrorOfRounded | ringlwe/ringlwe.go:456-457 | Any evaluation off by less than 1/25500, and exact where the value is zero, has the same floor: rounding cannot change a coefficient |
| Reconciliation.RecRegion | ringlwe/ringlwe.go:121-146 | The distance comparison decides by which half circle the value lies in |
| Reconciliation.AgreesExactly | ringlwe/ringlwe.go:108-146 | The receiver gets the sender's bit if and only if its value lies in the half circle the sender's value selects |
| Reconciliation.WithinTolerance | ringlwe/ringlwe.go:108-146 | Values at circular distance d with 8d < q reconcile to the bit 2v > q |
| Reconciliation.FirstFailure | ringlwe/ringlwe.go:108-146 | At distance one past q/8 there is a pair that disagrees |
| Reconciliation.ToleranceExact | ringlwe/ringlwe.go:108-146 | For odd q, every pair within distance d agrees if and only if 8d < q |
| Kem.SerializeRoundTrip | ringlwe/ringlwe.go:208-228 | Decoding an encoded polynomial gives its reduction, for every q up to 65536 and with or without validation |
| Kem.DeserializedReduced | ringlwe/ringlwe.go:212-214 | With validation on, any bytes decode to coefficients in [0, q) |
| Kem.SerializedBytes | ringlwe/ringlwe.go:220-228 | Every pair of bytes, low byte first, is the residue of its coefficient |
| Kem.DeserializedBytes | ringlwe/ringlwe.go:208-218 | And is read back as it stands, or modulo q when validating |
| Kem.HighBitsByShift | ringlwe/ringlwe.go:100-104 | Bit i of the raw string, shifted and masked, is set exactly when 2v > q |
| Kem.HintBitsByShift | ringlwe/ringlwe.go:155-157 | Bit i of the hint is set exactly in the second and fourth quarter |
| Kem.RecBitsByShift | ringlwe/ringlwe.go:164-169 | Bit i of the receiver's string is set exactly on the half circle that bit i of the hint selects |
| Kem.PublicKeyHalves | ringlwe/ringlwe.go:473-485 | The public key decodes to a in its first half and to a*s + e in its second |
| Kem.CiphertextParts | ringlwe/ringlwe.go:487-505 | The ciphertext decodes to a*s' + e' in its first 2N bytes and ends with the hint of b*s' |
| Kem.HintlessSecret | ringlwe/ringlwe.go:523-528 | A ciphertext of 2N bytes is rounded without hints |
| Kem.EncapsFailsExactly | ringlwe/ringlwe.go:487-490 | Encapsulate fails exactly on public keys of another length |
| Kem.DecapsFailsExactly | ringlwe/ringlwe.go:507-516 | Which length error comes when, and that nothing else fails |
| Kem.DifferenceIsNoise | ringlwe/ringlwe.go:473-532 | Sender's and receiver's polynomials differ by e*s' - e'*s modulo q: the shared part cancels |
| Kem.RawBitsAgree | ringlwe/ringlwe.go:148-171 | The 256-bit strings are equal if and only if every coefficient's bit agrees |
| Kem.Agreement | ringlwe/ringlwe.go:487-532 | Noise within q/8 in every coefficient makes Decapsulate return Encapsulate's secret, through all encodings and for any mix of protection options |
| Kem.ConvBound | ringlwe/ringlwe.go:428-445 | A coefficient of a product with a ternary polynomial is at most the other factor's L1 norm |
| Kem.NoiseBudget | ringlwe/ringlwe.go:473-532 | For ternary secrets, 8 * (sum of all error magnitudes) < q suffices for agreement |
| Kem.RawSecretsExact | ringlwe/ringlwe.go:487-532 | The raw secrets coincide if and only if every receiver coefficient lies in the half circle its counterpart selects |
| Kem.AgreementExactly | ringlwe/ringlwe.go:487-532 | Unless the hash collides on the two raw strings, Decapsulate returns the encapsulated secret if and only if every receiver coefficient lies in the half circle its counterpart selects |
| Kem.FirstBytesTellApart | ringlwe/ringlwe.go:469-471 | There is a hash that collides on no two raw strings, so the condition above can be met |
| Words.ReadWriteWords | core/utils.go:76-80 | Little-endian writing followed by reading gives the words back |
| Words.WriteReadWords | core/utils.go:76-80 | And the other way round, for any multiple of four bytes |
| Words.LoadWords | cipher/chacha.go:49-54 | The loading loop puts the little-endian words at their place and leaves the rest of the state alone |
| Words.LowWordInjective | cipher/gimli.go:48 | Block numbers have equal counter words if and only if they agree modulo 2^32 |
| ChaCha.QuarterInverse | cipher/chacha.go:61-74 | The quarter round is a bijection, with the stated inverse |
| ChaCha.QuarterRoundVector | cipher/chacha.go:61-74 | The test vector of section 2.1.1 of RFC 7539 |
| ChaCha.RoundsBijective | cipher/chacha.go:76-85 | The 20-round permutation of 16-word states is a bijection, with the stated inverse on both sides |
| ChaCha.BlockPeriod | cipher/chacha.go:55 | Blocks repeat after 2^32: the counter is the block number's low 32 bits |
| ChaCha.QuarterRoundInPlace | cipher/chacha.go:61-74 | The closure's twelve assignments are one quarter round on the four named words, the other twelve untouched |
| ChaCha.FillState | cipher/chacha.go:43-55 | Assignments and loops put constants, key, counter and nonce where section 2.3 of RFC 7539 has them |
| ChaCha.GenerateBlock | cipher/chacha.go:42-94 | The array loops return the block function of section 2.3 of RFC 7539, feed-forward and serialisation included |
| ChaChaVector.BlockVector | cipher/chacha.go:42-94 | The test vector of section 2.3.2 of RFC 7539, all 64 bytes: constants, layout, round count, feed-forward and byte order |
| Gimli.SpInjective | cipher/gimli.go:55-60 | The SP-box on three words is injective: bit by bit from the lowest, each output bit fixes an input bit |
| Gimli.RoundsInjective | cipher/gimli.go:53-70 | Any number of rounds is injective on states |
| Gimli.BlockInjective | cipher/gimli.go:40-76 | Two blocks are equal if and only if keys, nonces and block numbers modulo 2^32 are |
| Gimli.SpLoop | cipher/gimli.go:54-61 | The column loop in place is the SP layer |
| Gimli.FillState | cipher/gimli.go:41-48 | Key, nonce and block number fill words 0-7, 8-10 and 11 |
| Gimli.GenerateBlock | cipher/gimli.go:40-76 | The array loops return the 48-byte block of the specified permutation |
| GimliVector.BlockVector | cipher/gimli.go:40-76 | One literal block, all 48 bytes: SP-box, lane order, round constants, round count and byte order of the source |
| Keystream.StreamJoins | cipher/keystream.go:70-92 | Adjacent ranges of the stream concatenate to their union |
| Keystream.MaskedJoins | cipher/keystream.go:102-124 | Combining two adjacent pieces is combining their concatenation |
| Keystream.MaskedTwice | cipher/keystream.go:95-99 | Applying the same range twice restores the data, for every block size |
| Keystream.ChunkingIrrelevant | cipher/keystream.go:140-165 | The outputs of a Seek and one XorRead per chunk, which PerformAll is proved to return, join to the whole message combined at that offset, and the position ends behind it |
| Keystream.StreamPeriod | cipher/keystream.go:70-92 | Blocks with period n give a stream with period n times the block size |
| Keystream.LazyKeystream.GetBlock | cipher/keystream.go:54-67 | The block is the generator's whichever entry is evicted, every cached block stays correct, and the cache never outgrows its limit (at least one) |
| Keystream.LazyKeystream.GetBytes | cipher/keystream.go:70-92 | Exactly that range of the infinite stream, for every state of the cache |
| Keystream.LazyKeystream.XorStep | cipher/keystream.go:109-123 | One turn of the loop combines as much as one block serves, also in place, and leaves the rest of input and output alone |
| Keystream.LazyKeystream.XorInto | cipher/keystream.go:102-124 | Every input byte is combined with its stream byte, for separate slices, the same slice, and overlapping ones unless the output starts inside the input behind its first byte; everything else in the array is untouched |
| Keystream.LazyKeystream.Xor | cipher/keystream.go:95-99 | The same into a new buffer of the input's length |
| Keystream.LazyKeystream.Read | cipher/keystream.go:154-158 | The next bytes of the stream, and the position moves past them |
| Keystream.LazyKeystream.XorRead | cipher/keystream.go:161-165 | The data combined with the next bytes, and the position moves past them |
| Keystream.LazyKeystream.PerformAll | cipher/keystream.go:54-171 | Any sequence of calls returns what the infinite stream says, whatever is cached or evicted on the way, and the cache keeps fitting its limit (at least one block) as long as no call lowers it |
| Cipher.ProcessTwice | cipher/chacha.go:118-141 | Decrypting what was encrypted under the same key and nonce restores it, for both ciphers |
| Cipher.ProcessData | cipher/chacha.go:139-141 | Encryption through a fresh cached keystream is the data combined with the infinite stream from offset zero |
| Cipher.ChaChaStreamPeriod | cipher/chacha.go:33-55 | The lazy ChaCha20 stream repeats every 2^38 bytes |
| Cipher.GimliBlocksDistinct | cipher/gimli.go:40-76 | Under one key, different nonces or block numbers below 2^32 give different keystream blocks |
| KeyRotation.BuildRekeyPayload | rekey/rekey.go:43-52 | The bytes written are magic, little-endian counter modulo 2^32 (also for counters a 32-bit field cannot hold) and salt |
| KeyRotation.PayloadBytes | rekey/rekey.go:43-52 | Magic 0x51, four counter bytes with the lowest first, salt, position by position |
| KeyRotation.ParsePayload | rekey/rekey.go:43-67 | Parsing a built payload gives the salt and the counter modulo 2^32; salts that are not 32 bytes are refused |
| KeyRotation.CounterSurvives | rekey/rekey.go:43-67 | The counter comes back unchanged if and only if it lies in [0, 2^32) |
| KeyRotation.PayloadParse | rekey/rekey.go:55-67 | Every accepted payload is the one built from the parsed salt and counter |
| KeyRotation.Itoa | rekey/rekey.go:69-90 | The backward loop never leaves its 20-byte buffer and returns the decimal text |
| KeyRotation.DecimalDenotes | rekey/rekey.go:69-90 | The text denotes the number if and only if it is not the least 64-bit integer, which prints as a lone sign |
| KeyRotation.DecimalInjective | rekey/rekey.go:69-90 | Two 64-bit integers have the same text only if they are equal, the least one included |
| KeyRotation.DeriveRekeyMaterial | rekey/rekey.go:34-40 | The KDF is asked for the old keys, the salt and the labelled decimal counter |
| KeyRotation.RekeyInputsDistinct | rekey/rekey.go:34-40 | Two rotations share a KDF input only if old keys, salt and counter are all the same |
| KeyRotation.RekeyInfoBytes | rekey/rekey.go:36 | The info string is the literal label, the decimal counter and a colon |
| Wire.RotatedFromKdf | quarkdash.go:312-332 | New session key, then new MAC key, are what the KDF makes of old session key and MAC key, the salt, and that info string |
| Wire.RotationsSeparate | quarkdash.go:277-341 | Unless the KDF collides on the two inputs, two endpoints hold equal keys after Rekey if and only if old keys, salt and counter were equal |
| Wire.EstablishedFromKdf | quarkdash.go:220-228 | After a handshake the keys are what the KDF makes of the shared secret, 32 zero bytes and "session-key" |
| ReplayWindow.Oldest | quarkdash.go:485-490 | The loop over the map finds the least number held |
| ReplayWindow.LargestStep | quarkdash.go:483-492 | One acceptance keeps the window the W largest accepted numbers, also when an evicted number comes back and when W is zero or negative |
| ReplayWindow.LargestExactly | quarkdash.go:483-492 | An accepted number is held if and only if fewer than W accepted numbers exceed it |
| ReplayWindow.LargestIsTop | quarkdash.go:483-492 | So the accepted numbers and W determine the window |
| ReplayWindow.FreshExactly | quarkdash.go:466-471 | The wrapping 64-bit test passes if and only if the circular clock distance is within tolerance or exactly 2^63 |
| ReplayWindow.FreshBelowHalf | quarkdash.go:466-482 | For clocks below 2^63 it is the plain comparison of the difference with the tolerance |
| ReplayWindow.HalfRangeAccepted | quarkdash.go:466-482 | A packet 2^63 ms away passes tolerance zero |
| Session.MetadataInjective | quarkdash.go:455-462 | Different timestamps or sequence numbers give different metadata |
| Session.SealParts | quarkdash.go:344-380 | A sealed packet splits back into its metadata, ciphertext and a tag that verifies |
| Wire.EncryptedByte | quarkdash.go:344-380 | For every established endpoint, plaintext and position p: byte 12 + p of the packet is plaintext byte p combined with byte p of the selected cipher's keystream under the session key, with the packet's own first twelve bytes or twelve zero bytes as nonce |
| Wire.DecryptedByte | quarkdash.go:383-426 | And every byte Decrypt returns is obtained from the packet likewise |
| Wire.PacketLayout | quarkdash.go:344-380 | The packet starts with clock and sequence number, little-endian, and ends with the hash of MAC key and everything before |
| Wire.AlteredPacketRefused | quarkdash.go:394-411 | Unless the hash collides, a packet changed anywhere before its tag, metadata included, is not authentic |
| Session.OpenSealed | quarkdash.go:344-426 | Decrypt returns the plaintext of a packet sealed under its keys, unless its number is in the window or its clock out of tolerance, in that order, and changes only the window |
| Session.ApplySealedToken | quarkdash.go:277-341 | A token sealed under the receiver's keys is refused as a replay, for its age, or because its counter modulo 2^32 differs from the receiver's, in that order and only then; otherwise it rotates the receiver as it rotated the sender |
| Session.DecryptSucceedsExactly | quarkdash.go:383-426 | Decrypt succeeds if and only if the session is established, the tag good, the number not held and the clock in tolerance |
| Wire.DecryptFailsExactly | quarkdash.go:383-426 | Which of the five errors Decrypt returns when, in terms of the bytes of the packet; in all of these cases nothing changes |
| Wire.EncryptFailsExactly | quarkdash.go:346-349 | Encrypt fails exactly without a session, changing nothing |
| Session.ApplyRekeySucceedsExactly | quarkdash.go:293-310 | ApplyRekey succeeds if and only if Decrypt does and the plaintext is a payload with the receiver's counter |
| Wire.ApplyRekeyFailsExactly | quarkdash.go:293-310 | Which error an accepted token gets when it is no payload, has another salt length or another counter |
| Session.ApplyRekey | quarkdash.go:293-310 | A failed ApplyRekey leaves keys, counter and statistics as they were; a successful one advances the counter |
| QuarkDash.QuarkDash.constructor | quarkdash.go:139-150 | A new object represents the new endpoint |
| QuarkDash.QuarkDash.BuildMetadata | quarkdash.go:455-462 | The metadata of the current sequence number, which then advances modulo 2^32 |
| QuarkDash.QuarkDash.CipherForNonce | quarkdash.go:444-452 | The stored static cipher always equals one built from the current key and a zero nonce |
| QuarkDash.QuarkDash.Encrypt | quarkdash.go:344-380 | State and result follow the endpoint's Encrypt, fields and buffers assembled as in the source |
| QuarkDash.QuarkDash.CheckMetadata | quarkdash.go:465-495 | Replay before age, then insertion and eviction: state and result follow the specification |
| QuarkDash.QuarkDash.Decrypt | quarkdash.go:383-426 | State and result follow the endpoint's Decrypt on every byte string |
| QuarkDash.QuarkDash.Rekey | quarkdash.go:277-290 | The token is sealed under the old keys and the state then rotated |
| QuarkDash.QuarkDash.ApplyRekey | quarkdash.go:293-310 | State and result follow the endpoint's ApplyRekey on every byte string |
| QuarkDash.QuarkDash.ReinitSession | quarkdash.go:324-341 | New keys, cipher and counter together, statistics reset, nothing else changed |
| QuarkDash.QuarkDash.NeedsRekey | quarkdash.go:237-253 | True exactly for an established session at one of its enabled limits |
| QuarkDash.QuarkDash.GenerateKeyPair | quarkdash.go:170-177 | Stores and returns the KEM's key pair for the randomness drawn |
| QuarkDash.QuarkDash.InitializeSession | quarkdash.go:181-200 | Missing key pairs are drawn first; the initiator's state and ciphertext follow the KEM's answer |
| Wire.InitializeKeeps | quarkdash.go:181-200 | An existing key pair is kept, whoever starts and whatever would be drawn; keys, counter and statistics change only by a successful encapsulation |
| SessionRuns.PairKept | quarkdash.go:170-200 | In every run, once there is a key pair only GenerateKeyPair replaces it |
| QuarkDash.QuarkDash.FinalizeSession | quarkdash.go:203-216 | Keys follow from decapsulating with the own key pair, or the error leaves the state unchanged |
| Wire.FinalizeFailsExactly | quarkdash.go:203-216 | Succeeds exactly with a key pair, a peer key and a decapsulated secret; otherwise nothing changes |
| QuarkDash.QuarkDash.Dispose | quarkdash.go:429-442 | Keys, cipher and window are dropped; the send sequence keeps counting |
| Wire.DisposedRefuses | quarkdash.go:429-442 | After Dispose the four packet operations refuse; key pair, peer key, counters and statistics stay |
| SessionRuns.DisposedUntilHandshake | quarkdash.go:429-442 | In every run there is no session from a Dispose to the next handshake call |
| SessionRuns.WindowHoldsLargest | quarkdash.go:465-495 | At every point of every run since New or Dispose the window equals the set of accepted numbers that fewer than W accepted numbers exceed: the W largest |
| SessionRuns.ReplayExactly | quarkdash.go:475-478 | In every run an authentic packet is rejected as a replay if and only if its number was accepted and fewer than W accepted numbers exceed it |
| SessionRuns.AcceptedAgainExactly | quarkdash.go:475-492 | An authentic, timely packet whose number was accepted is accepted again if and only if at least W accepted numbers exceed it |
| SessionRuns.EvictedIsAcceptedAgain | quarkdash.go:475-492 | It happens, for every window size W below 2^32: after a handshake and packets 0 to W, packet 0 is accepted a second time |
| SessionRuns.FullWindowNeverTwice | quarkdash.go:475-492 | For W of 2^32 and more nothing is ever accepted twice |
| SessionRuns.FewNeverTwice | quarkdash.go:475-492 | While at most W distinct numbers were accepted, none is accepted twice |
| SessionRuns.NoWindowNoReplay | quarkdash.go:484-492 | With W <= 0 nothing is remembered and nothing is ever called a replay |
| SessionRuns.SentNumbers | quarkdash.go:344-380 | The i-th packet an endpoint ever sends, tokens included, carries number i modulo 2^32 |
| SessionRuns.MetadataDistinct | quarkdash.go:455-462 | Any two packets of a run fewer than 2^32 sends apart have different metadata, across rekeys, handshakes and disposals |
| SessionRuns.EncryptsDiffer | quarkdash.go:455-462 | Two Encrypt calls of a run fewer than 2^32 sends apart return packets with different metadata |
| SessionRuns.KeystreamBlocksDistinct | quarkdash.go:344-362 | With per-message nonces and the Gimli cipher, the blocks with which two such calls combine any two plaintext bytes are different, even under the same session key |
| SessionRuns.Accounting | quarkdash.go:220-234 | In every run the statistics are the number and total length of the messages encrypted since the keys last changed |
| SessionRuns.PacketAt | quarkdash.go:344-380 | The i-th of successive Encrypts is the message sealed under the next number |
| SessionRuns.FirstArrivalDelivers | quarkdash.go:344-495 | A same-key peer with an empty window accepts every packet on its first timely arrival and recovers the plaintext, in any order, with any repetitions and any window size; packets are 44 bytes longer than their plaintexts |
| Lockstep.StepKeeps | quarkdash.go:277-341 | Every allowed send, rotation or reception by either side keeps both key chains in step, whatever data is in flight |
| Lockstep.ReceivedIsSent | quarkdash.go:344-426 | In every run in which no data crosses a rotation, what a side received is, in order, what the other sent, up to what is in flight, across any number of rotations |
| Lockstep.CautiousUncrossed | quarkdash.go:277-290 | No data crosses when sides send only with no rotation on its way to them and rotate only with nothing on its way to them |
| Lockstep.EveryArrival | quarkdash.go:293-426 | In every run whose rotations do not cross, every arriving token is applied; data that arrives in time at the rotation it was sealed at decrypts to its plaintext, and any other data leaves keys and counter unchanged |
| Lockstep.EqualCountersEqualKeys | quarkdash.go:312-341 | At any two moments of a run endpoints with equal rotation counters hold equal session and MAC keys: after k tokens the receiver has the sender's keys after its k-th rotation |
| Lockstep.CountersCount | quarkdash.go:293-341 | A receiver is behind by exactly the tokens in flight to it, and only one direction carries tokens |
| Lockstep.QuietMeansEqual | quarkdash.go:277-341 | When no token is in flight both sides hold the same keys and the same counter, the number of rotations made |
| Lockstep.CrossedToken | quarkdash.go:293-310 | For every suite, a token whose receiver made the same rotation itself is refused by the MAC if its tag is bad under the new keys, by its counter if the keys did not change, and applied if and only if under the new keys it reads as a token of the next rotation |
| Lockstep.CrossedRotationsFail | quarkdash.go:293-310 | Both tokens of every crossing right after a handshake meet that fate |
| Lockstep.CrossingBreaksLockstep | quarkdash.go:303-308 | With a KDF for which the keys do not change, neither token of a crossing is applied |
| Handshake.HandshakeWithinNoise | quarkdash.go:181-234 | Key generation, InitializeSession and FinalizeSession succeed with equal keys, ready for lockstep, when the noise is within q/8, whatever pairs would be drawn and whatever options either side uses |
| Handshake.HandshakeWithinBudget | quarkdash.go:181-234 | The same from a bound on the magnitudes of the errors drawn |
| Handshake.WorstCaseFails | ringlwe/ringlwe.go:418-532 | Random bytes that every call may draw make Decapsulate return another secret than Encapsulate, in both shipped rings, under any options and any hash that tells the two raw strings apart |

## Left out

- `transport/`, `api.go` and the benchmarks: I/O, JSON and re-exports.
- `passphrase/`: PBKDF2 and the memory-hard mixer have no simpler specification than their loops.
- `hash/`, `core/mac.go`, `core/kdf.go`: library hashes and thin wrappers; the tag is an arbitrary function of key, metadata and ciphertext, the KDF one of key material, salt and info. Other MAC and key-exchange implementations plugged in by options are not part of this model.
- Secrecy, constant-time behaviour and memory wiping: not functional correctness. Nothing says that a forged packet fails, since the tag function is arbitrary.
- Goroutines: public calls on one endpoint are sequential. Encrypt and Decrypt read the MAC key outside the lock (quarkdash.go:363-369, 398-408) and Rekey releases it between steps (quarkdash.go:277-290).
- GimliVector.BlockVector: its expected bytes follow from the rounds of the source; there is no published vector for this permutation.
- Probability of decryption failure: agreement is stated for the noise drawn, not on average.
- RingCodec.ErrorPoly: does not model IEEE arithmetic in errorPoly; the floor is taken over exact reals, and ErrorOfRounded shows that no rounding error below 1/25500 changes it.
- RingCodec.ErrorRange: is stated over exact reals for the same reason.
- Keystream.LazyKeystream.GetBytes: does not model negative offsets or lengths, for which the source panics; likewise Seek and a short output in XorInto. The `Blocks` iterator is left out.
- Keystream.LazyKeystream.XorInto: does not say what an output holds that starts inside the input behind its first byte: the source then reads bytes it has already overwritten.
- Eviction is arbitrary, not least recently used as README.md:59 says (cipher/keystream.go:59-64).
- RingLwe.BaseRingLwe.Decapsulate: 512-byte ciphertexts are accepted and rounded without hints, as the code does (ringlwe/ringlwe.go:202); CHANGELOG.md:13 says they are rejected.
- Kem.Agreement: the hint field is 32 bytes, so the scheme is stated for N up to 256; the transforms are proved for every power of two.
- RingLwe.BaseRingLwe.Ntt: the four transforms share one verified butterfly pass where the source repeats the loops.
- Unsupported cipher types, for which the source panics, and the OnRekey callback.
- QuarkDash.QuarkDash.Encrypt: does not model overflow of the byte and message statistics past 2^63.
- Lockstep.EveryArrival: does not say what data that crossed a rotation decrypts to, beyond Session.DecryptSucceedsExactly: with an arbitrary tag function it could pass. Queues that lose or reorder packets are covered by SessionRuns only.
- SetRekeyPolicy, GetRekeyStats and the other getters: plain field access.
