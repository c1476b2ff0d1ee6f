# Verified models of the SAN node's core protocols

Dafny models of the parts of the repository whose correctness is an argument
and not a reading, with proofs of the properties they are there for.

- **AES** (`AesWords`, `Fips197`, `Fips197Inverse`, `AesTables`, `AesKeySchedule`,
  `AesBlock`, `AesBytes`): the compiled configuration of `crypto/aes` - four-table rounds,
  reversed decryption schedule, fixed tables - against a specification written
  from FIPS 197 alone. The 128-bit decryption schedule never runs the recurrence
  of the standard; it keeps four running sums and one delta word, and `Combos`
  is the invariant that ties them to the words of the encryption schedule.
- **Streaming modes** (`AesStreamSpec`, `AesModes`, `AesCounter`, `Sp80038a`, `Rfc3686`): CFB,
  OFB and CTR as resumable routines over buffers, against one-byte-at-a-time
  specifications and against NIST SP 800-38A sections 6.3 to 6.5. However a
  message is cut into calls the bytes are the same, and the two sides may cut it
  differently.
- **SRP-6a** (`SrpArithmetic`, `SrpAgreement`, `SrpSpec`, `Srp`): the premaster
  secret of RFC 5054 section 2.6, the interleaved hash of RFC 2945 section 3.1 and
  the whole handshake, over integers and an arbitrary hash of fixed length.
- **Shell** (`StopWait`, `StopWaitProtocol`, `SessionSpec`, `Session`, `ShellLogin`):
  the stop-and-wait protocol over a network that loses, repeats, delays and reorders,
  the login session as a state machine over every sequence of datagrams, and the two
  put together: a login over that network.
- **Queue and ports** (`ProducerConsumer`, `Portmap`): the bounded queue in every
  interleaving of its threads, and the cyclic allocator of ephemeral ports.
- **Streams and RPC** (`Transfers`, `Framing`, `Rpc`, `LineBuffer`): framing and line
  reading that do not depend on how bytes arrive, and the pairing of remote calls
  with their replies.

`Octets` holds byte strings and big-endian numbers, `Wrappers` an option type.
Code that works in place is a class or a method over arrays, proved against a
function; what the code promises is then proved about that function. Where a
function only names what a method computes, a lemma says what it comes to byte by
byte, without that name: `AesBytes` and `Sp80038a` for the cipher and its modes, the
`Layout`, `Hashes`, `Exactly` and `Answer` lemmas for messages, hashes and replies. Exceptions
and error returns are values.

## What the code does not do

Each of these is a property that one would expect, is false, and is replaced by
the exact condition under which it holds or by a run that shows it fail.

- The SRP client reduces its exponent modulo N
  (`crypto/ossl/osslmathimpl.cpp:179-180`). The two sides then agree exactly when
  g^b takes the same value at the reduced exponent (`AgreesWhenPowersDo`); for every
  b of the server exactly when g does (`AgreesForEveryB`); always below N
  (`ReducedSecretsAgree`), and for every odd N not wherever the quotient by N is odd
  (`ReductionBreaksAgreement`). SHA-1, 32 random bytes and a 1024-bit N keep the
  exponent below N (`ExponentFits`).
- Client and server pad a short A on opposite sides, so they hash the same string
  exactly when A is not short (`PaddingsAgree`); and a short B cuts the string, so
  it is the PAD(A) | PAD(B) of the comment exactly when B is not short
  (`PaddingIsRfc`).
- For either reason a right password may be refused. Unless the hash collides it is
  accepted exactly when g^b takes the same value at the client's reduced exponent,
  with the client's u, and at the server's exponent, with the server's
  (`HandshakeStandsOnAgreement`); for g = N - 1 and an odd b exactly when the two have
  the same parity (`RightPasswordRefused`). `RefusedLogin` and `RefusedShortLogin` are
  one refused login of each kind, and `RefusedLogins` sends both through the methods
  of both sides, on objects that the constructor made.
- A true return of `sendReliableMessage` answers the request of its own call in every
  run exactly when the application issues nothing but the same request after a
  failure, unless nothing is ever sent or the handler never answers anything
  (`OwnAnswersExactly`, `ResumingTakesStaleAnswers`). The shell client of
  the repository does not keep to that: it ignores a failed "hostname" request and
  goes on to the next command (`shell/clientsession.cpp:149-150`). What holds for it
  all the same is `EveryRunIsConsistent`.
- An RPC caller that times out while its reply is under way leaves that reply to its
  next call. Over a channel that may time out between two datagrams, calls made in a
  given order are paired with their own replies in every run exactly when no call
  that the executor answers comes before a sync call (`AlwaysPairedExactly`,
  `LateReplyIsMistaken`); for a single run see `PairedExactly`. The one channel that
  the repository ships ignores its time-out (`comm/streamrpcchannel.cpp:18-22`), and
  the transports below it go on waiting (`cppl/helper.cpp:122`,
  `tcp/tcphelper.cpp:126`), so it never gives a late reply: there only an answered
  one-way call harms the calls after it (`PatientPairedExactly`,
  `AlwaysPairedInTimeExactly`). An id registered both ways with the executor never
  gets a reply (`ShadowedFunctionsAreSilent`).
- A login message that does not parse is not answered with the parsing error that
  the code puts together, because the branch falls through
  (`MalformedFirstMessage`).
- The queue compares its capacity with a 32-bit count, so the capacity is kept
  exactly when it is below 2^32 (`CapacityIsKept`).
- `readDelimeter` does not look at its delimiter (`DelimiterIsIgnored`,
  `ReadDelimeter`), and
  `readSome` withholds buffered bytes at the end of the stream from a caller with
  room for more (`ReadSome`).
- A message of 2^32 bytes or more is not read back (`FrameRoundTrip`).

## Model

| member | source | states |
|---|---|---|
| Fips197Facts.SmallProducts | crypto/aes/aestab.c:155-163 | multiplication in GF(2^8) by 1, 2, 3, 9, 11, 13 and 14 as sums of repeated doublings |
| Fips197Facts.MulDistributes | crypto/aes/aesopt.h:578 | multiplication by a constant distributes over addition in GF(2^8) |
| Fips197Facts.InvMixUndoesMix | crypto/aes/aesopt.h:703-717 | InvMixColumns undoes MixColumns on every column, though it is defined by other coefficients |
| Fips197Facts.InvMixColumnDistributes | crypto/aes/aesopt.h:712-717 | InvMixColumn is additive |
| Fips197Facts.TablesAreTheSBox | crypto/aes/aestab.c:28-94 | every entry of the S-box literal is the affine image of a field inverse, and the inverse literal undoes it |
| AesTablesFacts.Multiples | crypto/aes/aestab.c:155-163 | f2, f3, f9, fb, fd, fe on a byte are its FIPS 197 products by those constants |
| AesTablesFacts.ForwardNormalSum | crypto/aes/aestab.c:141-144 | the four u tables of an encryption round sum to SubBytes then MixColumn |
| AesTablesFacts.ForwardLastSum | crypto/aes/aestab.c:136-139 | the four w tables of the last round sum to SubBytes |
| AesTablesFacts.InverseNormalSum | crypto/aes/aestab.c:146-149 | the four v tables of a decryption round sum to InvSubBytes then InvMixColumn |
| AesTablesFacts.InverseLastSum | crypto/aes/aestab.c:136-139 | the four w tables of the last decryption round sum to InvSubBytes |
| AesTablesFacts.LsBoxMeaning | crypto/aes/aesopt.h:720-730 | ls_box(x, 3) is SubWord of RotWord and ls_box(x, 0) is SubWord |
| AesTablesFacts.InvMcolMeaning | crypto/aes/aesopt.h:710-712 | the table form of inv_mcol is InvMixColumn |
| AesTablesFacts.InvMcolDistributes | crypto/aes/aesopt.h:710-712 | inv_mcol is additive, which the optimised schedules rest on |
| AesTablesFacts.XPowers | crypto/aes/aestab.c:130-134 | the round constants are the powers of x |
| Fips197Inverse.InvCipherUndoesCipher | crypto/aes/aescrypt.c:90-288 | the inverse cipher of FIPS 197 undoes the cipher for every schedule and number of rounds |
| AesKeySchedule.EncryptKey128 | crypto/aes/aeskey.c:68-104 | stores the FIPS 197 key expansion of every 16-byte key, 10 rounds, position 0 |
| AesKeySchedule.EncryptKey192 | crypto/aes/aeskey.c:110-153 | the same for 24-byte keys and 12 rounds |
| AesKeySchedule.EncryptKey256 | crypto/aes/aeskey.c:159-205 | the same for 32-byte keys and 14 rounds |
| AesKeySchedule.EncryptKey | crypto/aes/aeskey.c:211-222 | takes the key length in bytes or bits, fails exactly for other lengths and then changes nothing |
| AesKeySchedule.KsIndexIsInvolution | crypto/aes/aeskey.c:231-235 | the index map v(n,i) of the reversed schedule is a permutation and its own inverse |
| AesKeySchedule.SumsOfNextRow | crypto/aes/aeskey.c:257-284 | the four running sums of the 128-bit schedule step to the sums of the next four expansion words |
| AesKeySchedule.Kdf4 | crypto/aes/aeskey.c:257-268 | the first step stores four transformed words and sets up the running sums |
| AesKeySchedule.Kd4 | crypto/aes/aeskey.c:269-277 | a middle step stores four words computed from a delta and keeps the sums |
| AesKeySchedule.Kdl4 | crypto/aes/aeskey.c:278-284 | the last step stores the last four words untransformed, straight from the sums |
| AesKeySchedule.Kdf6 | crypto/aes/aeskey.c:365-373 | the first step of the 192-bit schedule stores six words at their places |
| AesKeySchedule.Kd6 | crypto/aes/aeskey.c:374-383 | a middle step of the 192-bit schedule |
| AesKeySchedule.Kdl6 | crypto/aes/aeskey.c:384-389 | the last step of the 192-bit schedule |
| AesKeySchedule.Kdf8 | crypto/aes/aeskey.c:451-461 | the first step of the 256-bit schedule |
| AesKeySchedule.Kd8 | crypto/aes/aeskey.c:462-474 | a middle step of the 256-bit schedule |
| AesKeySchedule.Kdl8 | crypto/aes/aeskey.c:475-480 | the last step of the 256-bit schedule |
| AesKeySchedule.DecryptKey128 | crypto/aes/aeskey.c:312-346 | every word of the decryption schedule is the encryption word at the reversed index, mixed except in the first and last round |
| AesKeySchedule.DecryptKey192 | crypto/aes/aeskey.c:391-430 | the same for 24-byte keys |
| AesKeySchedule.DecryptKey256 | crypto/aes/aeskey.c:482-525 | the same for 32-byte keys |
| AesKeySchedule.DecryptKey | crypto/aes/aeskey.c:531-542 | takes the key length in bytes or bits, fails exactly for other lengths and then changes nothing |
| AesBlock.FwdRound | crypto/aes/aescrypt.c:66-80 | a table round is SubBytes, ShiftRows, MixColumns, AddRoundKey on every state |
| AesBlock.FwdLastRound | crypto/aes/aescrypt.c:82-88 | the last round is the same without MixColumns |
| AesBlock.InvRound | crypto/aes/aescrypt.c:183-197 | an inverse table round is InvShiftRows, InvSubBytes, InvMixColumns, AddRoundKey |
| AesBlock.InvLastRound | crypto/aes/aescrypt.c:199-205 | the last inverse round is the same without InvMixColumns |
| AesBlock.Encrypt | crypto/aes/aescrypt.c:90-155 | with its fall-through switch it is the FIPS 197 cipher of the 16 bytes with 10, 12 or 14 rounds; any other round count fails and writes nothing; nothing beyond the block changes |
| AesBlock.Decrypt | crypto/aes/aescrypt.c:222-288 | the equivalent inverse cipher likewise, in place or not |
| AesBlock.RoundKeyThroughMix | crypto/aes/aescrypt.c:183-197 | InvMixColumns after AddRoundKey is AddRoundKey of the mixed key after InvMixColumns |
| AesBlock.ScheduleRow | crypto/aes/aeskey.c:231-240 | row n of the decryption schedule is round key nr - n, mixed in the middle rounds |
| AesBlock.EqInvRoundsAreInvRounds | crypto/aes/aescrypt.c:222-288 | after every round the equivalent inverse cipher is at the state of the inverse cipher |
| AesBlock.EqInvCipherIsInvCipher | crypto/aes/aescrypt.c:222-288 | FIPS 197 section 5.3.5: the equivalent inverse cipher over the decryption schedule is the inverse cipher |
| AesBlock.DecryptUndoesEncrypt | crypto/aes/aescrypt.c:90-288 | for every key of 16, 24 or 32 bytes and every block, decryption undoes encryption |
| AesBlock.EncryptThenDecrypt | crypto/aes/aescrypt.c:90-288 | the four routines run one after another give the block back |
| AesBytes.BytePlaces | crypto/aes/aescrypt.c:100 | byte 4c + r of a block is row r of column c, on the way in and out |
| AesBytes.KeyBytePlaces | crypto/aes/aeskey.c:76-79 | byte 4c + r of the key is byte r of word c |
| AesBytes.TurnedWord | crypto/aes/aeskey.c:68-73 | every Nk-th schedule word byte by byte: the bytes of the one before turned one place to the left, through the S-box, and a literal power of x in the first |
| AesBytes.OtherWords | crypto/aes/aeskey.c:159-173 | the words in between, and the fifth of eight, which takes the S-box without turning |
| AesBytes.RoundBytes | crypto/aes/aescrypt.c:66-80 | a full round byte by byte, for every state, key and round: row r from column c + r, through the S-box, mixed with 2, 3, 1, 1, and the key added |
| AesBytes.FirstAndLastBytes | crypto/aes/aescrypt.c:82-155 | the key addition before the rounds, and the last round, which does not mix |
| AesBytes.ExampleSchedule | crypto/aes/aeskey.c:75-104 | the first round key of FIPS 197 appendix B, in literal words |
| AesBytes.ExampleRound | crypto/aes/aescrypt.c:90-155 | the state after the first round of FIPS 197 appendix B, in literal words |
| Sp80038a.EncipherIsCipher | crypto/aes/aes_modes.c:565 | the block function of the modes is the FIPS 197 cipher under the expanded key, for every key and block |
| Sp80038a.CfbEncryption | crypto/aes/aes_modes.c:456-579 | each byte of CFB is added to the FIPS 197 cipher of the ciphertext block before its own |
| Sp80038a.CfbDecryption | crypto/aes/aes_modes.c:581-720 | the same cipher bytes come off again |
| Sp80038a.CfbSaved | crypto/aes/aes_modes.c:456-720 | the register and the position that are saved, in cipher and ciphertext bytes |
| Sp80038a.OfbOutput | crypto/aes/aes_modes.c:722-845 | each byte of OFB is added to the initialisation vector enciphered over and over |
| Sp80038a.CtrOutput | crypto/aes/aes_modes.c:849-941 | each byte of CTR, from any position, is added to the FIPS 197 cipher of its counter block |
| Sp80038a.CtrSaved | crypto/aes/aes_modes.c:849-941 | the counter block and the position that are saved, a full block included |
| Sp80038a.EcbWithKey | crypto/aes/aes_modes.c:136-196 | schedule and ECB on arrays: every block is the FIPS 197 cipher of its own under the key bytes |
| Sp80038a.CryptWithKey | crypto/aes/aes_modes.c:456-845 | schedule and feedback mode on arrays: the mode runs under the expansion of the key bytes |
| AesStreamSpec.RunConcat | crypto/aes/aes_modes.c:456-579 | a call resumed by another is one call on both messages, in bytes and in saved state |
| AesStreamSpec.PositionAfter | crypto/aes/aes_modes.c:577 | the saved position is the old one plus the length, modulo 16 |
| AesStreamSpec.ChunkingIsInvisible | crypto/aes/aes_modes.c:456-845 | any split of a message into calls gives the same bytes and the same saved state, in all three feedback modes |
| AesStreamSpec.CfbAcrossChunkings | crypto/aes/aes_modes.c:581-720 | CFB decryption undoes CFB encryption when the two sides split the message differently, and they end in the same state |
| AesStreamSpec.CfbRoundTripBack | crypto/aes/aes_modes.c:456-579 | CFB encryption undoes CFB decryption from every resumable state |
| AesStreamSpec.OfbAcrossChunkings | crypto/aes/aes_modes.c:722-845 | OFB is its own inverse, split in any two ways |
| AesStreamSpec.CfbEncryptIsCfb | crypto/aes/aes_modes.c:456-579 | the ciphertext is that of SP 800-38A section 6.3, and the saved register holds the last ciphertext before the position and unused keystream after it |
| AesStreamSpec.CfbDecryptIsCfb | crypto/aes/aes_modes.c:581-720 | decryption recovers the plaintext of that relation and saves the same register |
| AesStreamSpec.OfbIsOfb | crypto/aes/aes_modes.c:722-845 | byte i is masked with the output block of section 6.4 it falls in, and the saved register is the last one |
| AesModes.Bytes | crypto/aes/aes_modes.c:460-469 | the byte loop takes exactly what the open block and the message allow and keeps the register open |
| AesModes.Segment | crypto/aes/aes_modes.c:563-575 | the same with a fresh block when none is open; the position it leaves is below 16 |
| AesModes.WholeBlocks | crypto/aes/aes_modes.c:543-559 | every whole block starts at position 0, and less than a block is left |
| AesModes.Crypt | crypto/aes/aes_modes.c:456-845 | all phases together refine the byte-wise specification from every saved position, 16 included; it fails exactly when a block is needed and the round count is invalid |
| AesCounter.CtrConcat | crypto/aes/aes_modes.c:849-941 | a CTR call resumed by another is one call on both messages, whether the open block was left full or not |
| AesCounter.CtrChunkingIsInvisible | crypto/aes/aes_modes.c:849-941 | any split into calls gives the same bytes |
| AesCounter.CtrAcrossChunkings | crypto/aes/aes_modes.c:849-941 | CTR from the same counter is its own inverse, split in any two ways |
| AesCounter.EcbEncrypt | crypto/aes/aes_modes.c:136-196 | enciphers every whole block, in place or not; fails exactly for a partial block or an invalid round count |
| AesCounter.FillCounters | crypto/aes/aes_modes.c:882-890 | writes the successive counters and steps the counter once per whole block only |
| AesCounter.Keystream | crypto/aes/aes_modes.c:882-901 | the buffer then holds the encryptions of the successive counters |
| AesCounter.XorBatch | crypto/aes/aes_modes.c:903-936 | masks the batch byte by byte and leaves the position in the last block |
| AesCounter.Partial | crypto/aes/aes_modes.c:862-876 | uses up the open block and steps the counter only if more is wanted |
| AesCounter.Batch | crypto/aes/aes_modes.c:878-937 | one batch of up to 128 bytes continues the byte-wise run |
| AesCounter.CtrCrypt | crypto/aes/aes_modes.c:849-941 | for every length the output is byte-wise XOR with the encryptions of successive counters (SP 800-38A section 6.5), the saved position stays in 0..16 and cbuf is its counter; fails exactly when a block is enciphered with an invalid round count |
| Rfc3686.Rfc3686Inc | crypto/aes/rfc3686.cpp:289-295 | the carry chain is the counter step |
| Rfc3686.IncrementCounts | crypto/aes/rfc3686.cpp:289-295 | it adds one to the 32-bit block number, modulo 2^32, and leaves nonce and IV alone |
| Rfc3686.LowIsBigEndian | crypto/aes/rfc3686.cpp:289-295 | the block number is the last four bytes, the highest first |
| Rfc3686.CountersDiffer | crypto/aes/rfc3686.cpp:305-309 | no counter block comes twice within 2^32 blocks |
| SrpArithmetic.ValueOfBytes | crypto/ossl/osslconversion.cpp:22-31 | BN_bn2bin followed by BN_bin2bn is the identity |
| SrpArithmetic.BytesOfValue | crypto/ossl/osslconversion.cpp:22-31 | and the other way round for bytes without a leading zero |
| SrpArithmetic.LengthIsLogarithm | crypto/ossl/osslmathimpl.cpp:122 | BN_num_bytes is the base-256 length of a number |
| SrpAgreement.MaskComesOff | crypto/ossl/osslmathimpl.cpp:181-183 | B without k*g^x is g^b modulo N |
| SrpAgreement.ServerRaisesToB | crypto/ossl/osslmathimpl.cpp:308-310 | the server's secret is g^((a+u*x)*b) |
| SrpAgreement.SecretsArePowers | crypto/ossl/osslmathimpl.cpp:179-184 | with a u of their own, the client holds g^b to the reduced exponent and the server g^b to the whole one |
| SrpAgreement.SecretsAgree | crypto/ossl/osslmathimpl.cpp:96-99 | the two formulas of RFC 5054 give the same number for every N > 0, g, k, a, b, u, x |
| SrpAgreement.ReducedSecretsAgree | crypto/ossl/osslmathimpl.cpp:179-184 | the source's client agrees whenever a + u*x < N |
| SrpAgreement.AgreesWhenPowersDo | crypto/ossl/osslmathimpl.cpp:179-184 | for one b it agrees exactly when g^b has equal powers at the exponent and at the reduced exponent |
| SrpAgreement.AgreesForEveryB | crypto/ossl/osslmathimpl.cpp:179-184 | for every b of the server it agrees exactly when g^e = g^(e mod N) modulo N with e = a + u*x, which the client can evaluate |
| SrpAgreement.ReductionBreaksAgreement | crypto/ossl/osslmathimpl.cpp:179-180 | for every odd N >= 3, g = N - 1 and b = 1 it disagrees wherever (a + u*x) / N is odd |
| SrpAgreement.ExponentFits | crypto/ossl/osslmathimpl.cpp:179-180 | u, x < 2^160, a < 2^256 and N >= 2^1023 keep a + u*x below N |
| SrpSpec.PaddingsAgree | crypto/ossl/osslmathimpl.cpp:124-138 | client and server hash the same string to u exactly when A is at least as long as N |
| SrpSpec.PaddingIsRfc | crypto/ossl/osslmathimpl.cpp:284-298 | the server's string is PAD(A) followed by PAD(B) exactly when B is at least as long as N |
| SrpSpec.PadLayout | crypto/ossl/osslmathimpl.cpp:46-55 | PAD: zeros in front, up to the length |
| SrpSpec.ClientULayout | crypto/ossl/osslmathimpl.cpp:124-138 | every byte of the string the client hashes to u, for A and B of any length |
| SrpSpec.ServerULayout | crypto/ossl/osslmathimpl.cpp:284-298 | every byte of the server's |
| SrpSpec.HalvesFit | crypto/ossl/osslmathimpl.cpp:476-489 | for every S the copy loops stay inside the half-length buffer |
| SrpSpec.InterleaveIsRfc | crypto/ossl/osslmathimpl.cpp:462-505 | on the bytes of a number it is SHA_Interleave of RFC 2945, and it throws exactly below 256 |
| SrpSpec.InterleaveBytes | crypto/ossl/osslmathimpl.cpp:462-505 | every byte of the interleaved key: by turns from the hash of the bytes at even and at odd places |
| SrpSpec.ClientProofHashes | crypto/ossl/osslmathimpl.cpp:363-411 | the string that is hashed to M1, by places: H(N) xor H(g), H(username), salt, A, B, K |
| SrpSpec.ServerProofHashes | crypto/ossl/osslmathimpl.cpp:202-208 | the string that is hashed to M2, by places: A, M1, K |
| SrpSpec.PrivateKeyHashes | crypto/ossl/osslmathimpl.cpp:150-165 | the strings that are hashed to x, by places: salt and the hash of user name, colon and password |
| SrpSpec.ServerAnswers | crypto/ossl/osslmathimpl.cpp:239-360 | for any A and verificator, honest or not: what the server refuses, and its B and secret in powers of the inputs |
| SrpSpec.ClientAnswers | crypto/ossl/osslmathimpl.cpp:100-237 | for any B: what the client refuses, and its secret in powers of the inputs |
| SrpSpec.ProofsOfSecret | crypto/ossl/osslmathimpl.cpp:186-208 | when a secret leads to these proofs, with and without interleaving |
| SrpSpec.HandshakeCompletes | crypto/dsrp/srpverificator.cpp:42-50 | right password, A as long as N, u not 0, exponent below N: if the server's half goes through so does the client's, with equal M1, M2 and K, and authenticate accepts |
| SrpSpec.Sha1HandshakeCompletes | shell/protoconst.hpp:4 | with SHA-1, 32 random bytes and a 1024-bit N the bound on the exponent is derived |
| SrpSpec.LoginSucceeds | crypto/apps/qtest.cpp:48-76 | under the same hypotheses the whole exchange, with M2 back to the client, ends with the same key on both sides |
| SrpSpec.HandshakeStandsOnAgreement | crypto/dsrp/srpverificator.cpp:42-50 | for every exponent and an A of any length, unless the hash collides on the two keys or proofs: authenticate accepts the client exactly when g^b has the same value at the two sides' exponents, each with its own u |
| SrpSpec.RightPasswordRefused | crypto/dsrp/srpverificator.cpp:47 | for g = N - 1 and odd b the right password is refused exactly when the client's reduced exponent and the server's differ in parity, as they do for equal u, odd N and an odd quotient |
| SrpSpec.ParametersAreConstructed | crypto/ossl/osslmathimpl.cpp:30-63 | N, g and k of the two refused logins are those that the constructor computes |
| SrpSpec.RefusedLogin | crypto/dsrp/srpverificator.cpp:47 | a right password refused because the exponent was reduced, value by value |
| SrpSpec.RefusedShortLogin | crypto/dsrp/srpverificator.cpp:47 | a right password refused because A is one byte shorter than N, with no exponent reduced |
| SrpSpec.ProveSucceeds | crypto/ossl/osslmathimpl.cpp:186-208 | deriving K and the proofs fails only for an empty B or a one-byte secret to interleave |
| SrpSpec.ServerGoesThrough | crypto/ossl/osslmathimpl.cpp:267-337 | the server's half goes through exactly when A, v and B are not 0 and the secret can be interleaved |
| Srp.ClientTemporaries | crypto/ossl/osslmathimpl.cpp:179-184 | the BIGNUM temporaries, reduced at every step, come to the formula |
| Srp.ServerTemporaries | crypto/ossl/osslmathimpl.cpp:274-310 | the same for B and S of the server |
| Srp.OsslMathImpl.constructor | crypto/ossl/osslmathimpl.cpp:30-63 | k = H(N, PAD(g)) as RFC 5054 has it for g no longer than N; beyond that N is cut |
| Srp.OsslMathImpl.CalculateA | crypto/ossl/osslmathimpl.cpp:74-94 | A = g^a mod N, with the errors in the source's order |
| Srp.OsslMathImpl.ClientChallange | crypto/ossl/osslmathimpl.cpp:100-237 | u, x, S, K, M1, M2 of the client, or the exception it throws |
| Srp.OsslMathImpl.ServerChallange | crypto/ossl/osslmathimpl.cpp:239-360 | B, u, S, K, M1, M2 of the server, or the exception it throws |
| Srp.OsslMathImpl.CalculateM1 | crypto/ossl/osslmathimpl.cpp:363-411 | M1 as the hash of its six parts |
| Srp.OsslMathImpl.CalculateVerificator | crypto/ossl/osslmathimpl.cpp:421-460 | v = g^x mod N with x from salt, user name and password; with N = 0, which it does not look for, whatever the failed BN_mod_exp leaves |
| Srp.OsslMathImpl.CopyAlternate | crypto/ossl/osslmathimpl.cpp:480-489 | every second byte lands at the front of the buffer, the rest of it stays |
| Srp.OsslMathImpl.InterleaveS | crypto/ossl/osslmathimpl.cpp:462-505 | the interleaved key, leading zeros, odd byte and errors included |
| Srp.SrpClientAuthenticator.GetSessionKey | crypto/dsrp/srpclientauthenticator.cpp:28-34 | hands out the key exactly for the calculated, non-empty M2 |
| Srp.SrpClient.GetAuthenticator | crypto/dsrp/srpclient.cpp:18-23 | keeps the secrets and the A that belongs to them |
| Srp.SrpClient.GetM1 | crypto/dsrp/srpclient.cpp:35-42 | returns M1 and stores M2 and K, or throws and stores nothing |
| Srp.SrpServer.UserAdd | crypto/dsrp/memorylookup.cpp:24-28 | a user already there is kept |
| Srp.SrpServer.GetVerificator | crypto/dsrp/srpserver.cpp:20-28 | an unknown user throws; otherwise the server's half for the stored salt and verificator |
| Srp.AuthenticateClient | crypto/dsrp/srpverificator.cpp:42-50 | hands out M2 and K exactly for a non-empty M1 equal to the calculated one |
| Srp.LogIn | crypto/apps/qtest.cpp:42-76 | registration and login through the objects of both sides come to the function that the theorems speak about, errors included |
| Srp.RefusedLogins | crypto/apps/qtest.cpp:42-76 | both refused logins through the methods of both sides, on objects that the constructor made |
| StopWait.ParseFrame | shell/stopwaittx.cpp:61-70 | a frame parses back to its number and payload |
| Octets.FixedDigits | utils/cdatapack.cpp:56-64 | numbers on the wire are big-endian: every byte is the digit of its place |
| StopWait.FrameLayout | shell/stopwaittx.cpp:61-69 | a frame on the wire: 0x53, the number in eight bytes, the payload |
| StopWait.Exchange | shell/stopwaittx.cpp:88-131 | a call sends at most m_repetitions times |
| StopWait.StopWaitTx.AwaitDatagram | shell/stopwaittx.cpp:19-54 | true exactly for a capsule from the server's address and port to the client's port, and then with its data |
| StopWait.StopWaitTx.SendReliableMessage | shell/stopwaittx.cpp:57-132 | the retry loop, turn by turn: the same frame each time, the number advanced exactly on success; true exactly with the first capsule from the server that carries the number, whose payload is returned; false for a refused send, an answer that does not parse, or when all turns are used up |
| StopWait.StopWaitRx.IncommingCapsule | shell/stopwaitrx.cpp:18-94 | drops what is not from the client or does not parse, repeats the last capsule for another number, hands the expected request to the handler, and keeps and sends its answer and advances only if there is one |
| StopWaitProtocol.AnswerIsOurs | shell/stopwaittx.cpp:112-128 | in every reachable state the client accepts only what was processed under its number and never meets a malformed response |
| StopWaitProtocol.DeliveryCases | shell/stopwaitrx.cpp:52-87 | what the server does with any request the network may still deliver |
| StopWaitProtocol.StepKeeps | shell/stopwaitrx.cpp:48-87 | every step of client, server and network keeps the invariant |
| StopWaitProtocol.ExactlyOnceInOrder | shell/stopwaittx.cpp:57-132 | in every run below 2^64 requests with a client that stops after a failure: processed requests are a prefix of the issued ones in order and without repeats, the i-th true return hands the i-th request the response processed for it, and the responses are those of the handler run on its calls from the start |
| StopWaitProtocol.EveryRunIsConsistent | shell/stopwaitrx.cpp:48-87 | for every client, also one that goes on after failures: the handler is only called with requests issued under the number it is at, one request is processed per number, every return has the response processed under its number, and it answers its own request if only that request is issued again after a failure |
| StopWaitProtocol.OwnAnswersExactly | shell/clientsession.cpp:149-150 | every true return answers the request of its own call in every run exactly when nothing but the same request is issued after a failure, or no request is ever sent, or the handler answers none of any sequence of requests |
| StopWaitProtocol.CallIsARun | shell/stopwaittx.cpp:88-131 | a call of sendReliableMessage, with any steps of the server and the network in between, is a run of the protocol with the same outcome, number and return |
| StopWaitProtocol.CallSucceeds | shell/stopwaittx.cpp:88-131 | from every reachable state in which the client is idle and the server answers, a call that gets through once returns the server's answer |
| StopWaitProtocol.ResumingTakesStaleAnswers | shell/stopwaittx.cpp:105-131 | for every handler, every request it answers after any declined ones, every next request and every number of repetitions, a run in which the next request is given the answer to that one and is never processed |
| SessionSpec.ParseMessageA | shell/messageconstructor.cpp:50-91 | user names without a zero byte come back from an A message |
| SessionSpec.ParseMessageB | shell/messageconstructor.cpp:267-295 | M1 comes back from a B message |
| SessionSpec.ParseMessageP | shell/messageconstructor.cpp:141-215 | salt and B come back from a P message, and nothing from an error |
| SessionSpec.ParseMessageQ | shell/messageconstructor.cpp:332-377 | M2 comes back from a Q message, and nothing from an error |
| SessionSpec.ParseAExactly | shell/messageconstructor.cpp:68-91 | an A message is read exactly when it is 0x45, 0x41, a name without a zero byte, a zero byte and A, 67 bytes at least |
| SessionSpec.ParseBExactly | shell/messageconstructor.cpp:282-295 | a B message likewise |
| SessionSpec.ParseCExactly | shell/messageconstructor.cpp:459-475 | a C message likewise |
| SessionSpec.ParsePExactly | shell/messageconstructor.cpp:141-215 | a P message, as it is built and as it is read |
| SessionSpec.ParseQExactly | shell/messageconstructor.cpp:341-377 | a Q message, as it is built and as it is read |
| SessionSpec.AnswerInZero | shell/session.cpp:68-126 | the answer to every first message that parses, in literal bytes, and the state after it |
| SessionSpec.AnswerInAlpha | shell/session.cpp:127-184 | the answer to every second message and the state after it |
| SessionSpec.AnswerInBeta | shell/session.cpp:186-225 | an encrypted request is answered exactly when it is a C message, both ciphers are there or are made from the derived keys, each from its own, and the application answers |
| SessionSpec.CiphersAreDerived | shell/session.cpp:333-373 | over every sequence of datagrams the two ciphers have the two derived keys of the session key, not exchanged |
| SessionSpec.ProcessKeepsInv | shell/session.cpp:32-232 | both ciphers or none, and only in BETA, where the key is that of the verificator; no key before |
| SessionSpec.FailureClears | shell/session.cpp:313-331 | every false return leaves ZERO with user, A, key and ciphers cleared |
| SessionSpec.MalformedFirstMessage | shell/session.cpp:52-91 | an unparsable first message is answered as an unknown user, or as an SRP error if a user has the empty name, in literal bytes |
| SessionSpec.TwoStepsToBeta | shell/session.cpp:47-184 | from ZERO two datagrams reach BETA exactly when they are a login, and the key is then the verificator's |
| SessionSpec.BetaIsEarned | shell/session.cpp:148-184 | over every sequence of datagrams BETA is reached only by authenticating against the verificator made in the latest ZERO step, by the datagram right after it |
| SessionSpec.RightPasswordLogsIn | shell/session.cpp:47-184 | a registered user with the right password reaches BETA, and both ends hold the same key |
| ShellLogin.CallsFollow | shell/session.cpp:32-184 | whatever calls the server hands it, the session meets the two requests as they were issued, and is thrown back only by a second request that it declines |
| ShellLogin.AuthenticatedOverNetwork | shell/clientsession.cpp:26-130 | over a network that loses, repeats and reorders: a client that gets the M2 it expects knows that the server is in BETA for its user, has authenticated its M1, and holds a key with the same M2 |
| ShellLogin.RightPasswordOverNetwork | shell/clientsession.cpp:26-130 | with the right password two true returns suffice: the server is in BETA with the client's key and the second response carries the M2 the client expects |
| Session.ParseAMessage | shell/messageconstructor.cpp:68-91 | the scan for the zero byte splits the message |
| Session.Session.ResetState | shell/session.cpp:313-331 | clears everything but the verificator |
| Session.Session.InitCrypto | shell/session.cpp:333-373 | sets both ciphers, each with its own derived key, or throws, possibly after the first |
| Session.Session.InZeroMode | shell/session.cpp:47-126 | the ZERO branch, fall-through included |
| Session.Session.InAlphaMode | shell/session.cpp:127-184 | the ALPHA branch |
| Session.Session.InBetaMode | shell/session.cpp:186-225 | the BETA branch with its catch-all |
| Session.Session.ProcessDatagram | shell/session.cpp:32-232 | the whole switch is the state machine |
| ProducerConsumer.SleepKeeps | utils/cproducerconsumer.hpp:84-86 | going to sleep keeps the invariant, because the condition was seen under the same lock |
| ProducerConsumer.ChangeKeeps | utils/cproducerconsumer.hpp:91-93 | so does a push or a pop, whose notification is still owed |
| ProducerConsumer.NotifyKeeps | utils/cproducerconsumer.hpp:95 | and notify_all, which pays it |
| ProducerConsumer.NoLostWakeups | utils/cproducerconsumer.hpp:57-168 | in every state of every interleaving a thread asleep un-notified has its condition, full for a push and empty for a pop, or the holder of the lock is about to notify it |
| ProducerConsumer.NeverBothAsleep | utils/cproducerconsumer.hpp:57-168 | with capacity at least 1 a push and a pop never both sleep un-notified |
| ProducerConsumer.ItemsAreConserved | utils/cproducerconsumer.hpp:57-168 | popped items followed by the contents are the pushed items in lock order; calls that return -1 or -2 changed nothing |
| ProducerConsumer.CodesMean | utils/cproducerconsumer.hpp:57-168 | when a call returns -2, -1 or 0, as an if-and-only-if, and that only a call on its way to 0 changes the queue |
| ProducerConsumer.NotifyMoves | utils/cproducerconsumer.hpp:95 | a notification wakes exactly those asleep in calls of the other kind, and nothing else moves another thread |
| ProducerConsumer.ReadyCanAct | utils/cproducerconsumer.hpp:124-127 | front() is never called on an empty queue |
| ProducerConsumer.CapacityIsKept | utils/cproducerconsumer.hpp:39-43 | the size stays within the capacity in every run exactly when the capacity is below 2^32 |
| Portmap.GrantedIsFirst | node/cportmap.cpp:74-108 | 0 exactly when 40000..65534 are all registered, otherwise the first free port in cyclic order from the cursor |
| Portmap.CPortmap.RegisterPort | node/cportmap.cpp:22-31 | binds a free port and leaves a bound one |
| Portmap.CPortmap.UnregisterPort | node/cportmap.cpp:33-36 | removes exactly that binding |
| Portmap.CPortmap.FreePorts | node/cportmap.cpp:47-72 | removes exactly the bindings of one queue: a port stays exactly when it was bound to another |
| Portmap.CPortmap.RegisterFirst | node/cportmap.cpp:79-83 | the scanning loop stops at the first free port and binds it |
| Portmap.CPortmap.GetEphemeralPort | node/cportmap.cpp:74-108 | grants the first free port in cyclic order from the cursor, adds that binding only and moves the cursor behind it; 0 and no change when 40000..65534 are all registered |
| Portmap.GrantPasses | node/cportmap.cpp:79-97 | a grant passes registered ports only |
| Portmap.GrantsAreFarApart | node/cportmap.cpp:74-108 | over any run, between two grants of the same port every port of the range was registered at some moment |
| Transfers.SteadySuffices | stream/cistreamrw.cpp:15-27 | calls that each move something get any number of bytes through |
| Framing.CIStreamRW.ReadExactNumBytesAppend | stream/cistreamrw.cpp:15-27 | appends exactly the next bytes in whatever pieces, or stops at the first failing read |
| Framing.CIStreamRW.WriteAll | stream/cistreamrw.cpp:30-45 | writes all of it, or a prefix and fails |
| Framing.FrameRoundTrip | stream/clenvalueseparator.cpp:21-59 | a message is read back exactly when its length is below 2^32 |
| Framing.DecodedExactly | stream/clenvalueseparator.cpp:21-47 | what is read is m followed by the rest exactly when the stream is the frame of m followed by the rest |
| Framing.EncodedLayout | stream/clenvalueseparator.cpp:49-59 | a frame byte by byte: the length in four bytes, the highest first, and the message |
| Framing.CLenValueSeparator.WriteMessage | stream/clenvalueseparator.cpp:49-59 | appends one frame |
| Framing.CLenValueSeparator.ReadMessage | stream/clenvalueseparator.cpp:21-47 | takes one frame off the stream; on a steady stream it succeeds exactly when a whole one is there; when it fails it may have lost part of one, never more than what it read |
| Framing.StreamRoundTrip | stream/clenvalueseparator.cpp:21-59 | any sequence of messages comes back from the stream, with what follows untouched |
| Framing.FramesAreInjective | stream/clenvalueseparator.cpp:49-59 | different sequences of messages give different streams |
| Framing.PrefixRoundTrip | rpc/cirpcchannel.cpp:12-36 | function id and arguments come back from a datagram |
| Framing.UnprefixedExactly | rpc/cirpcchannel.cpp:12-36 | a datagram byte by byte: the id in two bytes and the arguments, and exactly that is read back |
| Framing.StreamRpcChannel.SendData | rpc/cirpcchannel.cpp:12-23 | refuses ids above 65000 without writing, otherwise appends one frame |
| Framing.StreamRpcChannel.RecvData | rpc/cirpcchannel.cpp:25-37 | takes one datagram off the stream |
| Framing.ChannelRoundTrip | rpc/cirpcchannel.cpp:12-36 | any sequence of sendable datagrams comes back |
| Framing.SendAll | rpc/crpcinvoker.cpp:17-27 | sending datagrams one after another writes exactly their frames, and a steady stream takes them all |
| Framing.ReceiveAll | rpc/crpcexecutor.cpp:17-36 | reading until all are there gives the datagrams sent, for every pattern of partial reads |
| Framing.SendAndReceive | rpc/cirpcchannel.cpp:12-36 | both ends of a connection joined: the datagrams arrive as sent for every pattern of partial writes and reads |
| Rpc.CRpcExecutor.RegisterFunction | rpc/crpcexecutor.cpp:38-44 | an id already there is kept |
| Rpc.CRpcExecutor.RegisterSyncFunction | rpc/crpcexecutor.cpp:46-52 | likewise, without looking at the one-way functions |
| Rpc.CRpcExecutor.ExecuteFunction | rpc/crpcexecutor.cpp:54-90 | one-way functions first, a reply only from a sync function that accepts its arguments and with what it returned, the state it left, and the outcome in every case |
| Rpc.CRpcExecutor.Run | rpc/crpcexecutor.cpp:17-36 | every datagram in turn, whatever became of the one before |
| Rpc.ExecutedOneMore | rpc/crpcexecutor.cpp:17-36 | a run of the executor goes on from the state the last request left |
| Rpc.RunIsOneByOne | rpc/crpcexecutor.cpp:17-36 | the states and own replies of the pairing theorems are those of the executor's loop |
| Rpc.ShadowedFunctionsAreSilent | rpc/crpcexecutor.cpp:17-85 | over a whole run of the executor no reply names an id registered one-way, and if the sync functions accept there is one for every other sync request, in order |
| Rpc.CRpcInvoker.RegisterFunction | rpc/crpcinvoker.cpp:54-64 | keeps the two kinds of ids apart |
| Rpc.CRpcInvoker.RegisterSyncFunction | rpc/crpcinvoker.cpp:66-76 | keeps the two kinds of ids apart |
| Rpc.ServeKeeps | rpc/crpcexecutor.cpp:54-85 | executing the next request keeps the replies genuine, in order and complete |
| Rpc.ReceiveKeeps | rpc/crpcinvoker.cpp:46-51 | so does reading the next reply, whichever call it belongs to |
| Rpc.PairedExactly | rpc/crpcinvoker.cpp:17-52 | in every interleaving with time-outs between datagrams, every reply read is the one to its own call exactly when no answered call went without its reply before a later call read one; what was read is in any case the whole reply to some call |
| Rpc.AlwaysPairedExactly | rpc/crpcinvoker.cpp:29-52 | calls in a given order are paired in every such run exactly when the executor answers none that comes before a sync call |
| Rpc.RepliesArePaired | rpc/crpcinvoker.cpp:17-52 | if no reply is read after a call that was given up, and one-way calls go to functions that do not answer, every reply is what the call would return if the calls were executed one after another |
| Rpc.LateReplyIsMistaken | rpc/crpcinvoker.cpp:46-52 | over a channel that times out, for all handlers, every first call the executor answers and every second call: a run in which the first is given up and the second gets its reply |
| Rpc.PatientPairedExactly | comm/streamrpcchannel.cpp:18-22 | in a run without time-outs, as the shipped channel has it, replies are paired exactly when no answered one-way call comes before a call that read one |
| Rpc.AlwaysPairedInTimeExactly | comm/streamrpcchannel.cpp:18-22 | over such a channel calls in a given order are paired in every run exactly when no answered one-way call precedes a sync call, unless an earlier sync call waits for ever |
| LineBuffer.TooLongMeansNoLineFeed | cppl/bufferprocessor.cpp:53-59 | SEGMENT_TOO_LONG exactly when the next 1024 bytes hold no line feed |
| LineBuffer.OutcomeMeans | cppl/bufferprocessor.cpp:39-66 | all four outcomes, by whether the first 1024 bytes and those for which there is room hold a line feed |
| LineBuffer.DelimiterIsIgnored | cppl/bufferprocessor.cpp:39-51 | the line that is cut is the segment another delimiter asks for only if that is the line feed |
| LineBuffer.LinesPartition | cppl/bufferprocessor.cpp:39-66 | the lines of a byte stream end in their only line feed and nothing is lost between them |
| LineBuffer.ExtractFront | cppl/helper.cpp:22-31 | moves the first bytes out and shifts the rest down in place |
| LineBuffer.BufferProcessor.FillBuffer | cppl/bufferprocessor.cpp:105-113 | received bytes go to the end of the buffer; none is lost |
| LineBuffer.BufferProcessor.ExtractBuffer | cppl/bufferprocessor.cpp:91-98 | delivered bytes followed by the buffer are the old buffer; too small a room changes nothing |
| LineBuffer.BufferProcessor.ReadDelimeter | cppl/bufferprocessor.cpp:39-66 | outcome and line depend on the bytes pending alone; the line is the segment asked for exactly when the delimiter is a line feed; on failure nothing is lost |
| LineBuffer.BufferProcessor.ReadLines | cppl/bufferprocessor.cpp:39-66 | reads one after another deliver the lines of the byte stream however it arrives, and leave the rest of it |
| LineBuffer.BufferProcessor.ReadLine | cppl/bufferprocessor.cpp:68-89 | takes one line off; it is refused exactly when it holds a control character; on an undisturbed connection it ends otherwise only as the bytes pending say |
| LineBuffer.BufferProcessor.ReadSome | cppl/bufferprocessor.cpp:24-37 | delivers the next bytes; at the end of the stream exactly when the buffer fills the room |

## Left out

- AES: the VIA ACE code, the `FAST_BUFFER_OPERATIONS` word paths, big-endian byte order, single-table and table-free rounds and the dynamic tables of `aes_init` are other compilations of the same functions.
- AES: the unrolled macro sequences of the key schedules are loops over the same steps, and the three feedback routines, which differ in one byte statement, are one method over the mode.
- AES: `aes_cbc_encrypt`, `aes_cbc_decrypt` and `aes_ecb_decrypt` would add direct consequences of `DecryptUndoesEncrypt`.
- AES: `aes_custom_inc` (crypto/drel/aescounter.cpp:55-62) advances its pointer and not the counter, so it is no instance of a counter step worth stating; `aes_ctr_crypt` is proved for every step function.
- AesModes.Crypt: message lengths are natural numbers; the source's are C ints.
- SRP: OpenSSL's BIGNUM routines are integer arithmetic, SHA and random bytes are any function and any bytes; nothing is said about how hard a key is to guess, nor about the primality of N.
- Srp.OsslMathImpl.constructor: g is taken no longer than twice N, since beyond that the resize wraps and throws; the source's comment assumes it shorter than N.
- Srp.OsslMathImpl.CalculateVerificator: what BN_mod_exp leaves in its result for N = 0 is OpenSSL's affair and a parameter here.
- Srp.OsslMathImpl.InterleaveS: an all-zero S of odd length steps an iterator past the end, which C++ leaves undefined; the model goes on with nothing to copy. A number's bytes never start with zero.
- Session: `enc_parse_A_message` reads one byte past the end of a message without a zero byte, which C++ leaves undefined; the model returns the error.
- ShellLogin: both theorems are about a client that has made its two login calls and issued nothing else; what the encrypted requests after them do is left to the application function.
- Session: application requests, key derivation and the datagram ciphers are any functions, which may fail or throw.
- StopWait: capsules are their source, ports and data; packing them, addresses and the node connector are not part of this model. Time-outs are steps that may happen.
- StopWaitProtocol: numbers wrap at 2^64 and the theorems stop there; the frame of an exchange 2^64 earlier would carry the same number.
- ProducerConsumer: the methods are steps of a transition system and not methods of a class, since other threads run between them; `m_rwmut` is only ever taken inside the lock and adds no step. Waiting times are steps that may happen.
- Portmap: the class has no lock and is modelled sequentially; queues are values compared for equality.
- Framing and LineBuffer: sockets and pipes deliver pieces of sizes fixed beforehand but arbitrary; a failing read delivers nothing and leaves its count at 0, where the source may leave it unset.
- Rpc.PairedExactly: a time-out in the middle of a datagram is not a step of the model; the bytes read until then are lost (`stream/clenvalueseparator.cpp:21-47`), the next read starts inside the datagram, and what a call then gets need not be a reply. No channel of the repository times out.
- Rpc.LateReplyIsMistaken: the run needs a channel that times out, and none of the repository does; it shows what `CRpcInvoker` would do over one.
- Rpc: handlers are functions of their state and arguments; packing arguments, parsing responses and thread termination are not part of this model.
- Node routing, shell commands, configuration, password files, logging and fixed-layout codecs would only add easy members.
