# Router-card daemons: hashing, bridging, firmware updates

A Dafny 4.11 model of the three places in the repository where the logic is more than plumbing.

* **Streaming SHA-256** (`captived/src/picosha2.hpp`). `Padding.dfy` and `Fips180.dfy` are the standard:
  functions over whole messages and 32-bit words. `LogicalFunctions.dfy` says what its functions do to
  single bits, `WorkingVariables.dfy` describes its compression function a second time, as two sequences of
  words. `Compression.dfy` is `hash256_block` on the 64-bit `word_t` of an LP64 machine; `LengthCounter.dfy`
  the byte counter kept as four base-65536 digits; `Hasher.dfy` the class `hash256_one_by_one` and the two
  drivers; `Streaming.dfy` the argument that connects them, which holds for every compression function;
  `RoundConstants.dfy` checks the tables against their definition (fractional parts of roots of the first
  primes, which `FirstPrimes.dfy` proves to be those) rather than against a copy; `HexOutput.dfy` is
  `output_hex` on a formatted stream. `Bits.dfy` defines the bitwise operators on natural numbers;
  complement, left shift and addition carry their 64-bit modulus explicitly.
* **The bridge** (`xbridge/src/xbridge.c`). `InternetChecksum.dfy` is `checksum`, with its 32-bit accumulator,
  against the end-around-carry addition of RFC 1071. `Icmpv6.dfy` defines the checksum of RFC 4443 section
  2.3 over the pseudo-header of RFC 8200 section 8.1 in network order and compares the code's two-part
  verification with it. `Solicitation.dfy` is `isNeighborSolicitation`, `Advertisement.dfy` the packet built by
  `sendNeighborAdvert`, `Bridge.dfy` `sendPacket`, `callback` and whole runs of them, `AdvertTimer.dfy` the
  timer of the main loop, `MainLoop.dfy` both together. The host is little-endian, as the code assumes.
* **Firmware updates** (`captived/src/firmware_manager.*`, `captived/src/rest/firmware*.cpp`).
  `FirmwareManager.dfy` holds the classes, with the answers of the operating system as parameters;
  `UpdateSystem.dfy` puts them in a transition system with the mender child, the boot variables, SIGCHLD
  and reboot, and proves what holds in every reachable state.

Objects that the code updates in place are classes whose methods are tied to functions on their state; the
results over several calls are lemmas about those functions. `dafny verify dfyconfig.toml` checks everything.

## What the code does not do

These come out of the proofs and are stated as lemmas.

* The payload length of a solicitation is compared in the wrong byte order, so correct solicitations whose
  length has a zero low octet and a high octet below 24 are missed, for example one with a nonce option that
  brings the payload to 256 octets (`WellFormedAcceptedIff`, `LongSolicitationMissed`).
* The checksum is exact up to 131074 octets, and with one octet more it can be wrong (`ChecksumExact`,
  `LimitIsSharp`); for longer buffers `ChecksumExactIff` gives the condition.
* Everything captured on enf0 fits behind the header in the static buffer exactly when the capture length is
  at most 8178; the default is 8192 (`CaptureFitsIff`).
* When `event_add` fails after a successful fork, put answers with an error but no further install can start
  before a reboot (`FailedPut`, `LostEventBlocks`).
* The two boot variables are read by two commands. Two installs can overlap if and only if mender sets the
  variables within the reading of a commit, the old `bootcount` was not 0, and the commit command succeeds
  (`ExclusionExactly`); a run of three steps from `bootcount` 1 gets there (`OverlapIsReachable`).

## Model

| member | source | states |
|---|---|---|
| Compression.ChAgrees | captived/src/picosha2.hpp:78-81 | although `~x` sets the 32 high bits, `ch` on 32-bit words is Ch of FIPS 180-4 section 4.1.2 and fits in 32 bits |
| Compression.MajAgrees | captived/src/picosha2.hpp:83-86 | `maj` is Maj of section 4.1.2 and fits in 32 bits |
| Compression.RotrAgrees | captived/src/picosha2.hpp:88-92 | the masked 64-bit shifts are the 32-bit rotation, for every amount below 32 |
| Compression.BigSigmasAgree | captived/src/picosha2.hpp:94-102 | `bsig0`, `bsig1` are the standard's and fit in 32 bits |
| Compression.SmallSigmasAgree | captived/src/picosha2.hpp:104-118 | `ssig0`, `ssig1` are the standard's and fit in 32 bits |
| Compression.SumsDoNotOverflow | captived/src/picosha2.hpp:147-157 | the unmasked sums equal the exact sums, below 5 * 2^32 and 2 * 2^32; nothing reaches 2^64 |
| Compression.RoundAgrees | captived/src/picosha2.hpp:147-158 | masking only `e` and `a` makes a round equal to the standard's round on 32-bit words |
| Compression.LoadWordIsBigEndian | captived/src/picosha2.hpp:127-132 | shifts and `\|` assemble the big-endian value of four octets |
| Compression.ScheduleAgrees | captived/src/picosha2.hpp:133-136 | a schedule word masked once at the end is the next word of section 6.2.2 |
| Compression.PrepareSchedule | captived/src/picosha2.hpp:125-136 | the two loops leave the message schedule of section 6.2.2 in `w` |
| Compression.RunRounds | captived/src/picosha2.hpp:138-158 | the loop over `a`..`h` computes the standard's 64 rounds |
| Compression.AddAndMask | captived/src/picosha2.hpp:159-169 | adding first and masking afterwards is addition modulo 2^32 of every word |
| Compression.HashBlock | captived/src/picosha2.hpp:120-170 | for every block and chaining value the eight digest words become those of FIPS 180-4 section 6.2.2 |
| LogicalFunctions.RotrValue | captived/src/picosha2.hpp:88-92 | the rotation moves the n low bits above the others, as a value below 2^32 |
| LogicalFunctions.RotrAt | captived/src/picosha2.hpp:88-92 | bit i of the rotated word is bit i + n, cyclically |
| LogicalFunctions.ChAt | captived/src/picosha2.hpp:78-81 | bit i of Ch is bit i of y where bit i of x is 1, else of z |
| LogicalFunctions.MajAt | captived/src/picosha2.hpp:83-86 | bit i of Maj is the majority of the three bits |
| LogicalFunctions.BigSigmasAt | captived/src/picosha2.hpp:94-102 | bit i is the parity of the bits 2, 13, 22 places on, and 6, 11, 25 |
| LogicalFunctions.SmallSigmasAt | captived/src/picosha2.hpp:104-118 | the same for 7, 18, 3 and 17, 19, 10, where the last is lost beyond the top |
| WorkingVariables.ScheduleStart | captived/src/picosha2.hpp:127-132 | the first 16 schedule words are the octets of the block, most significant first |
| WorkingVariables.ScheduleBackwards | captived/src/picosha2.hpp:133-136 | each schedule word follows from the 16 after it by subtraction |
| WorkingVariables.ScheduleInjective | captived/src/picosha2.hpp:125-136 | so blocks that share any 16 consecutive schedule words are equal |
| WorkingVariables.RoundsAreSequences | captived/src/picosha2.hpp:138-158 | after n rounds the eight variables are the last four words of the two recurrences |
| WorkingVariables.CompressedWords | captived/src/picosha2.hpp:159-169 | every word of the new hash value is the old one plus one of the last words of a recurrence |
| RoundConstants.RoundConstantsAreCubeRoots | captived/src/picosha2.hpp:56-67 | every entry is the first 32 bits of the fractional part of the cube root of the corresponding prime |
| RoundConstants.InitialHashIsSquareRoots | captived/src/picosha2.hpp:69-76 | every initial word is the first 32 bits of the fractional part of the square root of a prime |
| FirstPrimes.ExactlyThePrimes | captived/src/picosha2.hpp:56-76 | the primes used for both tables are all the primes up to 311, 64 of them, in increasing order |
| LengthCounter.DigitStep | captived/src/picosha2.hpp:274-279 | adding the carry into a digit and passing the excess on leaves digits plus pending carry unchanged in total |
| LengthCounter.AddToDataLength | captived/src/picosha2.hpp:271-283 | despite the early break the digits stay below 65536 and their value advances by n modulo 2^64 |
| LengthCounter.ShiftDigit | captived/src/picosha2.hpp:293-297 | one step of the 3-bit shift: digit and carry hold exactly 8 times the digit plus the incoming carry |
| LengthCounter.ShiftDigits | captived/src/picosha2.hpp:285-298 | the shifted digits, read as octets, are 8 times the counter modulo 2^64 |
| LengthCounter.DigitBytesAreBigEndian | captived/src/picosha2.hpp:300-304 | the digits written from the top, high octet first, are the big-endian value |
| LengthCounter.WriteDataBitLength | captived/src/picosha2.hpp:284-305 | eight octets receive the big-endian bit length, the others are untouched |
| Streaming.AbsorbAppend | captived/src/picosha2.hpp:229-239 | processing a then b is processing a followed by b, from every state |
| Streaming.AbsorbNothing | captived/src/picosha2.hpp:229-239 | an empty chunk changes nothing |
| Streaming.AbsorbAllIsAbsorb | captived/src/picosha2.hpp:229-239 | any list of chunks acts as its concatenation |
| Streaming.StateAfter | captived/src/picosha2.hpp:221-239 | after any input the buffer is its unconsumed tail, shorter than 64, the chain the compression of its whole blocks, the counter its length modulo 2^64 |
| Streaming.ShortTail | captived/src/picosha2.hpp:246-257 | up to 55 remaining octets, one block holds the rest of the padded message |
| Streaming.LongTail | captived/src/picosha2.hpp:246-257 | from 56 on, two blocks do, the second all zeros but for the length |
| Streaming.TailIsEndOfPad | captived/src/picosha2.hpp:241-258 | what is compressed at the end is exactly the rest of the padding of section 5.1.1 |
| Streaming.FinishAfter | captived/src/picosha2.hpp:241-258 | for every message the final chaining value is that of the whole padded message |
| Streaming.ChunksDoNotMatter | captived/src/picosha2.hpp:217-258 | for every compression function and every list of chunks, the final chaining value is that of the padded concatenation |
| Fips180.StreamingDigest | captived/src/picosha2.hpp:217-268 | for every list of chunks the digest is the SHA-256 of the concatenation |
| Padding.PaddingIsMinimal | captived/src/picosha2.hpp:246-256 | the zero bits written are the smallest number section 5.1.1 allows |
| Padding.PadInjective | captived/src/picosha2.hpp:241-258 | messages with bit lengths below 2^64 and equal padded streams are equal |
| WorkingVariables.PaddedMessage | captived/src/picosha2.hpp:241-258 | what is hashed is the message, 0x80, fewer than 64 zeros and the bit length in eight octets |
| Hasher.Hash256OneByOne.constructor | captived/src/picosha2.hpp:219 | a new hasher is in the state of the empty input |
| Hasher.Hash256OneByOne.Init | captived/src/picosha2.hpp:221-227 | so is a hasher after `init`, whatever it held |
| Hasher.Hash256OneByOne.Process | captived/src/picosha2.hpp:229-239 | the state becomes the one of everything fed so far |
| Hasher.Hash256OneByOne.CompressBlocks | captived/src/picosha2.hpp:233-237 | every full block of the buffer is compressed, in order, and no more |
| Hasher.Hash256OneByOne.CompressLastBlock | captived/src/picosha2.hpp:256-257 | the block ends in the bit length, stale octets do not reach the compression |
| Hasher.Hash256OneByOne.Finish | captived/src/picosha2.hpp:241-258 | the chaining words become the final hash value of everything fed |
| Hasher.Hash256OneByOne.GetHashBytes | captived/src/picosha2.hpp:260-268 | as much of the digest as fits is written, most significant octets first; nothing beyond 32 octets changes |
| Hasher.DigestByte | captived/src/picosha2.hpp:262-266 | octet i of word k, taken with a shift, is octet 4k + i of the digest |
| WorkingVariables.DigestOctets | captived/src/picosha2.hpp:260-268 | octets 4k to 4k + 3 of the digest make word k |
| Hasher.Hash256 | captived/src/picosha2.hpp:326-339 | the random-access driver returns the SHA-256 of the range |
| Hasher.FillBuffer | captived/src/picosha2.hpp:353-360 | one pass takes the next octets, as many as fit or remain |
| Hasher.Hash256Buffered | captived/src/picosha2.hpp:341-365 | the input-iterator driver terminates and returns the same digest for every buffer size of at least 1 |
| Hasher.HashChunks | captived/src/picosha2.hpp:217-268 | init, process for each of any chunks, finish and get on a hasher in any state give the SHA-256 of the chunks put together |
| HexOutput.FieldIsPair | captived/src/picosha2.hpp:179-181 | width 2 and fill 0 make every octet exactly two digits |
| HexOutput.FaithfulIff | captived/src/picosha2.hpp:179-181 | they do so exactly on streams that show no base, print in lower case and do not adjust to the left |
| HexOutput.HexRoundTrip | captived/src/picosha2.hpp:174-185 | reading the text back gives the octets |
| HexOutput.Stream.OutputHex | captived/src/picosha2.hpp:174-185 | on a stream in any state the loop appends one field an octet, which with plain flags is that text, and leaves the stream in decimal |
| HexOutput.BytesToHexString | captived/src/picosha2.hpp:187-193 | a stream of its own always gives that text |
| InternetChecksum.FoldStep | xbridge/src/xbridge.c:213-214 | a folding step makes the sum strictly smaller and keeps the one's-complement value |
| InternetChecksum.FoldHalves | xbridge/src/xbridge.c:213-214 | the loop ends with the 16-bit one's-complement value of the sum |
| InternetChecksum.Checksum | xbridge/src/xbridge.c:199-217 | for every buffer the result is the fold of the little-endian word sum modulo 2^32, an odd last octet as a low byte |
| InternetChecksum.ChecksumExactIff | xbridge/src/xbridge.c:199-217 | for every buffer, exactly when the result is the RFC 1071 sum although the accumulator may overflow |
| InternetChecksum.ChecksumExact | xbridge/src/xbridge.c:199-217 | up to 131074 octets it always is |
| InternetChecksum.ChecksumZeroIff | xbridge/src/xbridge.c:199-217 | it is 0 exactly when all octets are 0 |
| InternetChecksum.ChecksumInOctets | xbridge/src/xbridge.c:199-217 | 256 times the result is the sum of the 16-bit numbers in network order, modulo 65535, and it is 0 only for zeros |
| InternetChecksum.LimitIsSharp | xbridge/src/xbridge.c:201-207 | for a buffer of 131075 octets of 0xff the accumulator overflows and the result is wrong |
| InternetChecksum.PartialChecksums | xbridge/src/xbridge.c:254-259 | the checksum of a buffer is the checksum of the checksums of its two parts |
| InternetChecksum.ByteOrderIndependence | xbridge/src/xbridge.c:199-217 | the native sum stored natively is the network-order sum in network order, 0 and 0xffff included |
| InternetChecksum.SwappedBuffer | xbridge/src/xbridge.c:199-217 | RFC 1071 section 2(B): swapping every octet pair swaps the checksum |
| InternetChecksum.WordOrderIndependence | xbridge/src/xbridge.c:199-217 | any permutation of the 16-bit words has the same checksum |
| Icmpv6.PseudoHeaderLayouts | xbridge/src/xbridge.c:242-252 | below 64 KiB the pseudo-header with `htons` in a 32-bit field holds the words of the RFC 8200 layout |
| Icmpv6.VerificationIsFold | xbridge/src/xbridge.c:254-259 | the two-part verification is the sum of pseudo-header and message |
| Icmpv6.RfcChecksumIsNative | xbridge/src/xbridge.c:312-313 | the RFC 4443 checksum in network order is the byte swap of the complemented native sum |
| Icmpv6.VerifiedIff | xbridge/src/xbridge.c:241-259 | the verification gives 0xffff exactly for the RFC 4443 checksum, or for 0xffff where that is 0 |
| Solicitation.VersionMask | xbridge/src/xbridge.c:234 | the masked flow word tests for version 6 in the first octet |
| Solicitation.IsNeighborSolicitation | xbridge/src/xbridge.c:219-263 | the chain of checks decides which packets are accepted, for every captured length; an accepted one is IPv6, ICMPv6, a solicitation with code 0, for fe80::1 |
| Solicitation.WellFormedAcceptedIff | xbridge/src/xbridge.c:226-262 | a correct solicitation is accepted if and only if its payload length has a non-zero low octet or a high octet of at least 24 |
| Solicitation.ShortSolicitationsAccepted | xbridge/src/xbridge.c:226-262 | all correct solicitations with a payload of 24 to 255 octets are accepted |
| Solicitation.LongSolicitationMissed | xbridge/src/xbridge.c:228 | a correct solicitation whose nonce option makes the payload 256 octets is not |
| Solicitation.AcceptedIff | xbridge/src/xbridge.c:226-262 | a packet is accepted if and only if it asks for the gateway, its raw length is at least 24, and it carries the RFC 4443 checksum or its negative zero |
| Solicitation.AcceptedInOctets | xbridge/src/xbridge.c:226-262 | exactly which octets are accepted: the fields by value, the raw length, and a sum of addresses, message, length and 58 that 65535 divides |
| Solicitation.WordCorruption | xbridge/src/xbridge.c:239-259 | a packet that differs from an accepted one in one 16-bit word of addresses or message is accepted if and only if it still asks for the gateway and the word is the same or changed between 0x0000 and 0xffff |
| Solicitation.ByteCorruption | xbridge/src/xbridge.c:239-259 | changing one octet of the addresses or the message makes the packet rejected |
| Solicitation.SingleBitErrorsDetected | xbridge/src/xbridge.c:239-259 | so does flipping one bit |
| Advertisement.FillHeader | xbridge/src/xbridge.c:276-282 | the header fields in memory are those of an IPv6 header with 32 octets of payload, hop limit 255, from fe80::1 |
| Advertisement.FillMessage | xbridge/src/xbridge.c:284-309 | the message is the advertisement of RFC 4861 section 4.4 with flags R and, if asked, S, and the link-layer option |
| Advertisement.SeedingTrick | xbridge/src/xbridge.c:311-313 | seeding the field with the pseudo-header sum and complementing the message sum gives the RFC 4443 checksum |
| Advertisement.StoreChecksum | xbridge/src/xbridge.c:295-313 | the two statements store it in the packet and change nothing else |
| Advertisement.BuildAdvert | xbridge/src/xbridge.c:265-313 | for every destination, MAC and flag the packet is the reference advertisement with the RFC 4443 checksum |
| Advertisement.AdvertVerifies | xbridge/src/xbridge.c:239-259 | every such packet passes the verification applied to received packets |
| Advertisement.AdvertInOctets | xbridge/src/xbridge.c:276-313 | every field of the packet by value, with a sum that 65535 divides and a checksum that is never 0xffff |
| Bridge.Process.SendPacket | xbridge/src/xbridge.c:154-197 | strip sends frames whose octets 12 and 13 are 86 dd without 14 octets and no others, prepend sends the header and this packet alone whatever the static buffer held, pass-through sends the frame |
| Bridge.Process.SendNeighborAdvert | xbridge/src/xbridge.c:265-321 | exactly one advertisement goes to the host, nothing to enf0 |
| Bridge.Process.Callback | xbridge/src/xbridge.c:323-349 | what one captured frame puts on each interface |
| Bridge.Process.HandleAll | xbridge/src/xbridge.c:416-459 | a run puts the outputs of its events on each interface in order |
| Bridge.SecureNetOutput | xbridge/src/xbridge.c:166-177 | for every interleaving enf0 receives exactly the fully captured host frames of type 86 dd that are not accepted solicitations, in order, each once, without 14 octets |
| Bridge.SecureHostOutput | xbridge/src/xbridge.c:179-195 | the host receives exactly the enf0 packets, one advertisement to its source per accepted solicitation and the unsolicited ones, in order, behind `eHeader` |
| Bridge.NoSolicitationLeaks | xbridge/src/xbridge.c:332-344 | no accepted solicitation is ever sent to enf0 |
| Bridge.UnansweredFrame | xbridge/src/xbridge.c:332-348 | in every run a fully captured host frame that is not accepted produces nothing for the host, and is the next frame on enf0 if and only if octets 12 and 13 are 86 dd |
| Bridge.OthersAreForwarded | xbridge/src/xbridge.c:226-237 | so an IPv6 frame that misses one field of a solicitation for fe80::1 is forwarded and not answered |
| Bridge.AnswerInOctets | xbridge/src/xbridge.c:337-344 | the answer goes to octets 22 to 37 of the frame, with the S flag and octets 6 to 11 of `eHeader` as link-layer address |
| Bridge.UnsolicitedInOctets | xbridge/src/xbridge.c:448-455 | the unsolicited one goes to ff02::1 without the S flag |
| Bridge.StripUndoesPrepend | xbridge/src/xbridge.c:166-195 | a packet sent to the host and sent back by it reaches enf0 unchanged unless it is an accepted solicitation |
| Bridge.AdvertIsNotAccepted | xbridge/src/xbridge.c:230 | the bridge does not answer its own advertisements |
| Bridge.PassThrough | xbridge/src/xbridge.c:160-164 | in pass-through mode fully captured frames cross unchanged and nothing is answered, while the timer sends its advertisement, without a header |
| Bridge.CaptureFitsIff | xbridge/src/xbridge.c:156-178 | what is captured on enf0 always fits in the buffer if and only if the capture length is at most 8178, which the default of line 356 is not |
| AdvertTimer.Loop.Turn | xbridge/src/xbridge.c:421-458 | the wait, which ends at the later of now + 1 and the timeout; the send, asked for or due; the new timeout, 600 after the send |
| AdvertTimer.Loop.Run | xbridge/src/xbridge.c:414-459 | timeout and number of sends after a run |
| AdvertTimer.WaitIsExact | xbridge/src/xbridge.c:421-422 | `select` is asked to wait until the later of now + 1 and the timeout |
| AdvertTimer.SendsExactly | xbridge/src/xbridge.c:445-457 | after a send the next one is the first pass with SIGUSR2 or a clock past that send plus 600 |
| AdvertTimer.TimeoutAfterSend | xbridge/src/xbridge.c:457 | after a send the timeout never falls below that send plus 600 |
| AdvertTimer.TimerSendsAreSpaced | xbridge/src/xbridge.c:445-457 | a timer send comes at least 601 seconds after any earlier unsolicited send |
| AdvertTimer.TimerSendsAreFew | xbridge/src/xbridge.c:416-458 | a run of T seconds has at most 1 + T/601 timer sends |
| AdvertTimer.FirstPassSends | xbridge/src/xbridge.c:414-445 | the first pass sends if and only if it is asked to or the clock is past 0 |
| AdvertTimer.NextSend | xbridge/src/xbridge.c:421-457 | if no part of a pass is held up by more than d seconds, the next send comes at most 601 + 2d seconds after the last |
| AdvertTimer.SendsAreMany | xbridge/src/xbridge.c:416-458 | then the sends of a run are on average at most 601 + 3d seconds apart |
| AdvertTimer.SendRate | xbridge/src/xbridge.c:416-458 | without SIGUSR2 the number of sends of a run is bounded on both sides |
| MainLoop.RunRound | xbridge/src/xbridge.c:421-458 | one pass puts on each interface what its frames produce, host side first, and then the advertisement if the timer sends |
| MainLoop.RoundOutputs | xbridge/src/xbridge.c:425-455 | in secure mode a pass puts on enf0 its deliverable host frames in order, and on the host side the answers, then the enf0 packets, then the advertisement if one is due |
| MainLoop.RunOutputs | xbridge/src/xbridge.c:416-459 | and a run the outputs of its passes one after the other |
| MainLoop.RunLoop | xbridge/src/xbridge.c:414-459 | a run of the loop sends, in secure mode, what its frames and its clock say pass by pass, with one advertisement for each send of the timer |
| MainLoop.AdvertsAreSends | xbridge/src/xbridge.c:445-455 | the unsolicited advertisements of a run are as many as the sends of the timer |
| MainLoop.AdvertRate | xbridge/src/xbridge.c:414-459 | so the host gets them at a bounded rate and keeps getting them |
| FirmwareManager.FirmwareManager.constructor | captived/src/firmware_manager.cpp:15-23 | the daemon starts with no download, no event and pid -1 |
| FirmwareManager.FirmwareManager.ReadFirmwareState | captived/src/firmware_manager.cpp:52-78 | which of the five results, exactly, from the two variables and the flag; the flag is cleared when an upgrade is found and never set |
| FirmwareManager.FirmwareManager.StartDownload | captived/src/firmware_manager.cpp:83-151 | a positive result means a child that is waited for, any other that there is none or nobody will wait for it; only the child runs mender, and it exits with its code |
| FirmwareManager.FirmwareManager.Sigchld | captived/src/firmware_manager.cpp:103-142 | a reaped child ends the download and drops the event, anything else changes nothing |
| FirmwareManager.FirmwareResource.PutFirmware | captived/src/rest/firmware.cpp:24-68 | each answer both ways from the inputs and the flag; when the URI is stored; when a child is forked and whether it is waited for |
| FirmwareManager.FirmwareResource.PutCommit | captived/src/rest/firmware_commit.cpp:23-49 | each answer both ways from the inputs and the flag; child and event are never touched |
| FirmwareManager.ReadingTwice | captived/src/firmware_manager.cpp:61-77 | reading the state is idempotent |
| FirmwareManager.FailedPut | captived/src/firmware_manager.cpp:99-148 | a failed put leaves the state normal if and only if the fork failed |
| UpdateSystem.StepKeepsInv | captived/src/firmware_manager.cpp:52-151 | every step but a harmful commit keeps: an unreaped child is the one waited for and shows as downloading or downloaded |
| UpdateSystem.RunKeepsInv | captived/src/firmware_manager.cpp:52-151 | so the invariant holds in every state reached without one, readings torn by mender included |
| UpdateSystem.OneInstallAtATime | captived/src/rest/firmware.cpp:29-59 | in every run without a harmful step at most one install child exists and a fork happens only when every earlier one was reaped |
| UpdateSystem.EventHasChild | captived/src/firmware_manager.cpp:100-147 | in every run whatsoever, a pending event belongs to an unreaped child |
| UpdateSystem.WaitNeverFails | captived/src/firmware_manager.cpp:108-119 | so the branch for an error of `waitid` is never taken |
| UpdateSystem.EffectsInInputs | captived/src/rest/firmware_commit.cpp:33-43 | when a put forks, when a commit takes effect and what is reported, exactly, from the boot variables, the flag and the request |
| UpdateSystem.SigchldIsExact | captived/src/firmware_manager.cpp:121-127 | a SIGCHLD changes nothing while mender lives; any one after its exit reaps it, ends the download and drops the event, and changes nothing else |
| UpdateSystem.LifeCycle | captived/src/firmware_manager.hpp:28-38 | the reported state changes only along normal, downloading, downloaded or back to normal, and uncommitted to normal, each by its own kind of step, torn readings included |
| UpdateSystem.DownloadedUntilReboot | captived/src/rest/firmware_commit.cpp:33-37 | in a run without a harmful step a downloaded image stays downloaded until the reboot |
| UpdateSystem.LostEventBlocks | captived/src/firmware_manager.cpp:144-148 | after a failed `event_add` no install starts until the reboot, in a run without a harmful step |
| UpdateSystem.PutIsPutThenGet | captived/src/rest/firmware.cpp:59-67 | put is the put step of the system followed on success by a reading |
| UpdateSystem.CommitIsCommitThenGet | captived/src/rest/firmware_commit.cpp:39-48 | commit likewise |
| UpdateSystem.HarmfulLetsFork | captived/src/rest/firmware_commit.cpp:26-48 | after a harmful commit every put with a URI forks a second install beside the first |
| UpdateSystem.HarmfulIff | captived/src/firmware_manager.cpp:54-62 | from a sound state a step breaks the invariant, and makes an overlapping fork possible, if and only if it is a harmful commit |
| UpdateSystem.ExclusionExactly | captived/src/firmware_manager.cpp:54-62 | the same along every run: the condition of `OneInstallAtATime` is exact |
| UpdateSystem.ZeroBootcountIsHarmless | captived/src/firmware_manager.cpp:54-66 | a run in which `bootcount` is 0 whenever a child exists has no harmful step |
| UpdateSystem.OverlapIsReachable | captived/src/firmware_manager.cpp:54-62 | install, torn commit, install from `bootcount` 1 ends with two install children |

## Left out

- Hasher.Hash256OneByOne.Finish: a hasher is not followed past `finish`; the code does not clear the buffer there, so further use needs `init`, as in all its drivers.
- Fips180.StreamingDigest: holds for all lengths with the bit length taken modulo 2^64; FIPS 180-4 defines the digest below 2^61 octets only, where the modulus has no effect.
- Hasher.Hash256Buffered: a negative buffer size (the vector constructor throws) and a buffer of size 0 with input left (the loop never advances) are excluded.
- Platforms whose `unsigned long` has 32 bits.
- Bridge.Process.SendPacket: packets from enf0 of more than 8178 octets; the copy into the static buffer has no defined effect in C on them, and `CaptureFitsIff` says when they cannot occur.
- Bridge.Process.Callback: fully captured host frames have at least 14 octets in secure mode, as Ethernet frames do; packets from enf0 as above.
- Bridge.Process.HandleAll: as `Bridge.Process.Callback`, for every frame of the run.
- MainLoop.RunLoop: pcap's limit of nine frames a dispatch is not imposed; the results hold for any number.
- Solicitation.AcceptedIff: payloads below 64 KiB; the pseudo-header of the code keeps only 16 bits of the length.
- RFC 4861 rules that the code does not check, such as the hop limit and option lengths.
- AdvertTimer.Loop.Turn: the signal flag is sampled once per pass, at the check; the statistics output and its clock reading have no effect on the timer. When the flag is set the code skips the clock reading of the check.
- Failures of libpcap when sending: they are logged and ignored, so the model records what was handed over.
- Sockets, `ioctl`, `select`, option parsing, syslog and statistics of xbridge.
- UpdateSystem.OneInstallAtATime: assumes that mender sets both variables together and before it exits, and that the daemon restarts only by reboot.
- Boot variables that are not numbers, on which `std::stoi` throws, and the JSON text of answers and requests.
- The regular-expression parsing in `get_fw_env`; a failing command is an unreadable variable.
- The Wi-Fi configuration file and its restart command, mode switching by symbolic links, the resources that report addresses and versions, the HTTP server and its routing, and the scripts of the USB gadget: each reads or writes a file or runs a command and keeps no state between calls.
