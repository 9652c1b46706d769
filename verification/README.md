# Verified model of the wfx driver and its cryptographic library

The project models three parts of the repository and proves what they are for.

**Multi-precision arithmetic** (`mbedtls/library/bignum.c`). `Bignum.Mpi` is the source's object: a
sign and a vector of limbs, least significant first, grown and rewritten in place by its methods.
`Value()` is the integer it stands for. Every method is proved against integer arithmetic, with any
of its operands the same object where the source allows that. A limb is 32 or 64 bits wide; the
proofs cover both. An allocation may be refused at any time: a contract says what holds when a method
returns `Ok`, and which errors it may return. The files build on each other: `Numbers`, `Limbs`,
`Bits`, `Words` (one word, wrapping), `WordDivision` (two words by one), `Mpi`, `DivisionFacts` and
`Division` (Knuth's Algorithm D), `Gcd`, `Inverse`, `Montgomery`, `ModularPower`, `MpiBytes`.

**The transmit and receive engine** (`data_tx.c`, `queue.c`, `bh.c`, `fwio.c`). `RetryPolicy.PolicyCache`
is the cache of retry policies. `FrameQueues` sorts the queues and picks a frame. `TxEngine` is the
transmit side as a machine: the network stack, the upload work of each interface, holders of the
transmit lock, flushes, the command under the command mutex, the bottom half and the chip take 26
kinds of steps in any order, and any number of interfaces is allowed. `TxAccounting`,
`TxConservation`, `TxPolicies` and `TxSafety` each carry one part of an invariant of every run, and
`TxGuarantees` says what follows. `TxOrder` is about the order in which frames leave and about buffered
multicast, `TxConfirming` about packet numbers, `TxStopping` about the stopping of the network stack,
`TxCaches` about what the machine asks of one cache. `RxHandoff` is the hand-over of message lengths from the
interrupt to the bottom half; there a step is one access to shared state. `Firmware` is the download
ring, with a chip that may read in the middle of a block.

**Transformations that undo each other.** `Ccm` and `SecureLink` (with the in-place decoding of a
message over itself), `Xts`, `Aria`, `Camellia`, `Base64`, `Der`. They work on arrays as the source
does; what ends up in memory is equated with a function of what was there, and lemmas about those
functions give the round trips. Other lemmas say what those functions are, by reading their results back:
the bits of CCM's blocks (`CcmStandard`), the letters base64 spells, XTS blocks with their masks taken
off, the rounds of ARIA and Camellia as their RFCs write them. A block cipher under CCM and XTS is any
function on blocks, which may also report a failure.

## What is proved to go wrong

Some promises do not hold for every input. For each there is a lemma, or a contract, that says exactly
when they do.

* Modular exponentiation of a negative base to an odd exponent answers `N` rather than 0 when `N`
  divides the power (`ModularPower.ResultIsResidue`, `ModularPower.NegativeBaseExample`).
* A quotient stored over the dividend has the wrong sign exactly when the dividend is negative and not
  smaller than the divisor, and then a remainder may be wrong too; over the divisor, exactly when the
  divisor is negative and not larger (`Division.QuotientOverDividend`, `Division.QuotientOverDivisor`).
* With several interfaces, handing a frame back wakes the queues too early exactly when the frame is the
  only user of its slot, its interface has no free slot, and another interface has none either
  (`TxStopping.WokenTooEarly`). A run that gets there exists; it needs frames handed over after the stop
  (`TxStopping.WokenTooEarlyHappens`). If the network stack hands over none while it is told to stop, the
  queues are stopped exactly while some interface has no free slot, for any number of interfaces
  (`TxStopping.StoppedExactly`).
* XTS over its own input loses a partial last block: in place, the result is right exactly when that
  block happens to be the head of the previous block's output (`Xts.InPlaceIsRight`).
* CCM takes associated data of 65280 bytes although the standard has another encoding of the length from
  there on; for every other number of bytes it takes, the encoding is the standard's
  (`CcmStandard.AddStringIsStandard`).
* The base64 decoder's first pass asks for more room than the second one uses exactly when the last
  group is incomplete by more than its padding (`Base64.EstimateIsEnough`, `Base64.EstimateTooLarge`).
* A negative integer is written to DER as its magnitude and therefore read back positive
  (`Der.IntegerRoundTrip`). Lengths are accepted in longer forms than the one that is written
  (`Der.WriterIsShortest`). An object identifier from 2^31 up to 2^32 bytes is copied and then reported
  as an error; the size of a longer one is reduced modulo 2^32 first (`Der.WriteOid`).
* The greatest common divisor with a zero second operand is reported as 0 (`Gcd.GcdMpi`).

## Model

| member | source | states |
|---|---|---|
| Words.MulAddCore | mbedtls/include/mbedtls/bn_mul.h:885-911 | The multiply-accumulate step yields the double word `d + s * b + c`, without losing a carry |
| Bignum.Mpi.Grow | mbedtls/library/bignum.c:120-145 | Growing appends zero limbs and keeps the value; beyond the limit it always fails and changes nothing |
| Bignum.Mpi.Copy | mbedtls/library/bignum.c:192-229 | The copy has the value of the original, also when both are one object |
| Bignum.Mpi.CmpAbs | mbedtls/library/bignum.c:1011-1038 | Comparing limb vectors of any lengths, leading zeros included, is comparing magnitudes |
| Bignum.Mpi.Cmp | mbedtls/library/bignum.c:1043-1077 | Comparing sign and limbs is comparing the integers; the two zeros are equal |
| Bignum.Mpi.CmpInt | mbedtls/library/bignum.c:1179-1191 | The same against a machine integer |
| Bignum.Mpi.BitLen | mbedtls/library/bignum.c:415-429 | The number of bits of the magnitude |
| Bignum.Mpi.Lsb | mbedtls/library/bignum.c:381-392 | The place of the lowest bit that is set: that power of two divides the number and the next does not |
| Bignum.Mpi.ShiftL | mbedtls/library/bignum.c:916-962 | Multiplies by 2^count exactly; the vector has grown to just what is needed |
| Bignum.Mpi.ShiftR | mbedtls/library/bignum.c:967-1006 | Divides by 2^count, rounding down, for every count |
| Bignum.Mpi.AddAbs | mbedtls/library/bignum.c:1196-1252 | Exact sum of magnitudes under every aliasing of the three operands: no carry leaves the grown vector |
| Bignum.Mpi.SubHlp | mbedtls/library/bignum.c:1255-1271 | The borrow loop stops inside the vector and the difference is exact whenever the subtrahend is not larger |
| Bignum.Mpi.SubAbs | mbedtls/library/bignum.c:1276-1317 | Exact difference of magnitudes under every aliasing; a negative result is refused and changes nothing |
| Bignum.Mpi.Add | mbedtls/library/bignum.c:1322-1352 | Exact signed sum under every aliasing |
| Bignum.Mpi.Sub | mbedtls/library/bignum.c:1357-1387 | Exact signed difference under every aliasing |
| Bignum.Mpi.MulHlp | mbedtls/library/bignum.c:1436-1495 | Adds `b` times a row into a window of the accumulator, no carry passing the top of the window, the rest untouched |
| Bignum.Mpi.Mul | mbedtls/library/bignum.c:1500-1535 | Exact signed product under every aliasing |
| WordDivision.DivideDouble | mbedtls/library/bignum.c:1559-1649 | Two limbs by one with half-word steps is exact division with remainder when the quotient fits; otherwise all ones |
| DivisionFacts.TrueDigitPasses | mbedtls/library/bignum.c:1715-1730 | The correction loop never goes below the true quotient digit |
| DivisionFacts.PassingDigitClose | mbedtls/library/bignum.c:1715-1742 | A digit the loop lets through is at most one too big, though the divisor's top limb keeps a zero bit: one add-back is enough |
| Division.SubtractDigit | mbedtls/library/bignum.c:1732-1742 | Subtracting a digit's multiple and adding back at most once leaves a remainder in range |
| Division.DivMpi | mbedtls/library/bignum.c:1654-1767 | What is stored as quotient and remainder under every aliasing of the four objects; failure exactly for a zero divisor or refused memory |
| Division.StoredApart | mbedtls/library/bignum.c:1654-1767 | With the quotient apart from the operands these are the results of division truncated toward zero, for all signs |
| Division.QuotientOverDividend | mbedtls/library/bignum.c:1745-1759 | Over the dividend, when the quotient is right and when the remainder is |
| Division.QuotientOverDivisor | mbedtls/library/bignum.c:1745-1759 | Over the divisor, when the quotient is right; the remainder always is |
| Division.QuotientOverBoth | mbedtls/library/bignum.c:1745-1759 | A number divided by itself over itself gives 1 and 0 |
| Division.DivisionLaw | mbedtls/library/bignum.c:1654-1767 | What those are: `A = Q*B + R`, `abs(R) < abs(B)`, the sign of R is that of A |
| Division.ModMpi | mbedtls/library/bignum.c:1791-1812 | The residue in `[0, B)` for every A, possibly over A, and which error for a negative or zero modulus |
| Gcd.SubtractKeeps | mbedtls/library/bignum.c:2194-2209 | Subtracting and halving odd numbers keeps the common divisors |
| Gcd.GcdMpi | mbedtls/library/bignum.c:2168-2219 | Terminates with the true greatest common divisor of the magnitudes for a non-zero second operand, with any aliasing; 0 for a zero one |
| Inverse.CoefficientsTurnEven | mbedtls/library/bignum.c:2296-2322 | When a coefficient is odd, adding N and subtracting A makes both even: every halving is exact |
| Inverse.InvMod | mbedtls/library/bignum.c:2261-2354 | Terminates; an inverse in `[0, N)` exactly when A and N are coprime and N > 1, otherwise the right error |
| Inverse.InverseUnique | mbedtls/library/bignum.c:2261-2354 | There is only one such inverse |
| Montgomery.MontgInit | mbedtls/library/bignum.c:1876-1890 | The Newton loop yields the word with `mm * N[0] = -1` modulo the limb base for every odd N |
| Montgomery.MontMul | mbedtls/library/bignum.c:1893-1931 | A reduced representative below N of `A * B / R`: the window never overflows, one subtraction is enough, the dummy subtraction stays in bounds |
| Montgomery.MontRed | mbedtls/library/bignum.c:1936-1946 | The same for a factor of one |
| ModularPower.BuildTable | mbedtls/library/bignum.c:2039-2062 | Entry i of the window table is `A^i * R` modulo N |
| ModularPower.ScanExponent | mbedtls/library/bignum.c:2064-2126 | Over the whole run of the window state machine the accumulator is A to the bits consumed outside the pending window, times R |
| ModularPower.ExpMod | mbedtls/library/bignum.c:1951-2163 | Sliding-window exponentiation for every odd N > 0 and E >= 0, a base of any sign and size, possibly overwritten, with or without a cached `R^2`; the error exactly for other N and E |
| ModularPower.ResultIsResidue | mbedtls/library/bignum.c:2146-2150 | The result is `A^E mod N` if and only if the base is not negative, the exponent even, or N does not divide the power; it is congruent always |
| ModularPower.NegativeBaseExample | mbedtls/library/bignum.c:2146-2150 | A negative base with which the result is N instead of 0 |
| MpiBytes.ReadBinary | mbedtls/library/bignum.c:743-863 | Reversing limbs and their bytes in place gives the number of a big-endian string of any length |
| MpiBytes.WriteBinary | mbedtls/library/bignum.c:870-911 | Succeeds exactly when the magnitude fits, then fills the buffer with it and nothing else; otherwise writes nothing |
| MpiBytes.FromBigEndianOf | mbedtls/library/bignum.c:833-911 | Reading what was written gives the number back |
| MpiBytes.BigEndianOf | mbedtls/library/bignum.c:833-911 | Writing what was read gives the string back |
| RetryPolicy.PolicyCache.Get | data_tx.c:105-140 | Taking a slot: found in use, found free, or the oldest free one rewritten; when the stack is told to stop |
| RetryPolicy.PolicyCache.Put | data_tx.c:142-155 | Giving a slot back, and when the stack is woken |
| RetryPolicy.PolicyCache.TakeDirty | data_tx.c:157-181 | One pass of the upload loop takes the first slot the chip has not seen, marks it, and touches no list |
| RetryPolicy.RunSound | data_tx.c:68-155 | Over any run of gets and puts: the lists partition the slots, usage counts the holders and is positive exactly for used slots, non-zero rates are unique, the free list is in order of release, the stop flag is exact |
| RetryPolicy.ObtainGives | data_tx.c:105-140 | The frame gets the rates it asked for, and no slot but a rewritten free one changes its rates |
| RetryPolicy.EvictsLeastRecentlyReleased | data_tx.c:124-133 | After any run, a slot whose rates are replaced is free, was released before all other free ones, and the wanted rates were nowhere |
| FrameQueues.SortQueues | queue.c:239-259 | The insertion by swaps orders all queues by weight, each once |
| FrameQueues.GetFrame | queue.c:239-294 | The frame given up, the queues, counters and permissions left, and the interfaces whose TIM update is scheduled: a frame of a multicast lane if and only if some interface is allowed and some such lane is not empty, then the head of the least loaded one; otherwise that of the least loaded normal lane, or none |
| FrameQueues.ChooseSelects | queue.c:234-294 | So does the machine's choice, in terms of frames in the chip times priority |
| FrameQueues.OneSelection | queue.c:234-294 | There is exactly one such choice for all queues and permissions |
| TxSafety.StepKeepsInvariant | data_tx.c:157-205 | Each of the machine's steps keeps the whole invariant: locks, credits, places of frames, slots, what the chip was told |
| TxSafety.RunKeepsInvariant | data_tx.c:157-205 | So does every run |
| TxSafety.UnlockedMeansKnown | data_tx.c:157-190 | While nobody holds the transmit lock the chip knows every policy in the cache, as a slot it does not know keeps the lock held (unless a flush has timed out) |
| TxGuarantees.PolicyBeforeFrame | data_tx.c:288-305 | In every reachable state in which no flush has timed out, each frame in the chip was sent with the rates the chip holds under its index, and an unlocked cache is mirrored in the chip |
| TxGuarantees.SlotsCountFrames | data_tx.c:68-155 | In every reachable state a slot's count is the number of live frames with its index, it is in use exactly if positive, and its rates are those the frames were submitted with |
| TxGuarantees.EachFrameInOnePlace | data_tx.c:394-428 | Every frame handed over is in exactly one place: queued, in the chip, dropped, or reported once |
| TxGuarantees.CreditsAreFramesInChip | bh.c:146-154 | The buffer counter is the number of unconfirmed frames and commands, never above what the chip has; each queue's counter is its frames in the chip |
| TxGuarantees.FlushEmptiesChip | queue.c:38-60 | A flush that ends in time leaves no frame and no command in the chip |
| TxGuarantees.LockKeepsChipEmpty | queue.c:296-311 | As long as the lock is held no frame reaches an empty chip, over any run |
| TxGuarantees.NoFrameLeftBehind | bh.c:261-281 | With the bottom half asleep and none due, an eligible frame waits only because every credit is taken |
| TxGuarantees.NoCommandLeftBehind | bh.c:261-281 | With the bottom half asleep and none due, a command waits only because every credit is taken, whoever holds the lock |
| TxGuarantees.CommandGoesFirst | bh.c:266-275 | A command is sent before any frame, also while the transmit lock is held |
| TxGuarantees.LockIsAccountedFor | queue.c:24-36 | The lock count is zero exactly when no locker, flush or upload work is under way |
| TxOrder.FirstInFirstOut | queue.c:121-130 | After every run a lane holds the last of the frames ever handed over to it, in the order in which they were |
| TxOrder.LaterWaitsBehind | queue.c:121-130 | If g is handed over after f to the same queue and lane, then as long as f waits, g waits behind it |
| TxOrder.LaterLeavesLater | queue.c:121-130 | So g is not in the chip, dropped or reported before f has left the lane |
| TxOrder.DroppedNewestFirst | queue.c:99-119 | A dropped lane is taken out whole, the newest frame first |
| TxOrder.ReachesChip | queue.c:239-311 | A frame enters the chip only in a step of the bottom half with a credit, no command and no lock, as the head of its lane, and multicast only if some interface is allowed to send it |
| TxOrder.MulticastWaits | queue.c:261-283 | In a run in which no interface is ever allowed to send buffered multicast, none reaches the chip |
| TxOrder.PermissionEnds | queue.c:261-283 | Sending ends a permission exactly when it may choose a frame and no multicast waits anywhere |
| TxOrder.RequeueEndsPermission | data_tx.c:522-527 | A confirmation ends a permission exactly when it has a multicast frame of that interface queued again |
| TxConfirming.PacketParts | data_tx.c:368-373 | Counter, sequence number and access category can be read back from a packet number |
| TxConfirming.NumbersDiffer | data_tx.c:368-373 | Over every run, frames in the chip that are among the last 65536 handed over have different numbers |
| TxConfirming.ConfirmReports | queue.c:154-182 | A confirmation takes the frame it is for out of the chip and reports it if no other pending frame has its number |
| TxConfirming.RightFrameReported | queue.c:154-182 | So in every reachable state whose pending frames are among the last 65536 handed over |
| TxStopping.StoppedExactly | data_tx.c:134-155 | For any number of interfaces, over every run that hands over no frame while stopped, the queues are stopped exactly while some interface has no free slot, and never two have none |
| TxStopping.ExactWhileOneFull | data_tx.c:134-155 | So over every run in which never two interfaces are full at once, whatever is handed over when |
| TxStopping.StoppedOnlyWhileFull | data_tx.c:134-155 | In every reachable state queues are stopped only while some interface has no free slot; with one interface exactly then |
| TxStopping.WokenTooEarly | data_tx.c:142-155 | Handing a frame back keeps the flag exact if and only if it does not free the last-used slot of a full interface, by the count before, while another is full |
| TxStopping.WokenTooEarlyHappens | data_tx.c:142-155 | A reachable state in which the queues run although an interface is full |
| TxCaches.MachineRunsCache | data_tx.c:68-155 | Any run of the machine is, for each interface's cache, the run of that cache alone on the slots its frames take and give back |
| TxCaches.EvictsLeastRecentlyReleased | data_tx.c:124-133 | Hence in the machine too a frame handed over replaces only the free slot released before all other free ones, and only if the wanted rates are nowhere |
| RxHandoff.StepKeepsInvariant | bh.c:178-211 | Each access to shared state keeps the announcement of the next message in exactly one place |
| RxHandoff.NoMessageStranded | bh.c:299-347 | Whenever the chip has a message, an interrupt, its handler, a full register with a completion that will be consumed, or the bottom half leads to it |
| RxHandoff.ReadsExactlyTheNextMessage | bh.c:184-202 | The bottom half asks only for messages that are there, with their length, in order |
| RxHandoff.EverythingIsDelivered | bh.c:178-211 | Left alone the driver stops after a bounded number of steps, in any order, and only when all messages are delivered |
| Firmware.Upload | fwio.c:187-228 | No unread byte is overwritten though the chip reads at any time and the counter read is stale; what it consumes is a prefix of the image, all of it once drained |
| Ccm.CryptTwice | mbedtls/library/ccm.c:266-298 | The counter stream applied twice restores the text |
| Ccm.CountersDistinct | mbedtls/library/ccm.c:251-315 | No counter block is used twice in a message, that of the tag included, for every length the length field can hold |
| Ccm.FormatFlags | mbedtls/library/ccm.c:199-202 | Shifting and or-ing the parts gives flags whose bits do not run into each other |
| Ccm.FormatFirst | mbedtls/library/ccm.c:187-210 | Flags put together bit by bit, nonce and length make the first block, if the length fits |
| CcmStandard.FirstBlockSays | mbedtls/library/ccm.c:187-210 | The first block is the one block whose bits give tag length, presence of data and size of the length, then nonce and length |
| CcmStandard.FirstBlockTells | mbedtls/library/ccm.c:187-210 | Messages that differ in length, nonce, tag length or presence of data have different first blocks |
| CcmStandard.CounterBlockSays | mbedtls/library/ccm.c:251-264 | A counter block is the one block with these flags, nonce and counter |
| CcmStandard.FirstIsNoCounter | mbedtls/library/ccm.c:187-264 | No counter block is a first block, for any nonces |
| CcmStandard.AddStringIsStandard | mbedtls/library/ccm.c:217-249 | The associated data are encoded as the standard says, except 65280 bytes of them |
| CcmStandard.CbcMacNext | mbedtls/library/ccm.c:120-129 | Chaining adds each block to the value so far and enciphers the sum |
| CcmStandard.PaddedShape | mbedtls/library/ccm.c:217-307 | Data and text are each filled up with fewer than sixteen zeros to whole blocks |
| CcmStandard.TextIsMasked | mbedtls/library/ccm.c:276-307 | Every byte of the output is the input masked with a byte of the enciphered counter block of its number, from 1 on |
| CcmStandard.TagIsMasked | mbedtls/library/ccm.c:309-316 | Every byte of the tag is that of the chained first block, data and text, masked with counter block 0 |
| Ccm.MacIsStandard | mbedtls/library/ccm.c:187-249 | The MAC is that of the standard's one string of blocks: first block, padded data, padded text |
| Ccm.AcceptedIffEncrypted | mbedtls/library/ccm.c:324-418 | The texts and tags accepted are exactly those encryption produces, and what is restored is the text encrypted |
| Ccm.EncryptedIsAccepted | mbedtls/library/ccm.c:324-418 | What encryption leaves in memory is accepted and restored, for every nonce, data, text and tag length |
| Ccm.Increment | mbedtls/library/ccm.c:300-307 | Incrementing in place yields the block of the next counter, carries included |
| Ccm.AuthCrypt | mbedtls/library/ccm.c:152-319 | The loop computes the formatting, CBC-MAC and counter stream of SP 800-38C in memory, with an output that is apart or starts at or before the input |
| Ccm.EncryptAndTag | mbedtls/library/ccm.c:340-357 | Memory after encryption: text and tag as specified, nothing else changed; errors exactly for inputs out of range |
| Ccm.AuthDecrypt | mbedtls/library/ccm.c:362-418 | Accepts exactly the right tag, as it stands once the text is written, and then leaves the text, otherwise zeros; nothing else changed |
| SecureLink.Decode | secure_link.c:48-80 | Decoding a message over itself, output four bytes before the input, yields length and payload, and accepts exactly the authentic |
| SecureLink.Encode | secure_link.c:82-109 | Encoding yields the sealed message with the host's nonce layout and advances the sequence number, wrapping |
| SecureLink.DirectionsApart | secure_link.c:59-95 | The host's number is in the third word of its nonces, the peer's in the second, so the directions share a nonce only for numbers zero |
| SecureLink.NoncesDiffer | secure_link.c:59-95 | Different numbers make different nonces |
| SecureLink.SealedText | secure_link.c:82-109 | A sealed message gives its kind, number and length, and each byte of payload masked with its counter block |
| SecureLink.SealedTag | secure_link.c:82-109 | Its tag is the masked MAC of the payload alone |
| SecureLink.AuthenticIffSealed | secure_link.c:48-80 | What is accepted is exactly what begins as a sealed message |
| SecureLink.SealedIsOpened | secure_link.c:48-109 | What a peer seals with the decoder's nonce layout is accepted and opened, for every length and sequence number |
| Xts.MulXIsTimesX | mbedtls/library/aes.c:1177-1190 | The tweak step is multiplication by x modulo x^128 + x^7 + x^2 + x + 1, coefficient by coefficient |
| Xts.MultiplyByX | mbedtls/library/aes.c:1177-1190 | Two 64-bit words shifted with their carries do that step |
| Xts.CryptXts | mbedtls/library/aes.c:1195-1299 | Memory after either direction, stealing included, for output before, apart from or over the input; errors exactly for bad lengths; with the masks off, each block is what the cipher makes of the masked input, under tweaks each x times the one before, and so the two blocks of a stolen end |
| Xts.OneBlockMasks | mbedtls/library/aes.c:1245-1253 | With the tweak taken off, a block of output is the cipher's block of the masked input |
| Xts.OutcomeIsXts | mbedtls/library/aes.c:1224-1296 | Unmasked with its tweak, every block of either direction's result is the cipher's of the masked input block |
| Xts.OneXts | mbedtls/library/aes.c:1224-1296 | And only one result is |
| Xts.InPlaceIsRight | mbedtls/library/aes.c:1277-1296 | In place, the result is right if and only if the partial block, if any, equals the head of the last whole block's output |
| Xts.DecryptedEncrypted | mbedtls/library/aes.c:1195-1299 | Decryption restores every text of 16 bytes or more: the swapped last tweaks agree |
| Aria.AffineTransform | mbedtls/library/aria.c:207-229 | The straight-line word code computes the diffusion layer of RFC 5794 |
| Aria.DiffuseTwice | mbedtls/library/aria.c:184-229 | The diffusion layer undoes itself |
| Aria.DiffuseLinear | mbedtls/library/aria.c:184-229 | It is linear over exclusive or |
| Aria.LayersInverse | mbedtls/library/aria.c:231-260 | Each substitution layer undoes the other |
| Aria.DiffuseSays | mbedtls/library/aria.c:184-229 | Each byte of the diffused block is the sum of those bytes that RFC 5794 names |
| Aria.EncryptedIsStandard | mbedtls/library/aria.c:545-597 | Encryption is the RFC's sequence of odd and even rounds, the last without diffusion between two keys |
| Aria.Context.MakeDecryptionKeys | mbedtls/library/aria.c:510-540 | Flipping and transforming in place turns encryption keys into decryption keys, for 12, 14 and 16 rounds |
| Aria.Context.CryptBlock | mbedtls/library/aria.c:545-597 | The unrolled double rounds are the specified encryption under the schedule in memory |
| Aria.DecryptedEncrypted | mbedtls/library/aria.c:510-597 | The encryption routine under the decryption keys restores every block |
| Camellia.Feistel | mbedtls/library/camellia.c:303-326 | The word steps add to the other half the RFC's F: key, boxes in their order, byte sums |
| Camellia.WordStepsAreSums | mbedtls/library/camellia.c:319-325 | Four steps on words make the eight byte sums of RFC 3713 |
| Camellia.MixedBits | mbedtls/library/camellia.c:274-284 | The left word, masked, is turned by one bit: the highest becomes the lowest |
| Camellia.LayersSay | mbedtls/library/camellia.c:274-284 | Which word FL and its inverse change by what, and in which order |
| Camellia.EncryptedIsStandard | mbedtls/library/camellia.c:505-567 | Encryption is the RFC's: outer keys, groups of six rounds with both layers between, outer keys, halves exchanged |
| Camellia.FLInverse | mbedtls/library/camellia.c:274-284 | Each of FL and its inverse undoes the other |
| Camellia.Context.MakeDecryptionKeys | mbedtls/library/camellia.c:454-500 | The pointer walk yields the key pairs in reverse order with the outer ones exchanged, for both schedule lengths |
| Camellia.Context.CryptBlock | mbedtls/library/camellia.c:505-567 | The loop with its pointer into the schedule is the specified encryption |
| Camellia.StepMirrored | mbedtls/library/camellia.c:303-326 | Each round or key layer undoes its mirror image with halves exchanged |
| Camellia.DecryptedEncrypted | mbedtls/library/camellia.c:454-567 | Encryption under reversed keys restores every block, whatever the substitution boxes contain |
| Base64.Encode | mbedtls/library/base64.c:77-139 | The encoding and its final zero, or too small exactly when they do not fit, with the size wanted or the largest one |
| Base64.EncodedSpells | mbedtls/library/base64.c:108-133 | Every three bytes are spelt by four letters of the alphabet of RFC 1521, six bits each, the rest by two or three and padding |
| Base64.AcceptedIsRead | mbedtls/library/base64.c:151-187 | The strings accepted are those that a reader from the left takes for lines, with two paddings at most at the end |
| Base64.Check | mbedtls/library/base64.c:151-187 | The first pass accepts exactly the strings of the stated form and counts their symbols and padding |
| Base64.Decode | mbedtls/library/base64.c:144-228 | The second pass writes the decoded symbols and nothing beyond; errors exactly for other strings and too little room |
| Base64.EstimateIsEnough | mbedtls/library/base64.c:195-228 | The first pass's size is never too small for what the second writes, and exact if and only if the last group lacks no more than its padding |
| Base64.EstimateTooLarge | mbedtls/library/base64.c:195-228 | An accepted string of two symbols for which the first pass asks two bytes and the second writes none |
| Base64.DecodedEncoded | mbedtls/library/base64.c:77-228 | Every byte string's encoding is accepted and decodes to it |
| Der.WriteLen | mbedtls/library/asn1write.c:42-104 | The shortest form in front of what is written, or the right error and nothing written |
| Der.WriteMpi | mbedtls/library/asn1write.c:132-166 | The element of the magnitude, or an error exactly when it does not fit, and never a byte outside the room |
| Der.WriteBitString | mbedtls/library/asn1write.c:293-324 | The element of the bits with unused ones cleared, or an error exactly when it does not fit |
| Der.WriteOid | mbedtls/library/asn1write.c:182-194 | The element of an object identifier with its size modulo 2^32 and the total as a 32-bit result, or an error exactly for too little room or a reduced size of 2^31 or more |
| Der.WriteAlgorithmIdentifier | mbedtls/library/asn1write.c:196-215 | Header, identifier and, without parameters, NULL in front of the parameters, or an error exactly when they do not fit room or result |
| Der.GetLen | mbedtls/library/asn1parse.c:50-106 | The length and the place after it for all five forms, or the right error |
| Der.GetMpi | mbedtls/library/asn1parse.c:167-182 | The integer and the place after it; a rejected element leaves the object alone |
| Der.GetBitString | mbedtls/library/asn1parse.c:185-213 | The bits, which must end the input, or the right error |
| Der.GetAlg | mbedtls/library/asn1parse.c:287-329 | Identifier and parameters, which must fill the sequence, or the right error |
| Der.GetAlgNull | mbedtls/library/asn1parse.c:331-347 | The identifier if its parameters are empty and their tag is NULL or 0, as it is when they are absent |
| Der.LengthFound | mbedtls/library/asn1parse.c:50-106 | A length is accepted exactly for one of the five forms with its content inside the input |
| Der.IntegerFound | mbedtls/library/asn1parse.c:167-182 | An integer is accepted exactly for tag, length form and content, which it stands for |
| Der.BitStringFound | mbedtls/library/asn1parse.c:185-213 | A bit string is accepted exactly when its element fills the input and begins with a count of at most seven |
| Der.AlgorithmAccepted | mbedtls/library/asn1parse.c:287-329 | An identifier is accepted exactly for a sequence of an identifier element and at most one parameter element filling it |
| Der.WriterIsShortest | mbedtls/library/asn1parse.c:50-106 | Of all forms the parser takes for a length the writer's is the shortest, and the only one that short |
| Der.LengthRead | mbedtls/library/asn1parse.c:50-106 | A length the writer wrote is read back and just its bytes consumed, for every length below 2^32 |
| Der.IntegerContentShortest | mbedtls/library/asn1write.c:148-157 | The content of a positive integer is the shortest one: its first nine bits are not all alike |
| Der.IntegerRoundTrip | mbedtls/library/asn1parse.c:167-182 | An integer written is read back as its magnitude, consuming exactly its bytes; so as itself if and only if it is not negative |
| Der.WrittenIntegerIsRead | mbedtls/library/asn1write.c:132-166 | What the writer leaves in memory the parser finds there, up to where writing began |
| Der.BitStringRoundTrip | mbedtls/library/asn1parse.c:185-213 | Every bit is read back, the padding is zero, and bytes that follow are an error |
| Der.AlgorithmRoundTrip | mbedtls/library/asn1parse.c:287-347 | An identifier with parameters is read back whole; accepted as parameterless exactly when they are empty with tag 0 or NULL |
| Der.AlgorithmNullRoundTrip | mbedtls/library/asn1parse.c:287-347 | An identifier without parameters is read back whole and accepted as such |

## How the model relates to the source

* NULL-argument checks are omitted. Loops the source unrolls (multiply-accumulate in eights, the bytes of
  a DER length) take one element at a time, and long functions are cut into methods with contracts of
  their own. An `|=` of disjoint bits is a sum.
* In `Bignum`, sizes are not bounded by the machine; the limit on limbs is. The unused half of the window
  table of the exponentiation is not kept.
* In `TxEngine`, handing over a frame is one step, and so is taking one from the queues and sending it.
  Bus transfers succeed. After a flush has timed out the chip counts as frozen: upload commands may be
  skipped, pending frames may be dropped, and late confirmations match nothing. Frames are confirmed only
  once, and the first pending frame with the packet number is taken.
* In `RxHandoff`, the chip raises an interrupt for a message only if nothing else announces one, and an
  interrupt without a message may come only when there is none.
* `Firmware` takes an image of less than 4 GiB, as offsets have 32 bits.
* CCM nonces and secure-link headers are laid out as on a little-endian host. The peer of the decoder puts
  the sequence number in the nonce word the decoder uses; the host's own encoder uses another.
* ARIA words are kept as their four bytes in memory order. The substitution boxes are given, pairwise
  inverse for ARIA and arbitrary for Camellia, and so are the encryption round keys.
* In `Der`, the pointers into the buffer are places passed in and out. The value written has at least one
  non-zero limb, as the source reads the byte after the buffer's used part for zero.

## Left out

- Bus and register access, GPIO wake-up, DMA bounce buffers: hardware plumbing.
- Building and fixing up rates, `wfx_tx_fill_rates`, statistics, the work of TIM updates: field copying beside the protocol.
- Command timeouts, adding, resetting or removing an interface while frames are live: the machine's interfaces are fixed.
- Bus errors and refused buffers in the receive path.
- Key schedules of AES, ARIA and Camellia, and the contents of substitution boxes: tables.
- Reading and printing decimal strings, random numbers, prime generation.
- Blowfish, ARC4, ChaCha20 and the plain block modes: easier round trips.
- ECDH, HMAC, key exchange and renewal of the link key.
- ASN.1 sequences, booleans, small integers and named data.
- Der.WriteMpi: does not say what writing zero does, because the source then looks at a byte it has not written.
- Division.ModMpi: does not cover a residue over a positive modulus, because the correcting loops would then compare the residue with itself, and end only when memory does.
- ModularPower.ExpMod: does not cover a result over exponent or modulus, which is overwritten before it has been read, nor, for operands in range, a base without limbs other than the result, for which the source reads a table entry that has no memory; a cache must be empty or belong to the modulus.
- Ccm.AuthCrypt: does not say what is in memory when the block cipher fails, beyond where it may have changed.
- Ccm.EncryptAndTag: does not cover an output that starts inside the input after its beginning, which overwrites input before it is read.
- Ccm.AuthDecrypt: does not cover an output that starts inside the input after its beginning, which overwrites input before it is read.
- Xts.CryptXts: does not cover an output that starts inside the input after its beginning, which overwrites input before it is read.
