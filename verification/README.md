# postmerkOS loader and recovery: verified model

This project models the boot loader, the UART recovery and live-boot payloads, and the host tools that talk to them,
and proves what they promise. `dafny verify dfyconfig.toml` checks all of it.

Code that updates variables, buffers or memory is modelled as methods with loops and classes with fields, and each
such method is proved against a specification function; what the code promises is then proved about those functions.
Pure code is modelled as functions. 32-bit words are integers below 2^32 with every wrap written out, CRC and hash
registers are 32-bit vectors. Bytes are integers below 256.

The parts, and what the main results say:

- **PMOSRAM v2 transfer** (`RamHeader`, `RamLoader`, `RamSender`, `RamTransfer`). The target's receive loop and the
  host's retry loops run against each other over a line that loses and damages frames, loses replies, and lets
  waiting times end at any moment. One invariant over both ends holds after every run: RAM is the old RAM with exactly
  the first chunks of the payload stored, each written once and in order. The host ends well only with the whole
  payload loaded and both checksums right. Whether it can still end well is decided exactly by a condition on the
  present state: retries repair every loss while the target is receiving, but not the loss of one of the two final lines.
- **PMOSREC v3 object receiver** (`Uart`, `FrameV3`, `RetryBitmap`, `ObjectLog`, `ObjectReceiver`, `ObjectTransfer`).
  Nested windows, retry rounds, slot map, decode buffer and destination, for every arrival on the line. The log of
  accepted frames is tied to the frames read from the line, the acknowledgements to the log, and the outcome of a whole
  transfer to a function of the line. In the other direction, a line that carries every frame whole within the retry
  rounds always ends with the sender's image in place.
- **LZ4** (`Lz4`). The decompressor is proved equal to a recursive decoder, and that decoder the exact inverse of an
  encoder. As in the code, the end-of-block restrictions of the LZ4 block format are not enforced.
- **JSON look-up** (`JsonText`, `JsonScan`, `JsonNames`, `JsonRead`, `JsonLookup`, `Manifest`). The scanner is compared
  with look-up in a tree (sections 4 and 7 of RFC 8259) printed with any white space. Nested members of the same name never shadow
  the direct one, so the digests a manifest is checked for are those of its direct members.
- **Checksums** (`Crc32`, `Crc32Example`, `Sha256`, `Sha256Example`). Burst detection by linearity, and streaming SHA-256
  against the padding and block processing of FIPS 180-4; both with their published example values.
- **SPI flash** (`NorFlash`, `SpiFlows`, `ImageLayout`, `PackageHeader`, `Package`). Flash operations may fail with or without saying so; reads are
  honest. Preflight restores what it touched, a rewrite that reports success left the image, and no erase happens
  without header, manifest, metadata, image, validation and a matching confirmation in front of it. What is flashed is
  the image whose digest the manifest names, with a loader that can be recovered over the serial line again.
- **Boot hand-off** (`KernelImage`, `LiveImage`, `BootArgs`). The host's packer and verifier against the loader's fused
  check and copy, the live-boot memory layout, and the bounded arena of kernel arguments.
- **Words and numbers** (`Bytes`, `Words`, `Arithmetic`, `Numerals`, `Clock`, `Baud`). The wrapping timer, the nearest
  divisor, the overflow-free error in parts per million, and number printing and parsing.

Where the code falls short of what one would expect, the exact condition is proved:

- A v2 session can get stuck although attempts are left: VERIFIED and EXEC are sent once. `CanEnd` is the exact
  condition, and every session has a run that violates it by the loss of the VERIFIED line alone.
- `json_u32_value` tests whether the value shrank, which is not an exact overflow test. A number is accepted exactly if
  no digit shrinks it modulo 2^32, and read back exactly if and only if it is below 2^32; 5000000000 is accepted as
  705032704.
- The confirmation is compared as a C string: the challenge's text followed by a NUL and anything else confirms too.
- The timer counts a gap between two polls in full if and only if it is below 2^32 ticks.
- `boot_flash_kernel` reports LOAD-OVERFLOW for a wrapped end address, but with any hard limit up to 0x6fffffff its
  earlier checks already exclude the wrap.
- Member names are compared as they are spelled. That agrees with the names they stand for exactly when no direct member
  in front of the plainly spelled one spells the key with an escape.

## Model

| member | source | states |
|---|---|---|
| Crc32.Update | include/postmerkos_uart_crypto.h:20-29 | Both loops leave the register that absorbing the bytes one at a time, eight polynomial steps each, defines. |
| Crc32.Compute | include/postmerkos_uart_crypto.h:31-34 | The one-shot CRC is the complemented register over the whole message. |
| Crc32.AbsorbConcat | include/postmerkos_uart_crypto.h:20-29 | Streaming: updating over a and then over b is updating over a followed by b. |
| Crc32.StepsLinear | include/postmerkos_uart_crypto.h:20-29 | Any number of register steps distributes over xor. |
| Crc32.AbsorbInjective | include/postmerkos_uart_crypto.h:20-29 | Two different registers stay different whatever common bytes follow. |
| Crc32.AbsorbPacked | include/postmerkos_uart_crypto.h:20-29 | Up to four bytes act as one xor with their little-endian word followed by one step per bit. |
| Crc32.BurstChangesRegister | include/postmerkos_uart_crypto.h:20-29 | A changed stretch of up to four bytes, between any prefix and suffix, always changes the final register. |
| Crc32.BurstDetected | include/postmerkos_uart_crypto.h:31-34 | Two different messages of one length that agree outside some four consecutive bytes have different CRCs. |
| Crc32.TableForm | tools/mkvcoreiii_payload.py:29-32 | The table-driven byte update of the host's library equals the target's eight bit steps. |
| Crc32.CrcFieldRoundTrip | src/uart_ramloader.c:329-349 | A CRC stored little-endian in a header reads back unchanged. |
| Crc32.SealedRegister | include/postmerkos_uart_crypto.h:20-34 | Data with its CRC behind it, and no other data, brings the register to one fixed value. |
| Crc32.SealBroken | include/postmerkos_uart_crypto.h:20-34 | Damage within four consecutive bytes of sealed data, in the data, in the CRC or across both, leaves it unsealed. |
| Crc32Example.CheckValue | include/postmerkos_uart_crypto.h:20-34 | The CRC of "123456789" is 0xcbf43926, the published check value. |
| Sha256.Transform | include/postmerkos_uart_crypto.h:55-85 | The schedule and round loops compute the compression function of FIPS 180-4 section 6.2.2, stated recursively. |
| Sha256.FoldConcat | include/postmerkos_uart_crypto.h:105-121 | Hashing whole blocks and then the rest is hashing the concatenation. |
| Sha256.FoldBlock | include/postmerkos_uart_crypto.h:105-121 | One more full block is one more compression. |
| Sha256.PadInjective | include/postmerkos_uart_crypto.h:123-148 | The padding of FIPS 180-4 section 5.1.1 loses nothing: messages shorter than 2^61 bytes with equal padded forms are equal. |
| Sha256.PadLayout | include/postmerkos_uart_crypto.h:123-148 | Behind the message stand 0x80, the fewest zeros that fill the block, and the bit length, most significant byte first. |
| Sha256.DigestReads | include/postmerkos_uart_crypto.h:142-147 | The eight words of a hash are read back from its digest, most significant byte first. |
| Sha256Example.KnownHash | include/postmerkos_uart_crypto.h:36-148 | The worked example of FIPS 180-4: the digest of "abc" spells ba7816bf 8f01cfea 414140de 5dae2223 b00361a3 96177a9c b410ff61 f20015ad. |
| Sha256.AddBitsExact | include/postmerkos_uart_crypto.h:96-103 | The two wrapping counter words with their carry are exactly 8 times the length modulo 2^64. |
| Sha256.ExtendTail | include/postmerkos_uart_crypto.h:105-121 | Buffered bytes extend the represented message while the block is not full. |
| Sha256.CloseBlock | include/postmerkos_uart_crypto.h:105-121 | Compressing a filled buffer keeps the state equal to the fold over all full blocks. |
| Sha256.FinishShort | include/postmerkos_uart_crypto.h:123-148 | With fewer than 56 bytes buffered, one final block gives the hash of the padded message. |
| Sha256.FinishLong | include/postmerkos_uart_crypto.h:123-148 | With 56 or more bytes buffered, the two final blocks give the hash of the padded message. |
| Sha256.Context.AddBits | include/postmerkos_uart_crypto.h:96-103 | The counter pair moves from n bytes to n plus the given bytes, modulo 2^64 bits. |
| Sha256.Context.Update | include/postmerkos_uart_crypto.h:105-121 | Any split into update calls: the context represents everything absorbed so far, followed by the new bytes. |
| Sha256.Context.Final | include/postmerkos_uart_crypto.h:123-148 | The digest is the FIPS 180-4 hash of the whole message, and the loop's padding writes are that padding. |
| Lz4.MatchIsPeriodic | payloads/uart-firmware-recovery/recovery.c:1474-1477 | A match, overlapping or not, repeats the last offset bytes of the output: position k holds byte k modulo the offset. |
| Lz4.SequenceLayout | payloads/uart-firmware-recovery/recovery.c:1448-1473 | One sequence on the wire, byte for byte: token halves, runs of 255 with a remainder, literals, and the offset least significant byte first. |
| Lz4.DecodeEncode | payloads/uart-firmware-recovery/recovery.c:1441-1481 | Round trip: decoding the encoding of any list of sequences, with any extension bytes and an optional literal tail, gives its expansion when that fits and fails when it does not. |
| Lz4.DecodeMeans | payloads/uart-firmware-recovery/recovery.c:1441-1481 | Converse: every accepted source is the encoding of a block whose expansion is the output. |
| Lz4.DecodeExactly | payloads/uart-firmware-recovery/recovery.c:1441-1481 | A source is accepted with result r exactly when it encodes a grounded block that expands to r within the capacity. |
| Lz4.ReadExtensionBytes | payloads/uart-firmware-recovery/recovery.c:1450-1456 | The extension loop reads the specified length, inside the source and without wrapping. |
| Lz4.CopyWithin | payloads/uart-firmware-recovery/recovery.c:1474-1477 | The in-place byte copy is the specified self-overlapping match and changes nothing behind it. |
| Lz4.TakeLiterals | payloads/uart-firmware-recovery/recovery.c:1448-1459 | The literal half of a round agrees with the specification and stays below the capacity. |
| Lz4.TakeMatch | payloads/uart-firmware-recovery/recovery.c:1460-1477 | The match half of a round agrees with the specification, error cases included. |
| Lz4.Decompress | payloads/uart-firmware-recovery/recovery.c:1441-1481 | For sources up to 8192 bytes the loop succeeds exactly when the recursive decoder does, with its output, writes below the capacity only, and no 32-bit sum wraps. |
| JsonText.PrintThen | payloads/uart-firmware-recovery/recovery.c:373-420 | Printing a tree in front of a rest is printing it and then the rest, for any white space. |
| JsonScan.NestedValue | payloads/uart-firmware-recovery/recovery.c:397-401 | The scanner crosses any value nested deeper without comparing a name, and comes out at the same depths. |
| JsonScan.KeyIsBody | payloads/uart-firmware-recovery/recovery.c:403-414 | The name comparison matches a printed member name exactly when that name is the key. |
| JsonScan.DirectMembers | payloads/uart-firmware-recovery/recovery.c:373-420 | Scanning members at the direct depth stops at the first one with the key, or goes on behind them all. |
| JsonScan.ValuePlace | payloads/uart-firmware-recovery/recovery.c:373-420 | The text of the value stands behind the members in front of it, which fixes its place. |
| JsonScan.FindsDirectMember | payloads/uart-firmware-recovery/recovery.c:373-420 | json_find_value lands on the value of the first direct member with the key at its own place in the text, not on another occurrence with the same text, and fails when there is none. |
| JsonScan.ObjectValueIsInner | payloads/uart-firmware-recovery/recovery.c:492-520 | json_object_value returns exactly the text between the braces of the direct member, and only for an object. |
| JsonScan.ChainFollowsTree | payloads/uart-firmware-recovery/recovery.c:492-520 | A chain of object look-ups presents the object at that path of the tree and fails exactly when the path leads nowhere. |
| JsonNames.FindsByName | payloads/uart-firmware-recovery/recovery.c:373-420 | Names are compared as spelled: json_find_value lands where a look-up by name under the escape rules of RFC 8259 section 7 does, or fails with it, exactly when no direct member in front of the plainly spelled one spells the key with an escape. |
| JsonNames.PlacesAgree | payloads/uart-firmware-recovery/recovery.c:403-414 | The same condition on the places of the two members; the look-up by name never lands behind. |
| JsonNames.EscapesHaveBackslashes | payloads/uart-firmware-recovery/recovery.c:403-414 | A member that spells a key otherwise than plainly has a backslash in its name, so an object without backslashes in its names is always read by name. |
| JsonNames.EscapedNameIsMissed | payloads/uart-firmware-recovery/recovery.c:403-414 | Whatever key is spelled with an escape in the only member of an object, json_find_value misses it. |
| JsonNames.EscapedSpelling | payloads/uart-firmware-recovery/recovery.c:403-414 | Such spellings exist: \u0073ha256 is the name sha256. |
| JsonRead.StringRead | payloads/uart-firmware-recovery/recovery.c:422-437 | A string read succeeds exactly on a direct, unescaped string that leaves room for the NUL, and returns it. |
| JsonRead.NumberRead | payloads/uart-firmware-recovery/recovery.c:439-454 | A number read succeeds exactly on a direct number of digits none of which shrinks the value modulo 2^32, returns it modulo 2^32, and is exact if and only if it is below 2^32. |
| JsonRead.NumberReadWraps | payloads/uart-firmware-recovery/recovery.c:444-445 | Counterexample to exact overflow detection: the number of the text {"n":5000000000} is accepted as 705032704. |
| JsonRead.TrueRead | payloads/uart-firmware-recovery/recovery.c:456-464 | json_true_value holds exactly for a direct member that is the literal true. |
| JsonRead.ArrayRead | payloads/uart-firmware-recovery/recovery.c:466-490 | The list search agrees with the items of the direct array, read up to the first that is no short unescaped string. |
| JsonLookup.FindValueIn | payloads/uart-firmware-recovery/recovery.c:373-420 | The index loop with its depth, string and escape variables computes the specified look-up, position included. |
| JsonLookup.ObjectValueIn | payloads/uart-firmware-recovery/recovery.c:492-520 | The brace-counting loop returns the start and length of the specified text. |
| JsonLookup.StringValueIn | payloads/uart-firmware-recovery/recovery.c:422-437 | The copying loop computes the specified string read. |
| JsonLookup.U32ValueIn | payloads/uart-firmware-recovery/recovery.c:439-454 | The digit loop in wrapping words computes the specified number read. |
| JsonLookup.TrueValueIn | payloads/uart-firmware-recovery/recovery.c:456-464 | The four comparisons and the delimiter check compute the specified literal read. |
| JsonLookup.ArrayContainsIn | payloads/uart-firmware-recovery/recovery.c:466-490 | The item loop computes the specified list search. |
| Numerals.PutDec | payloads/uart-firmware-recovery/recovery.c:1363-1373 | Digits collected backwards in eleven characters come out as the decimal text; the buffer never overflows. |
| Numerals.ParseTokenLoop | payloads/uart-firmware-recovery/recovery.c:1341-1361 | The index loop computes the specified parse of a decimal or 0x-prefixed token. |
| Numerals.PrintedNumbersParse | payloads/uart-firmware-recovery/recovery.c:1341-1373 | Every 32-bit number is read back from its decimal text and from its prefixed hexadecimal text. |
| Numerals.Hex8Injective | payloads/uart-firmware-recovery/recovery.c:325-329 | Different words have different eight-digit texts. |
| Numerals.TokenExactly | payloads/uart-firmware-recovery/recovery.c:1341-1361 | A token is a number exactly when it is 0x or 0X with hexadecimal digits behind it, or decimal digits alone, at least one; its value is taken modulo 2^32. |
| Numerals.DigitsRead | payloads/uart-firmware-recovery/recovery.c:1350-1358 | Digits are read as their value over the unbounded integers modulo 2^32, and any other character refuses the text. |
| Numerals.DigitValues | payloads/uart-firmware-recovery/recovery.c:1351-1355 | The ten digits and six letters in both cases have their values, and no other character has one. |
| Numerals.HexIsLowerCase | payloads/uart-firmware-recovery/recovery.c:1899-1903 | Printed hexadecimal digits are the decimal ones and the lower-case letters. |
| RamHeader.ValidateIsUnbounded | src/uart_ramloader.c:359-482 | The wrapping checks accept exactly the headers whose identity and CRC are right and whose geometry is valid over the unbounded integers. |
| RamHeader.HeaderExactly | src/uart_ramloader.c:329-482 | Parsed and checked, a header is accepted exactly when its bytes are sealed by their CRC, name PMOSRAM2, version 2 and no flags, and place the image validly. |
| RamHeader.HeaderBurstIsRefused | src/uart_ramloader.c:359-482 | Damage within four consecutive bytes of an accepted header, its CRC included, is refused. |
| RamHeader.MadeHeaderIsAccepted | tools/uart_ramload_send.py:121-134 | A header is made exactly when the placement fits; the target parses every field back and accepts it. |
| RamHeader.AcceptedHeaderIsMade | src/uart_ramloader.c:335-349 | Converse: an accepted header carrying a payload's length, CRC and digest is, byte for byte, the one the host makes. |
| RamLoader.Loader.Receive | src/uart_ramloader.c:931-986 | One round of the receive loop: new state and replies for every branch, as the step function gives them, whose fates and answers are proved below. |
| RamLoader.FatesOfFrames | src/uart_ramloader.c:934-986 | Every frame, whoever sends it, has one of four fates: a malformed one ends the session, the next chunk with room is stored and acknowledged, the same bytes again are acknowledged without change, and anything else is answered by a NACK of the expected number without change. |
| RamLoader.FrameFollows | src/uart_ramloader.c:977-1003 | Whatever frame arrives, memory and the running CRC stay those of the bytes hashed, and after the last chunk the image runs exactly when both checks pass. |
| RamLoader.OnlyVerifiedImagesRun | src/uart_ramloader.c:928-1003 | For every list of frames, a running image means that memory holds bytes of the announced length, CRC and SHA-256 at the load address, with nothing else changed. |
| RamLoader.Loader.Accept | src/uart_ramloader.c:977-985 | The accepting path stores the data and updates both running checksums, the duplicate record and the counters. |
| RamLoader.Loader.Conclude | src/uart_ramloader.c:988-1015 | The image runs exactly when both whole-image checks pass. |
| RamLoader.Loader.ReceiveLoop | src/uart_ramloader.c:928-1015 | The loop over any list of frames is the step function folded over it. |
| RamSender.PrefixIsReply | tools/uart_ramload_send.py:71-82 | A reply line starts with the awaited prefix exactly when it is that reply. |
| RamSender.ChunkAppends | tools/uart_ramload_send.py:192-199 | The chunks of the range loop tile the payload in order. |
| RamSender.ChunkPlace | tools/uart_ramload_send.py:192-199 | Chunk k is the payload from k times the chunk size on, cut at the end. |
| RamSender.FatesOfEvents | tools/uart_ramload_send.py:137-156 | Each line or time-out ends the session, brings the next frame with fresh attempts, brings the same frame once more while attempts are left, concludes, or changes nothing, such as a reply for another frame. |
| RamSender.Link.WaitFor | tools/uart_ramload_send.py:71-82 | Lines of no interest are dropped; the line returned decides, and the session state follows the step function. |
| RamSender.Link.SendFrame | tools/uart_ramload_send.py:137-156 | One frame is written at least once and at most retries + 1 times before it is acknowledged or the session fails. |
| RamSender.Link.Send | tools/uart_ramload_send.py:192-209 | The nested loops end, done or failed, having written exactly the frames the step function prescribes for the events seen. |
| RamTransfer.HeaderCarriesPlan | src/uart_ramloader.c:914-926 | The header made for a session gives the target exactly the plan the composed system starts from. |
| RamTransfer.OnFrameKeeps | src/uart_ramloader.c:931-986 | A sound frame, intact, damaged or repeated, keeps the loaded contents, never aborts, is answered truthfully, and any NACK names the expected number and leaves the state as it was. |
| RamTransfer.TargetAnswers | src/uart_ramloader.c:949-986 | In every reachable state: a damaged or outdated frame is answered by exactly the NACK of the expected number, a repeated one by its ACK, both without change; the expected one is acknowledged, and the last brings VERIFIED and EXEC. |
| RamTransfer.DamagedFrameIsRepeated | tools/uart_ramload_send.py:144-155 | When the damaged frame stands alone on the line and an attempt is left, the target taking it and the host reading the answer put the frame intact on the line again, with one more attempt used. |
| RamTransfer.StepInv | src/uart_ramloader.c:928-986 | Every action of the target, the host and the faulty line keeps the joint invariant. |
| RamTransfer.RunInv | src/uart_ramloader.c:928-986 | The invariant holds after every run. |
| RamTransfer.EveryReachableState | src/uart_ramloader.c:928-986 | In every reachable state RAM is the old RAM with exactly the first chunks stored, each written once and in order, and the host is at the expected sequence or one behind. |
| RamTransfer.DoneMeansLoaded | tools/uart_ramload_send.py:192-209 | The host ends well, or the target runs, only with the whole payload in place and both checksums right. |
| RamTransfer.NoFrameAborts | src/uart_ramloader.c:934-955 | No frame that travelled the line makes the target give up; only time-outs do. |
| RamTransfer.RunsToTheEnd | tools/uart_ramload_send.py:192-209 | With the current frame alone on the line, the transfer can run to its end. |
| RamTransfer.CanStillFinish | tools/uart_ramload_send.py:137-156 | While the target is receiving and the host has an attempt left, the session can still end well, whatever was lost, damaged or repeated. |
| RamTransfer.EndsIfItCan | tools/uart_ramload_send.py:192-209 | Whenever the condition on the present state holds, there is a run that ends well: with an attempt left, from an intact frame on the line, from an acknowledgement on the line, or from the two final lines. |
| RamTransfer.EndsOnlyIfItCan | tools/uart_ramload_send.py:192-209 | A run that ends well starts in a state that meets the condition. |
| RamTransfer.StepKeepsHopeless | src/uart_ramloader.c:928-1015 | No action of either side or of the line turns a state that cannot end well into one that can. |
| RamTransfer.CanEndExactly | tools/uart_ramload_send.py:137-156 | Exact condition: from a reachable state some run ends well if and only if the present state meets it, that is: while the target receives, an attempt is left, or the chunk is intact on the line, or its acknowledgement is; afterwards VERIFIED is still on the line in front of EXEC, or EXEC alone once VERIFIED was read. |
| RamTransfer.FinalLinesAreNotRepeated | src/uart_ramloader.c:1006-1014 | VERIFIED and EXEC are sent once: when the target has left its loop and the host can no longer read both in order, no number of retries ends the session well. |
| RamTransfer.LostVerifiedIsFinal | src/uart_ramloader.c:1006-1014 | Every session has a run into such a state: all chunks delivered, no attempt used on the last, EXEC still on the line, and only VERIFIED lost. |
| RamTransfer.BurstIsDamage | src/uart_ramloader.c:949-972 | Any burst within four consecutive data bytes of an intact frame is damage of the kind the line may do. |
| Clock.Timer.Expired | src/uart_ramloader.c:137-152 | One poll in wrapping words: the new fields and the verdict. |
| Clock.CounterDifference | src/uart_ramloader.c:137-152 | The wrapping difference of two counter readings is the true gap when that is below 2^32. |
| Clock.TimerIsExact | src/uart_ramloader.c:130-152 | Polled within every 2^32 ticks, the fields are the true milliseconds and remaining ticks, across any number of counter wraps and for every configured counter rate. |
| Clock.ExpiryIsExact | payloads/uart-firmware-recovery/recovery.c:245-267 | Expiry is reported exactly when the true time has reached the limit, until the millisecond count itself wraps. |
| Clock.LatePollLosesTime | src/uart_ramloader.c:137-152 | The polling distance is sharp: a gap is counted in full if and only if it is below 2^32. |
| Baud.NearestIsNearest | payloads/uart-firmware-recovery/recovery.c:1296-1304 | Over all divisors the hardware takes, the computed one has the smallest error; unclamped it is within 8 times the rate. |
| Baud.DifferenceBound | payloads/uart-firmware-recovery/recovery.c:1290-1304 | The rate difference is at most the requested rate, or at most 4294. |
| Baud.RateIsQuotient | payloads/uart-firmware-recovery/recovery.c:1290-1294 | The reported rate is the clock over sixteen times the divisor, rounded down, a zero divisor counting as one. |
| Baud.CeilHalves | payloads/uart-firmware-recovery/recovery.c:1673-1676 | Halving and adding the odd unit is division by the next power of two rounded up. |
| Baud.ErrorPpm | payloads/uart-firmware-recovery/recovery.c:1670-1678 | The scaling loop ends with both values over the same power of two, rounded up, and stops no later than needed. |
| Baud.RatioKept | payloads/uart-firmware-recovery/recovery.c:1670-1678 | Scaling keeps the ratio up to one unit of the scaled values. |
| Baud.Offer | payloads/uart-firmware-recovery/recovery.c:1660-1684 | For every clock and rate of the domain, divisor, rate and ppm are as specified and the product by one million does not overflow. |
| Uart.Port.RecvExact | payloads/uart-firmware-recovery/recovery.c:277-294 | Exactly n bytes, the pushed-back one first, or failure at the time limit; nothing more is consumed. |
| Uart.Port.DrainUntilIdle | payloads/uart-firmware-recovery/recovery.c:1234-1258 | Everything up to the first pause is dropped, the pushed-back byte too, and the bytes dropped are counted. |
| Uart.Port.AwaitConfirmation | payloads/uart-firmware-recovery/recovery.c:1383-1413 | Success on a confirmation or on the first byte of the next frame within four transmissions, with exactly as many transmissions as the line makes necessary. |
| Uart.PushbackKeepsFrame | payloads/uart-firmware-recovery/recovery.c:1398-1409 | A confirmation lost in front of the next frame costs nothing: the frame is still whole for the next read. |
| Uart.ConfirmedBehind | payloads/uart-firmware-recovery/recovery.c:1383-1413 | Waiting for a confirmation, the push-back included, only moves on along the line. |
| Uart.AnswerTaken | payloads/uart-firmware-recovery/recovery.c:1396-1413 | Pauses, and fewer waits without success than transmissions, then a confirmation or the start of the next frame: the transfer goes on exactly behind them. |
| Uart.NoAnswerInTime | payloads/uart-firmware-recovery/recovery.c:1393-1413 | As many failed waits as transmissions, in front of anything else, end the transfer. |
| Uart.TransmissionsBounded | payloads/uart-firmware-recovery/recovery.c:1393-1413 | A record is transmitted at least once and never more often than allowed. |
| Uart.TakeBytes | payloads/uart-firmware-recovery/recovery.c:277-294 | Bytes on the line are read in order and nothing else is consumed. |
| FrameV3.ReadsWholeFrame | payloads/uart-firmware-recovery/recovery.c:1525-1580 | A frame with a good header is consumed whole whatever its wire bytes are, and delivered exactly when both CRCs and the decoder agree. |
| FrameV3.ConsumesOneFrame | payloads/uart-firmware-recovery/recovery.c:1525-1580 | Every delivered or retryable payload result has taken exactly the header and the wire bytes it announces from the line. |
| FrameV3.HeaderExactly | payloads/uart-firmware-recovery/recovery.c:1525-1556 | A reading gets past the header exactly when forty bytes arrive that are sealed by their CRC, carry the frame magic, this object, this sequence and a length and place that fit, and as many wire bytes as they announce arrive behind them. |
| FrameV3.DeliveredExactly | payloads/uart-firmware-recovery/recovery.c:1558-1586 | It then delivers exactly when both CRCs and the announced length are right, and what it delivers is what the wire bytes stand for, at the announced offset. |
| FrameV3.HeaderBurstIsRefused | payloads/uart-firmware-recovery/recovery.c:1530-1533 | A sent header damaged within four consecutive of its forty bytes is refused, whatever follows. |
| FrameV3.OtherFrameIsRefused | payloads/uart-firmware-recovery/recovery.c:1538-1545 | A whole frame of another sequence number or another object is refused. |
| FrameV3.DeliveredFits | payloads/uart-firmware-recovery/recovery.c:1546-1553 | What is delivered fits the frame and the object at its offset. |
| FrameV3.HeaderCodec | payloads/uart-firmware-recovery/recovery.c:1502-1514 | The frame header codec is a bijection between headers and 40 bytes. |
| FrameV3.SentFrameIsDelivered | payloads/uart-firmware-recovery/recovery.c:1516-1588 | Round trip: any payload put on the line with its header, as it is or as any LZ4 block that expands to it, is delivered unchanged at its offset, with the rest of the line untouched. |
| FrameV3.DamagedFrameIsRetryable | payloads/uart-firmware-recovery/recovery.c:1558-1580 | The same frame with refused wire bytes is a retryable loss that takes exactly the frame from the line. |
| FrameV3.GarbledIsDrained | payloads/uart-firmware-recovery/recovery.c:1525-1556 | A frame with a refused header is dropped up to the next pause when the boundary is recovered. |
| FrameV3.CutIsDrained | payloads/uart-firmware-recovery/recovery.c:1525-1557 | A frame that stops short, in its header or in the wire bytes announced, runs into the time limit and is recovered at the next pause. |
| FrameV3.FrameSlotMark | payloads/uart-firmware-recovery/recovery.c:1489-1500 | Success exactly for an aligned slot in range that is free or being retried; then that slot, and no other, is newly marked. |
| FrameV3.SlotsDisjoint | payloads/uart-firmware-recovery/recovery.c:1489-1500 | Frames in different slots touch different bytes. |
| RetryBitmap.WithHas | payloads/uart-firmware-recovery/recovery.c:1617-1623 | Setting a bit of the retry bitmap adds that frame and no other. |
| RetryBitmap.DroppedHas | payloads/uart-firmware-recovery/recovery.c:1630-1636 | Clearing a bit removes that frame and no other. |
| ObjectReceiver.Receiver.DecodePayload | payloads/uart-firmware-recovery/recovery.c:1558-1580 | CRC, decoder and length checks leave the specified payload in the decode buffer or fail. |
| ObjectReceiver.Receiver.ReceiveFrame | payloads/uart-firmware-recovery/recovery.c:1516-1588 | The result, the log, the slot map, the destination and the rest of the line for every outcome; a failed frame changes none of the first three. |
| ObjectReceiver.Receiver.FirstPass | payloads/uart-firmware-recovery/recovery.c:1617-1623 | After the first pass the bitmap is exactly the window's frames that are missing; state and result are those of the specified sweep. |
| ObjectReceiver.Receiver.RetryRound | payloads/uart-firmware-recovery/recovery.c:1630-1636 | A retry round keeps the bitmap exact and asks only for missing frames; state and result are those of the specified sweep. |
| ObjectReceiver.Receiver.Window | payloads/uart-firmware-recovery/recovery.c:1615-1641 | At most nine receptions per frame; success only with the whole window in and an empty last acknowledgement; the outcome is the specified function of the line. |
| ObjectReceiver.Receiver.ReceiveObject | payloads/uart-firmware-recovery/recovery.c:1591-1658 | Success is decided exactly by the line, at most 9 receptions per frame; the log is what frames read in order from the line delivered; on success every sequence was accepted once, the destination is the fill overlaid in acceptance order, first passes touched nothing written before, the last acknowledgement is empty, and CRC and digest match. |
| ObjectLog.AcksShrink | payloads/uart-firmware-recovery/recovery.c:1624-1640 | Within a window the acknowledged bitmap only shrinks. |
| ObjectLog.BaseMovesOnEmpty | payloads/uart-firmware-recovery/recovery.c:1628-1641 | Over all acknowledgements of an object: the base moves exactly behind an empty bitmap and then by that window; otherwise the window stays the same. |
| ObjectLog.EntryWasDelivered | payloads/uart-firmware-recovery/recovery.c:1516-1588 | Every log entry was delivered by a frame read from some point of the original line. |
| ObjectLog.TriesTakeFrames | payloads/uart-firmware-recovery/recovery.c:1525-1587 | With a window above one, every try that does not end the transfer took exactly one whole frame, header and announced wire bytes, from the line. |
| ObjectLog.FirstPassFates | payloads/uart-firmware-recovery/recovery.c:1617-1623 | In the first pass a frame ends the transfer (a refused header unless boundaries are recovered, a place off its boundary, a slot that is taken), is logged as a first transmission, or is missing from here on. |
| ObjectLog.RetryFates | payloads/uart-firmware-recovery/recovery.c:1630-1636 | In a retry round a frame that is not missing is not read; a missing one may overwrite a taken slot and is no longer missing, or stays missing, or ends the transfer. |
| ObjectLog.HeaderLossIsFinal | payloads/uart-firmware-recovery/recovery.c:1525-1545 | With a window above one a refused header at the head of a window is the end of the transfer. |
| ObjectLog.ReplayByte | payloads/uart-firmware-recovery/recovery.c:1585-1585 | A byte that no accepted frame writes keeps the fill value, and the last frame that writes it decides otherwise. |
| ObjectLog.LogGrows | payloads/uart-firmware-recovery/recovery.c:1489-1500 | One more accepted frame keeps the log distinct, placed and free of first-pass overlap. |
| ObjectLog.FirstPassStep | payloads/uart-firmware-recovery/recovery.c:1617-1623 | One first-pass frame, accepted or not, keeps the bitmap exact. |
| ObjectLog.RetryStep | payloads/uart-firmware-recovery/recovery.c:1630-1636 | An accepted retry clears exactly its bit. |
| ObjectLog.WindowComplete | payloads/uart-firmware-recovery/recovery.c:1628-1641 | An empty bitmap means that the base may advance over the whole window. |
| ObjectTransfer.SentIsRead | payloads/uart-firmware-recovery/recovery.c:1516-1588 | One transmission of a frame not yet accepted is accepted when it arrives whole and is retryable when its wire bytes are refused or, with a window of one, when its header is lost. |
| ObjectTransfer.RetrySweepFollows | payloads/uart-firmware-recovery/recovery.c:1630-1636 | A retry round over the transmissions of the missing frames accepts exactly the whole ones and lists exactly the damaged ones. |
| ObjectTransfer.WindowFollows | payloads/uart-firmware-recovery/recovery.c:1615-1641 | A window whose frames all get through within eight retry rounds is received whole, whatever was lost and however the acknowledgements were answered in time, and the line is left behind it. |
| ObjectTransfer.ReplayIsImage | payloads/uart-firmware-recovery/recovery.c:1585-1585 | In whatever order a cargo's frames were accepted, the destination is the same image. |
| ObjectTransfer.ObjectArrives | payloads/uart-firmware-recovery/recovery.c:1591-1658 | Progress: on a line that carries every frame whole within the retry rounds, with every acknowledgement answered within four transmissions or its confirmation lost in front of the next frame, with lost headers too when the window is one, and inside the time limit, the object is received and is the sender's image. |
| ObjectTransfer.FramesStandIn | payloads/uart-firmware-recovery/recovery.c:1400-1408 | A frame on the line always starts with the byte that stands in for a lost confirmation. |
| ObjectTransfer.BurstIsRefused | payloads/uart-firmware-recovery/recovery.c:1558-1561 | Damage within four consecutive wire bytes is always of the refused, retryable kind. |
| NorFlash.AndErasedAll | payloads/uart-firmware-recovery/recovery.c:939-949 | Programming erased cells stores the data itself. |
| NorFlash.Chip.ProgramBuffer | payloads/uart-firmware-recovery/recovery.c:996-1004 | Page by page, the range ends as the AND with the data when every page worked, and nothing outside changes even when one fails; success is reported exactly when the chip reported every page of the range done. |
| NorFlash.Chip.CrcRange | payloads/uart-firmware-recovery/recovery.c:905-918 | The incremental CRC is the CRC of the range. |
| NorFlash.Chip.Verify | payloads/uart-firmware-recovery/recovery.c:958-994 | Verification succeeds exactly when the cells are the expected ones. |
| SpiFlows.WriteSector | payloads/uart-firmware-recovery/recovery.c:1047-1070 | Both halves of the preflight, test and restore: success exactly when the erase was reported done and left the sector blank, every page was reported done, and the data stands in the sector at the end; nothing outside it changes. |
| SpiFlows.ScratchPreflight | payloads/uart-firmware-recovery/recovery.c:1018-1089 | Every run but a failed restore leaves all 16 MiB as they were, none changes a cell outside the sector, the loader-changed exit is unreachable, and a healthy chip passes; exactly: the chip's history is a test phase and a restore phase, and the outcome is a failed restore without the backup written, else a failed test without the pattern written, else success. |
| SpiFlows.PhasesAreUnique | payloads/uart-firmware-recovery/recovery.c:1047-1070 | A history splits into the two phases in one way only. |
| SpiFlows.RequestExactly | payloads/uart-firmware-recovery/recovery.c:1028-1036 | A good request asks, with exactly the restore flag, for one of the whole sectors behind the loader. |
| SpiFlows.PatternIsNotBlank | payloads/uart-firmware-recovery/recovery.c:951-956 | For every seed the pattern is not erased flash throughout, so a chip that programs nothing fails the test. |
| SpiFlows.VerifyFull | payloads/uart-firmware-recovery/recovery.c:1181-1202 | Full verification succeeds exactly when flash equals the staged image. |
| SpiFlows.Rewrite | payloads/uart-firmware-recovery/recovery.c:1129-1202 | Success means flash equals the staged image at every address; a healthy chip always succeeds; exactly: 256 blocks reported erased and blank at both ends, then 65536 pages reported programmed, and the image at the end. |
| Manifest.HexDigestInjective | payloads/uart-firmware-recovery/recovery.c:532-540 | A digest in hexadecimal stands for that digest only. |
| Manifest.HexDigestReads | payloads/uart-firmware-recovery/recovery.c:532-540 | The two digits at place 2i are the eight-bit hexadecimal text of byte i, the upper half first, and read back as it. |
| Manifest.NamesExactly | payloads/uart-firmware-recovery/recovery.c:587-598 | For any manifest tree in any layout, the digest check passes exactly when the direct member at the path is the digest in hexadecimal, whatever is nested under the same name. |
| Manifest.NamesOnlyOne | payloads/uart-firmware-recovery/recovery.c:595-598 | A manifest names at most one digest at a place. |
| Manifest.NamesDigest | payloads/uart-firmware-recovery/recovery.c:587-598 | The chained look-ups, the string read and the comparison compute that check. |
| Package.ConfirmationIsSpecific | payloads/uart-firmware-recovery/recovery.c:1892-1907 | A confirmation text fits exactly one challenge. |
| Package.ConfirmingLines | payloads/uart-firmware-recovery/recovery.c:1892-1907 | A line confirms exactly when it is the challenge's text, or that text with a NUL and anything behind it, as C strings compare. |
| Package.LineMatches | payloads/uart-firmware-recovery/recovery.c:344-348 | The comparison loop agrees with equality of C strings after cutting the line to 63 characters. |
| Package.ErasedImageIsNamed | payloads/uart-firmware-recovery/recovery.c:587-598 | An erase is authorised only for an image that the manifest names: for any manifest printing a tree, the direct artifact.sha256 and recovery.uart_ramloader.loader_sha256 are the digests of the image and of its loader region. |
| ImageLayout.ContainsBytes | payloads/uart-firmware-recovery/recovery.c:522-530 | The search loop finds the needle exactly when it stands somewhere in the region. |
| ImageLayout.CheckLayout | payloads/uart-firmware-recovery/recovery.c:669-676 | Both region magics and the loader's banner inside the first 256 KiB, exactly. |
| ImageLayout.BlankLoaderIsRefused | payloads/uart-firmware-recovery/recovery.c:673-676 | An image with a blank loader region is refused whatever else it holds. |
| Package.ErasedImageIsRecoverable | payloads/uart-firmware-recovery/recovery.c:669-676 | An erase is authorised only for an image with the text PMOSRAM READY 2 inside its first 256 KiB, SPIM at 0x40000 and hsqs at 0x300000. |
| PackageHeader.HeaderRoundTrip | payloads/uart-firmware-recovery/recovery.c:1798-1814 | Every field of a package header is read back from its place. |
| Package.ValidHeaderObjects | payloads/uart-firmware-recovery/recovery.c:1816-1834 | A valid header always describes two objects that the receiver admits: object 2, the manifest, and object 1, the 16 MiB image. |
| Package.HeaderExactly | payloads/uart-firmware-recovery/recovery.c:1798-1834 | Parsed and checked in 32-bit words, a header is valid exactly when its bytes are right over the unbounded integers: sealed by the CRC, PMOSPKG3, version 3, allowed flag byte, SoC, sizes, frame and window, representation, frame counts as rounded-up quotients, wire bytes, and an allowed model. |
| Package.HeaderBurstIsRefused | payloads/uart-firmware-recovery/recovery.c:1831-1832 | Damage within four consecutive of the 144 bytes of a valid header, its CRC included, makes the package unverifiable whatever follows. |
| Package.FlagBytes | payloads/uart-firmware-recovery/recovery.c:1820-1820 | The flag word's bytes: bit 0 set, bits 1 and 2 free, all others clear, and a dry run is bit 1. |
| Package.UnwrittenBytes | payloads/uart-firmware-recovery/recovery.c:1954-1970 | Bytes that no accepted frame writes are erased flash in the image and zeros in the manifest. |
| Package.NonceIsSpecific | payloads/uart-firmware-recovery/recovery.c:1982-1983 | Of the image CRC, the manifest CRC and the challenge any one that differs alone makes another nonce, and the nonce with both CRCs gives the challenge back. |
| Package.ConfirmationReads | payloads/uart-firmware-recovery/recovery.c:1892-1904 | The text to type is ERASEFLASH and eight lower-case digits that read back as the nonce. |
| Package.EraseMeans | payloads/uart-firmware-recovery/recovery.c:1938-1993 | In front of every erase, in the bytes that arrived: an admitted header without the dry-run bit, image and manifest with the CRCs and digests at their places in it, both manifest checks, and a line that spells the xor of both CRCs and the challenge. |
| Package.OutcomeExactly | payloads/uart-firmware-recovery/recovery.c:1938-1996 | Each outcome read off the line and the lines typed: refused exactly without a verifiable package, a dry run exactly with bit 1 of the flag byte, a wait exactly without a line that is the text, and otherwise an erase. |
| Package.Payload.Verify | payloads/uart-firmware-recovery/recovery.c:1938-1976 | Header, manifest, metadata, image and image validation in this order, all about one header, without an erase; it succeeds exactly when the line carries a package that passes every check. |
| Package.Payload.Run | payloads/uart-firmware-recovery/recovery.c:1938-1996 | No erase without the whole chain in front of it, the confirmation answering this run's challenge, no change of flash without an erase, success only with flash equal to the image the header's CRC and digest name; the line, the dry-run flag, the confirmation and the chip decide the outcome exactly, the chip by its history. |
| Package.DeliveryIsVerifiable | payloads/uart-firmware-recovery/recovery.c:1938-1976 | Progress: a package whose frames all get through within the retry rounds passes every check in front of the challenge. |
| KernelImage.HeaderCodec | src/uart_ramloader.c:638-652 | The header codec is a bijection between headers and 32 bytes. |
| KernelImage.BlankedIsZeroCrc | src/uart_ramloader.c:813-816 | Zeroing four raw bytes is packing the header with a zero CRC field. |
| KernelImage.OneBitTest | tools/mkvcoreiii_payload.py:52-53 | The packer's bit trick accepts exactly the powers of two. |
| KernelImage.PackedImageVerifies | tools/mkvcoreiii_payload.py:48-73 | Packing succeeds exactly outside its three refusals; the image is the kernel, the least padding and the given fields, and the verifier finds nothing. |
| KernelImage.NoComplaints | tools/mkvcoreiii_payload.py:101-118 | What an empty list of complaints means. |
| KernelImage.ComplaintsExactly | tools/mkvcoreiii_payload.py:101-118 | Which complaints the verifier makes about which images, read off the bytes. |
| KernelImage.VerifiedImageIsPacked | tools/mkvcoreiii_payload.py:101-118 | The verifier passes an image exactly when packing its payload again gives the same bytes. |
| KernelImage.RefusalIsUnbounded | src/uart_ramloader.c:677-802 | The 32-bit checks decide the placement over the unbounded integers, for every size policy, hard limit and legacy limit; LOAD-OVERFLOW cannot be taken with a hard limit up to 0x6fffffff, nor SIZE-LEGACY with a legacy limit that is not below the hard one. |
| KernelImage.RefusalIsFirst | src/uart_ramloader.c:677-802 | The reason reported is the first in the order of the checks that applies over the unbounded integers, for every reason and policy. |
| KernelImage.CopyAndSum | src/uart_ramloader.c:817-831 | The fused loop copies every line and its CRC is that of the bytes copied. |
| KernelImage.StreamedCrcIsPackersCrc | src/uart_ramloader.c:813-836 | The streamed CRC over the blanked header and the payload is the packer's CRC. |
| KernelImage.BootFlashKernel | src/uart_ramloader.c:654-863 | Outcome and memory for every header, flash content, policy and pair of limits. |
| KernelImage.BootsExactly | src/uart_ramloader.c:654-863 | Read off the bytes: the loader jumps to the entry field exactly when magic, size and placement allow it and, where the CRC policy checks and only there, the CRC is right; a wrong CRC is reported exactly then. |
| KernelImage.MemoryExactly | src/uart_ramloader.c:817-831 | Memory behind a start that the header allows holds the declared bytes rounded up to whole lines at the load address and is otherwise unchanged; without one it is unchanged. |
| KernelImage.KernelBurstIsRefused | src/uart_ramloader.c:832-851 | A bootable image damaged within four consecutive bytes of its lines, or in its CRC field, is reported as a CRC mismatch. |
| KernelImage.BootsExactlyWhatVerifies | src/uart_ramloader.c:693-862 | Under the strict policies an image boots exactly when the host's verifier passes it and its placement is sound. |
| KernelImage.PackedKernelBoots | tools/mkvcoreiii_payload.py:48-73 | Pack, then boot: the loader jumps to the packed entry with the original kernel at the load address. |
| LiveImage.Copy | payloads/uart-liveboot/liveboot.c:115-119 | The byte loop copies a range that does not overlap its target, inside one memory. |
| LiveImage.Prepare | payloads/uart-liveboot/liveboot.c:262-339 | Success exactly for an acceptable staged image; then both parts are unpacked and the plan is right, otherwise memory is unchanged. |
| LiveImage.AcceptableExactly | payloads/uart-liveboot/liveboot.c:262-318 | A staged image is accepted exactly when its bytes say so: SPIM, load address, size, entry and CRC at 0x40000, and hsqs, version 4 and the sizes at 0x300000. |
| LiveImage.PlanExactly | payloads/uart-liveboot/liveboot.c:333-338 | Every field of the plan, read off the bytes. |
| LiveImage.LayoutIsSound | payloads/uart-liveboot/liveboot.c:262-339 | Sources inside the staged image, kernel before root file system, destinations clear of each other and of staging, manifest and execution regions, exact copies, entry inside the copied kernel. |
| LiveImage.PackedKernelIsAcceptable | tools/mkvcoreiii_payload.py:48-73 | A kernel packed for the live loader passes all its kernel checks: acceptance is left to the root file system alone. |
| BootArgs.AddedHolds | payloads/uart-liveboot/liveboot.c:366-377 | Adding a text keeps every earlier pointer and string and appends the new one. |
| BootArgs.AddedKeepsOther | payloads/uart-liveboot/liveboot.c:366-421 | Adding to one area leaves the other area alone. |
| BootArgs.EntriesReadBack | payloads/uart-liveboot/liveboot.c:341-421 | Every pointer leads inside its region to a NUL-terminated string that reads back as the text, directly behind the one before. |
| BootArgs.Arena.AddArg | payloads/uart-liveboot/liveboot.c:366-377 | Success exactly with a slot and the bytes free; then exactly the pointer and the reserved bytes are written. |
| BootArgs.Arena.AddArgs | payloads/uart-liveboot/liveboot.c:459-485 | A run of additions succeeds exactly when all texts fit together. |
| BootArgs.Arena.PutHex | payloads/uart-liveboot/liveboot.c:348-357 | The nibble loop writes the prefixed eight-digit text and its NUL. |
| BootArgs.Arena.AddEnv | payloads/uart-liveboot/liveboot.c:379-421 | Success exactly when the assignment fits; the bytes counted beforehand are the bytes written. |
| BootArgs.CountDigits | payloads/uart-liveboot/liveboot.c:389-394 | The digit count is the length of the decimal text. |
| BootArgs.MakeModelArg | payloads/uart-liveboot/liveboot.c:423-438 | The model argument is built exactly when it fits its buffer with the NUL. |
| BootArgs.ParameterBytes | payloads/uart-liveboot/liveboot.c:468-486 | The bytes of all arguments depend on the model's length only. |
| BootArgs.Prepare | payloads/uart-liveboot/liveboot.c:440-508 | The overflow exit is taken exactly for a model that is not allowed or longer than 30 characters, for every root file system size; otherwise both tables hold exactly the listed texts and end in zero. |
| BootArgs.ParameterTexts | payloads/uart-liveboot/liveboot.c:459-491 | The thirteen arguments and three variables, text for text. |
| BootArgs.FirstPointers | payloads/uart-liveboot/liveboot.c:440-508 | The first argument stands at 0xa0000480 and the first variable at 0xa0000640. |
| BootArgs.KernelReadsParameters | payloads/uart-liveboot/liveboot.c:440-508 | Through its two pointers the kernel reads every text, and the root file system's size parses back from both. |

## Left out

- Package.Payload.Run: the unending confirmation wait is modelled as the lines that arrive; behind the last one the outcome is `Waiting`.
- Uart.Port.AwaitConfirmation: does not state the bytes of the ACK record, its UART error flags or its round number, because the side that reads them is not part of the repository; the acknowledgement is modelled by what it reports.
- Uart.Port.DrainUntilIdle: takes the idle time and the total time limit as marks on the line, not as timer readings.
- Baud.Offer: is stated for 0 < requested < 2^28 and clock < 2^31; the divisor register itself holds 1 to 65535.
- JsonLookup.StringValueIn: takes text as characters without an unescaped NUL, which RFC 8259 forbids in strings; the code would end the C string there.
- Damage to a v2 frame's header: its CRC covers the data only, so the line of `RamTransfer` loses frames and damages data, but does not alter sequence or length.
- The v2 console menu and probe wait in front of the header, and the bytes of reply lines other than the prefixes the host compares.
- The three receive buffers of the recovery payload are separate arrays here, one set for each receiver, instead of globals shared by all objects.
- Time in the v3 receiver: a time limit may pass at any arrival, and the transfer limit after any number of windows, which is a parameter.
- The PMOSLIVE package flow and its BOOTRAM confirmation, which repeat the PMOSREC order without an erase.
- Package.Payload.Verify: takes the list of allowed models and the manifest members that are compared with fixed values or with the header as predicates over the model, the manifest and the header; the two digests, the region magics and the loader's banner are modelled. One of those members, the payload digest, is tested at a byte that is never written when the digest is shorter than 64 characters (payloads/uart-firmware-recovery/recovery.c:635-636), so the code's answer there depends on what the stack held; the predicate stands for one fixed answer.
- Configured sizes other than the payload limits and the counter rate: the DRAM window, the largest v2 payload and the size of the stage-1 loader are taken at their configured defaults.
- The baud test, the feature test and the legacy v2 package header, which combine parts already modelled.
- Bit-banged SPI pins, status-register polling, device identification, cache instructions, resets and jumps; flash operations and jumps are abstract.
- Overlap between the flash window and the load address in `boot_flash_kernel`: they are separate memories here.
- Platform start-up (TLB, PLL, DDR, PHY), register headers, shell scripts, Makefiles, manifest and descriptor writers, and the host's serial set-up.
- Cryptographic strength of SHA-256.
