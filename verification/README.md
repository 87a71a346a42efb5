# Verified models of Chrome EC firmware

This project models the self-contained cores of the Chrome embedded controller firmware in Dafny and
proves what they are for. Code that changes buffers, tables and fields in place is modelled by methods and
classes with the same loops and branches; each is proved against a specification function, and the laws are
proved about that function for all inputs and all runs.

| files | models |
|---|---|
| Field25519, FieldPower, Limbs, FeMultiply, FeSquare, FeSmall, FeCodec, FeInversion, Ladder | X25519: ten signed limbs in radix 2^25.5, carries, encoding, inversion and the Montgomery ladder |
| SourcePorts, ChargeManager | source current allocation; choice of the charge port and the refresh loop |
| BitStrings, Base32Spec, Base32Laws, Base32 | Base32 with a CRC-5 symbol per group |
| CbiList, CbiImage, Cbi | the board information store: tag/size/value list, EEPROM pages, CRC, host command |
| Cec, CecTransfer | CEC receive queue and bit cursor |
| KeyDebounce, KeyboardScan | keyboard ghost detection and debouncing |
| PowerSplit, PowerRails | power shared between lid and base, and the order of applying it |
| BleHopping | data channel hopping |
| Crc32Table, Crc | CRC-32 by table, CRC-8 with a wide accumulator |
| HostPackets, HostCommand | version 3 host packets at both ends, command lookup |
| Hooks | hook dispatch by priority, sleep time |
| MachineInts, ByteNumbers, BitOps, Octets, Extrema, Options | fixed-width integers, bit operations, minimum and maximum, optional values |

Limbs and byte buffers have types with the range of int32_t, int64_t and uint8_t, so that verification
shows that no intermediate leaves its range. `>>` on signed values is floor division, and masking a carry
with kTop38Bits or kTop39Bits is rounding down to a multiple of 2^26 or 2^25.

What the model shows about the code and its comments:

- The comment in common/charge_manager.c says that the youngest port is offered 3 A. The code keeps the holder
  and otherwise promotes the lowest-numbered active port; age plays no part (`SourcePorts.AgeIsForgotten`,
  `SourcePorts.OlderPortIsPromoted`).
- The comment on fe_tobytes bounds the value by p; with the stated limb bounds the quotient ranges over
  -2..1, and the code is right for all of them (`FeCodec.QuotientIsExact`, `FeCodec.QuotientMinusTwo`).
- An empty value stored last in the CBI list is not found by the scan (`CbiList.EmptyLastEntryIsLost`), so the
  store laws are about values of 1 to 255 bytes.
- If 32 keyboard scans take less time than the debounce delay, a key can never settle
  (`KeyDebounce.FastScansNeverSettle`, `KeyDebounce.FastScansExample`); with fewer it settles on time
  (`KeyDebounce.SettlesWithinTheRing`).
- The comment in has_ghosting speaks of or-ing columns; the code, rightly, and-s them.
- A battery estimate below zero can make the lid's current negative; `PowerSplit.RoundExactly` says exactly when, for
  all estimates, and `PowerSplit.LidGoesNegativeOnce` is an input. The base's cap and the desired input current are
  kept for every input.
- The draw between the two settings of set_base_lid_current can exceed both the draw before and the draw after. This
  happens in exactly three cases (`PowerRails.ExceedsExactly`, `PowerRails.EveryRunExceedsExactly`): the base goes up
  first while the lid draws more than recorded; the lid goes up while the base still draws more than it is to, because
  the lid's record is too high or an error of the base is passed over; or a base that kept its old setting is switched
  on. Each has a run that leads to it (`PowerRails.PluggingInOvershoots`,
  `CuttingInputOvershoots`, `StaleLidOvershoots`, `StaleRecordOvershoots`, `SilentBaseOvershoots`,
  `SleepingBaseOvershoots`). The first two cases need no failure: charger_task itself writes the lid's input current when power or
  a battery comes, and makes no record of it. If the charger was
  last changed by a call that got through to its end there, and the base answers, it does not happen
  (`PowerRails.RunsAreSafe`).
- An EEPROM image that passes the checks of do_read_board_info need not be a list. Exactly when getting or setting a
  tag then leaves the buffer is said by `Cbi.Store.GetBoardInfo` and `CbiImage.Store1Sized`; `CbiImage.BrokenImage` is
  such an image. On lists of distinct tags with non-empty values it never happens.
- The size check of pd_host_command_internal does not count the protocol byte: 248 bytes of data pass it and need 257
  bytes of the 256-byte req_buf (`HostCommand.BuildRequest`, `HostCommand.LongestRequest`). Likewise a reply of 255
  bytes, with room for at least 247 bytes of data, needs 257 bytes of resp_buf (`HostCommand.ReceiveResponse`,
  `HostCommand.LongestResponse`). For all other lengths both stay inside.
- The Base32 encoder may look at the byte behind the last source byte, whose bits are masked off;
  `Base32.ReadsBehindExactly` says exactly when, `Base32.EightBitsReadTwoBytes` is an instance, and the caller must make
  that byte readable.

Assumptions: calls into one component are serialised; the board accepts CHARGE_PORT_NONE, as the assertion at
common/charge_manager.c:608 demands; CONFIG_USB_PD_PULLUP differs from
CONFIG_USB_PD_MAX_SINGLE_SOURCE_CURRENT; clocks, EEPROM and bus outcomes and board answers are parameters.

## Model

| member | source | states |
|---|---|---|
| Ladder.X25519ScalarMult | common/curve25519-generic.c:771-821 | For every scalar and point, the 32 output bytes are X25519(scalar, point) of section 5 of RFC 7748: clamped scalar, top bit of the point ignored, ladder with a24 = 121665, then x2 * z2^(p-2), as the canonical residue. The output may be either input array. |
| Ladder.MontgomeryLadder | common/curve25519-generic.c:789-816 | The 255-iteration loop with deferred swaps ends in the state of the reference ladder, which swaps before and after every step; all limb bounds hold in every iteration. |
| Ladder.StepsAgree | common/curve25519-generic.c:796-813 | The step with 121666 (BB + 121666 E) gives the same four field elements as the step of RFC 7748 (AA + 121665 E), for every state. |
| Ladder.StepFromNine | common/curve25519-generic.c:796-813 | A step from 9 and the point at infinity: 6400 / 157681440 is twice the point, and 324 / 36 is 9. |
| FieldPower.PrimeIs | common/curve25519-generic.c:26-36 | The prime is 2^255 - 19. |
| Ladder.Step | common/curve25519-generic.c:796-813 | One step on limbs, from limbs within 1.1*2^25 / 1.1*2^24 to limbs within the same bounds, is the RFC step on their residues. |
| Ladder.SwapTwice | common/curve25519-generic.c:789-795 | Swapping by the exclusive or of the last bit and this bit is the same as undoing the last swap and doing this one. |
| Ladder.ClampValue | common/curve25519-generic.c:778-782 | The byte masks on the first and last byte are the number-level decoding of the scalar. |
| Ladder.LittleEndianBit | common/curve25519-generic.c:791-791 | Bit t of the little-endian number is bit t mod 8 of byte t div 8. |
| Ladder.ScalarBit | common/curve25519-generic.c:791-791 | The bit that an iteration extracts is bit pos of the decoded scalar. |
| Ladder.Finish | common/curve25519-generic.c:818-820 | The result is x2 * z2^(p-2) as the unique number below p. |
| FeMultiply.FeMul | common/curve25519-generic.c:250-491 | For limbs within 1.65*2^26 / 1.65*2^25 the result is the product of the residues modulo 2^255 - 19, with limbs within 1.01*2^25 / 1.01*2^24; every 32- and 64-bit intermediate is in range; the output may alias an input. |
| FeMultiply.ProductIsProduct | common/curve25519-generic.c:277-421 | The ten column sums, with their factors 2, 19 and 38, are the product of the two radix-2^25.5 numbers modulo p. |
| FeMultiply.ReduceProduct | common/curve25519-generic.c:433-479 | The carry chain keeps the residue and brings columns of the stated size within 1.01*2^25 / 1.01*2^24. |
| FeSquare.FeSq | common/curve25519-generic.c:493-632 | Squaring with shared products gives the residue of the square, same bounds, no overflow. |
| FeSmall.FeAdd | common/curve25519-generic.c:218-232 | The sum of the residues, within 1.1*2^26 / 1.1*2^25 for inputs within half of that. |
| FeSmall.FeSub | common/curve25519-generic.c:234-248 | The difference of the residues, within the same bounds. |
| FeSmall.FeMul121666 | common/curve25519-generic.c:707-769 | 121666 times the residue, with limbs reduced to 1.1*2^25 / 1.1*2^24. |
| FeSmall.FeCswap | common/curve25519-generic.c:692-705 | Exchanges two elements if the flag is 1 and leaves both alone if it is 0, through masked exclusive ors on 32-bit words. |
| FeCodec.FeFromBytes | common/curve25519-generic.c:55-100 | The element is the little-endian number modulo 2^255, modulo p; limbs within bounds. |
| FeCodec.FeToBytes | common/curve25519-generic.c:102-202 | The bytes are the little-endian form of the residue in [0, p), for all limbs within 1.1*2^26 / 1.1*2^25. |
| FeCodec.QuotientIsExact | common/curve25519-generic.c:102-147 | The quotient estimated from the top limb and the floor chain is exactly floor(value / p); it lies in -2..1. |
| FeCodec.QuotientMinusTwo | common/curve25519-generic.c:102-115 | Limbs within the stated bounds whose value is below -p and whose quotient is -2. |
| FeCodec.TopCarryIsQuotient | common/curve25519-generic.c:149-168 | Adding 19 q and dropping the carry out of the top limb leaves exactly value - q p. |
| FeCodec.EncodingIsCanonical | common/curve25519-generic.c:102-202 | Two encodings are equal byte for byte exactly when the residues are equal, and decoding an encoding returns an element of the same residue. |
| FeInversion.FeInvert | common/curve25519-generic.c:634-690 | The chain of squarings and products computes z^(p-2), p - 2 = 2^255 - 21, for every z, with all limb bounds kept; the output may be z. |
| FeInversion.SquareTimes | common/curve25519-generic.c:640-686 | A squaring loop of n rounds multiplies the exponent by 2^n. |
| FieldPower.SquareNPower | common/curve25519-generic.c:640-686 | n squarings of z^e give z^(e * 2^n), for all n. |
| SourcePorts.EveryRunKeepsInv | common/charge_manager.c:1089-1119 | After any sequence of source_port calls, if some port is active then exactly one port holds the maximum Rp, it is active, and all others hold the default. |
| SourcePorts.StepKeepsInv | common/charge_manager.c:1061-1119 | One call keeps that; a holder that stays active stays the holder, else the lowest active port takes over; the last one leaving offers the maximum to every port. |
| SourcePorts.TotalWithinBudget | common/charge_manager.c:91-95 | In every reachable state the active ports together draw at most N*1500 + 1500 mA. |
| SourcePorts.TotalIsExact | common/charge_manager.c:91-95 | In every reachable state the active ports draw exactly 3000 mA and the default of 1500 or 500 mA for each but one, or nothing when none is active. |
| SourcePorts.AgeIsForgotten | common/charge_manager.c:1061-1119 | Which port is promoted depends only on port numbers: states with the same active ports and holder are equal, and the lowest active port takes over. |
| SourcePorts.OlderPortIsPromoted | common/charge_manager.c:1061-1119 | A run that enables ports 0, 1 and 2 and then disables 0: port 1 gets the maximum and the youngest, port 2, does not. |
| SourcePorts.PdoAgreesWithRp | common/charge_manager.c:1121-1130 | With an active source, a port is offered the maximum PDO exactly when its stored Rp is the maximum; with none, every port is. |
| SourcePorts.Allocator.CanSupplyMaxCurrent | common/charge_manager.c:1061-1087 | True exactly when the port is, or would be, the only source, and no other active port holds the maximum. |
| SourcePorts.Allocator.SourcePort | common/charge_manager.c:1089-1119 | The in-place loop, in which each decision sees the ones before, is the step function that the run laws are about. |
| SourcePorts.Allocator.GetSourcePdo | common/charge_manager.c:1121-1130 | In every state that satisfies the invariant the PDO choice agrees with the stored Rp. |
| ChargeManager.Manager.GetBestChargePort | common/charge_manager.c:488-569 | The choice is the unique best candidate: priority, then power, then the active port, then position; once the override port has charge only its suppliers compete; none when charging is off or nothing qualifies. |
| ChargeManager.Manager.BestHasCharge | common/charge_manager.c:500-535 | A best choice has a current and a voltage, and its port is dedicated, overridden to, or spoofed as such; with charging off there is none. |
| ChargeManager.Manager.RivalLoses | common/charge_manager.c:537-562 | Any other supplier that may be chosen has no lower priority number and, at the same one, no higher power; among equals the last supplier of the active port wins, or else the first of all; the override port beats all others. |
| ChargeManager.Manager.PrefersIsStrict | common/charge_manager.c:537-562 | The order of preference is strict and total. |
| ChargeManager.Manager.BestIsUnique | common/charge_manager.c:488-569 | No two different choices can both be best. |
| ChargeManager.Manager.GetCeil | common/charge_manager.c:466-479 | The least ceiling that any requestor set, or none. |
| ChargeManager.Manager.Hunt | common/charge_manager.c:588-618 | Terminates for every board behaviour that accepts "no port", because each rejection removes a port with charge; the ports it asked for in turn, without repetition, are the ones that were refused, each at its own request, and only they lose their charge; the next request was accepted; returns the best of what remains. |
| ChargeManager.Manager.Refresh | common/charge_manager.c:575-740 | The whole refresh: hunt, override reset, current at most the available current and outside safe mode at most every ceiling and no lower than needed, and which ports get a new power request; safe mode with nothing to choose changes nothing else. |
| Base32Laws.RoundTrip | common/base32.c:49-175 | For every bit string and group size that encode accepts, decoding the encoded string, with separators put in anywhere, returns exactly the bits. |
| Base32Laws.RoundTripAnyLimit | common/base32.c:113-175 | The same for every room: all padded bits up to the limit, and failure exactly when CRCs are on and the limit falls before the last symbol. |
| Base32Laws.EncodedIsClean | common/base32.c:73-106 | What encode emits has no separators and no NUL, so it can be decoded as it is. |
| Base32Laws.SeparatorsDoNotMatter | common/base32.c:122-123 | A string decodes like its symbols alone. |
| Base32Laws.OneWrongSymbolIsCaught | common/base32.c:113-175 | With CRCs on, a string that decodes no longer decodes when any one symbol, data or check, is changed to any other character but a separator or NUL. |
| Base32Laws.DecodeSymInverts | common/base32.c:28-47 | Looking up an encoded letter gives its symbol. |
| Base32Laws.AlphabetIs | common/base32.c:28-29 | The letters of the 32 symbols, one by one. |
| Base32Laws.SeparatorsAre | common/base32.c:122-123 | Blanks, tabs, line ends and dashes, and nothing else, are passed over. |
| Base32Laws.EncodeGroup | common/base32.c:73-106 | The letters of a group, one for each five bits with the first bit highest, are followed by the letter of the CRC over them. |
| Base32Laws.OneIsBQ | common/base32.c:49-111 | The five bits 00001 with groups of one are written BQ. |
| Base32Laws.EncodeUndoesDecode | common/base32.c:49-175 | A string that decodes, with room for all its bits, is, but for separators, the encoding of these bits. |
| Base32Spec.CrcSeparates | common/base32.c:12-26 | If exactly one of symbol and running CRC differs, the next CRCs differ. |
| Base32Spec.Crc5IsDivision | common/base32.c:12-26 | For every symbol and running CRC the tables give eight steps of reflected division by x^5 + x^3 + 1 of their exclusive or. |
| Base32Spec.Crc5IsPermutation | common/base32.c:12-26 | The combined CRC tables are a permutation of the 32 values. |
| Base32.Base32Encode | common/base32.c:49-111 | Succeeds exactly when the symbols fill whole groups and destination has room; then writes the encoding of the first n bits and a NUL; otherwise writes only a leading NUL. |
| Base32.EncodedLength | common/base32.c:61-71 | The length check counts exactly the symbols and check symbols that the loop emits. |
| Base32.BytesReadIsExact | common/base32.c:73-88 | The readable bytes that are asked of the caller are what the loop needs: enough for each symbol and just so for the last. |
| Base32.ReadsBehindExactly | common/base32.c:83-87 | The encoder looks behind the bytes that the bits fill exactly when the guard of the borrowed byte holds for the last symbol and that symbol starts in the last byte. |
| Base32.EightBitsReadTwoBytes | common/base32.c:83-87 | 8 bits, in one byte, make it look at a second. |
| Base32.NextSymbol | common/base32.c:73-94 | The shifts, the borrowed next byte and the final mask yield the next five bits padded with zeros. |
| Base32.Base32Decode | common/base32.c:113-175 | Returns the number of bits decoded, which are the first bits of dest, or -1 exactly when the string is bad. |
| Base32.AppendSymbol | common/base32.c:149-167 | Appends the leading bits of a symbol to the bit string in dest, across a byte border. |
| CbiList.SetIsMapUpdate | common/cbi.c:175-200 | Set then get returns the value, or nothing if the room did not last; no other tag changes, even then; tags stay distinct. |
| CbiList.FindIsPosition | common/cbi.c:44-56 | The byte scan finds the first entry with the tag, unless that is the last entry and empty. |
| CbiList.EmptyLastEntryIsLost | common/cbi.c:44-56 | An empty value stored last is not found again. |
| CbiList.SerializeInjective | common/cbi.c:33-42 | The bytes of a list determine the list. |
| Cbi.Store.FindTag | common/cbi.c:44-56 | On any image: the offset that the scan finds, or -1. |
| CbiImage.FindInImage | common/cbi.c:44-56 | On a list the scan finds the entry with the tag, whose size byte and value bytes are those of the list and which ends within it. |
| Cbi.Store.RemoveTag | common/cbi.c:164-173 | The bytes after the move and the smaller total, for any entry that ends within the list. |
| CbiImage.RemovedImage | common/cbi.c:164-173 | After the move the buffer holds the list without that entry and exactly fills total_size. |
| Cbi.Store.SetBoardInfo | common/cbi.c:175-200 | On any image and for any value: the resulting bytes, exactly when the buffer is left, and the header untouched but for the size; on a list of distinct tags with non-empty values, the update of the list. |
| CbiImage.Store1RefinesSet | common/cbi.c:175-200 | On such a list, setting a non-empty value does to the image what it does to the list, overwriting in place or removing and appending, and never leaves the buffer. |
| CbiImage.Store1Sized | common/cbi.c:164-200 | On any image: the size stays in bounds, and the buffer is left exactly when the entry found has another size and does not end within the list, or has that size and does not end within the buffer. |
| CbiImage.AcceptableExactly | common/cbi.c:82-126 | An image is accepted exactly when it starts with the magic, its major version is 0, its size is from 8 to 256, and the bytes from 4 to its size followed by byte 3 have CRC-8 zero. |
| CbiImage.OneByteIsRefused | common/cbi.c:82-126 | An accepted image with any one byte changed, up to its size and other than in its size, is refused: neither header nor list may be damaged. |
| CbiImage.SmallImageIsAcceptable | common/cbi.c:82-126 | The image 43 42 49 AD 00 00 0B 00 00 01 01 is accepted. |
| CbiImage.PagesCover | common/cbi.c:209-232 | As many pages of 16 bytes are written as the size fills, the last perhaps in part. |
| CbiImage.BrokenImage | common/cbi.c:82-200 | An image that the checks accept, with a head of a 200-byte entry at offset 250: to get or to set that tag leaves the buffer. |
| Cbi.Store.GetBoardInfo | common/cbi.c:141-162 | Reads the image if need be; on any image, exactly when each result is given, which bytes are copied, and that the rest of the room is cleared; on a list, the value is the one that belongs to the tag and nothing outside the buffer is read. |
| CbiImage.ValueInImage | common/cbi.c:141-162 | On a list, what is found and copied is what the lookup gives, inside the buffer. |
| Cbi.Store.Seal | common/cbi.c:313-317 | On any image: version and CRC are set; the size and all behind the header stay. |
| Cbi.Store.WriteBoardInfo | common/cbi.c:207-236 | Success exactly when not protected and every page write succeeds; then the EEPROM starts with the whole image and is unchanged behind it. A failure leaves exactly the pages before the first one that fails. |
| Cbi.Store.DoReadBoardInfo | common/cbi.c:82-126 | Success exactly when both reads succeed and the EEPROM has magic, version, size and CRC right; then the image is copied. |
| Cbi.Store.ReadBoardInfo | common/cbi.c:128-139 | At most two attempts, then the cached verdict; on success RAM holds the EEPROM image, and the list in it if it is one. |
| Cbi.Store.HcCbiSet | common/cbi.c:280-328 | On any image: exactly when each response is given, and that after a successful synchronised set the EEPROM holds an acceptable image with valid CRC. On a list: what list results, also after a failed write, and that the EEPROM holds exactly that list. |
| Cbi.Store.Reload | common/cbi.c:82-139 | Reading such an image back gives the very same list. |
| CbiImage.WrittenImage | common/cbi.c:207-236 | What the page writes leave in the EEPROM passes the checks and holds the same list. |
| Cec.RxQueue.Push | common/cec.c:64-102 | The byte ring refines a queue of messages: success exactly for 1 to 16 bytes with used + len + 1 < 20, and then the message is appended; a failed push leaves every queued message intact. |
| Cec.FlatLength | common/cec.c:91-134 | Each queued message takes its own bytes and one more. |
| Cec.RxQueue.Pop | common/cec.c:104-137 | Returns the oldest message unchanged, across wrap-around, and removes it; fails exactly on an empty queue. |
| Cec.RxQueue.Flush | common/cec.c:56-62 | Empties the queue. |
| Cec.Head | common/cec.c:104-137 | The bytes at the read offset are the length and content of the oldest message, and the others follow. |
| CecTransfer.MessageArrives | common/cec.c:19-47 | A message read bit by bit with the cursor and written bit by bit with another arrives unchanged; bytes behind it stay. |
| CecTransfer.BitAtIs | common/cec.c:19-37 | The most significant bit of a byte comes first. |
| CecTransfer.Transfer.SetBit | common/cec.c:27-37 | Sets the bit at the cursor and no other; nothing past the buffer. |
| CecTransfer.Transfer.GetBit | common/cec.c:19-25 | The bit at the cursor, most significant first; 0 past the buffer. |
| CecTransfer.Transfer.IncBit | common/cec.c:39-47 | Moves the cursor one bit; it stays meaningful up to the end of the buffer plus one byte. |
| CecTransfer.Transfer.IsEom | common/cec.c:49-54 | True exactly at bit 8 * len. |
| KeyDebounce.FlipMeansHeld | common/keyboard_scan.c:456-528 | A debounced key flips only at an accepted scan and only when every accepted scan over at least the time for its value, down for a press and up for a release, read the new value, however often the 32 slots were reused and the 32-bit clock wrapped. |
| KeyDebounce.EveryRunKeepsInv | common/keyboard_scan.c:456-528 | After any run, debounced and previous value agree on a key that is not debouncing, and a debouncing key has read its previous value ever since its edge. |
| KeyDebounce.SettlesExactly | common/keyboard_scan.c:493-516 | After an edge to a value that then holds, the key is still debouncing, with its old value, exactly while no accepted scan has measured the delay; afterwards it has settled. |
| KeyDebounce.SettlesWithinTheRing | common/keyboard_scan.c:493-516 | Within one turn of the ring, holding the new value for the time for it, down for a press and up for a release, settles the key. |
| KeyDebounce.FastScansNeverSettle | common/keyboard_scan.c:493-516 | If every 32 consecutive scans take less than the delay, the key never settles, because its slot is always rewritten first. |
| KeyDebounce.FastScansExample | common/keyboard_scan.c:493-516 | 40 scans 1 us apart, a key held throughout, and a delay of 36 us that never ends. |
| KeyDebounce.PressSettlesFirst | common/keyboard_scan.c:56-60 | With the times 9 ms and 30 ms a press held for 12 ms has settled and a release held for 12 ms has not. |
| KeyDebounce.RingOfThirtyTwo | common/keyboard_scan.c:493-516 | With scans 1 us apart a delay of 31 us ends at the 32nd scan and one of 32 us never does. |
| KeyDebounce.TimesWrap | common/keyboard_scan.c:506-509 | A key held over two scans 2^32 - 1 us apart settles, and one held for 2^32 us does not. |
| KeyDebounce.ElapsedBound | common/keyboard_scan.c:506-509 | The measured time never exceeds the true one and is exact while the slot is the edge's own. |
| KeyboardScan.HasGhosting | common/keyboard_scan.c:423-447 | True exactly when two columns share two pressed rows. |
| KeyboardScan.SharesIsTwoBits | common/keyboard_scan.c:431-442 | common & (common - 1) is non-zero exactly when two columns have two rows in common. |
| KeyboardScan.Scanner.CheckKeysChanged | common/keyboard_scan.c:456-528 | One scan makes every key take its debouncing step, or none if the matrix is ghosting; the reported changes are exactly the keys that flipped; every key stays where its own run of scans leads; the result says whether any key was pressed. |
| KeyboardScan.Scanner.constructor | common/keyboard_scan.c:683-684 | The first matrix is taken as debounced and previous state; every key is at the start of its run. |
| KeyboardScan.SettleRows | common/keyboard_scan.c:494-527 | Which rows of a column settle, their new values, and that exactly the flipped rows are reported once, in order. |
| KeyboardScan.RingStep | common/keyboard_scan.c:465-468 | Storing a scan time keeps the ring: each past scan's slot holds the time of the last scan that used it. |
| KeyboardScan.EveryKeyKeepsInv | common/keyboard_scan.c:456-528 | In every reachable state of the matrix, debounced and previous matrix agree on keys not debouncing. |
| KeyboardScan.EveryFlipWasHeld | common/keyboard_scan.c:456-528 | The flip law for any key of the whole matrix. |
| PowerSplit.SplitConserves | common/charge_state_v2.c:251-256 | Base and lid shares sum to the total power, for any estimates at all. |
| PowerSplit.SplitByPriority | common/charge_state_v2.c:664-682 | With non-negative estimates: base system first, base battery only what lid system and battery leave, lid the rest. |
| PowerSplit.CurrentsExactly | common/charge_state_v2.c:685-692 | For any two shares of the input power: the base's current is at most 2000 mA, both together at most the desired input current, and exactly when each of them is negative, with the cap taken into account. |
| PowerSplit.SplitExactly | common/charge_state_v2.c:664-680 | Both shares in closed form for any estimates at all, and exactly when one of them is negative. |
| PowerSplit.SmoothValue | common/charge_state_v2.c:426-438 | The smoothed value lies between the old one and the new one and is never negative. |
| PowerSplit.SmoothExactly | common/charge_state_v2.c:426-438 | From zero on, 128 times the move differs from the weighted difference by less than 128 and does not go beyond it. |
| PowerSplit.EstimateExactly | common/charge_state_v2.c:625-648 | An estimate is at most what the battery asks for; a power that does not fall is taken as it is, and one that falls moves a known estimate by 1/128 of the difference, cut towards zero. |
| PowerSplit.SystemPowerExactly | common/charge_state_v2.c:607-611 | The system power moves by a quarter of the difference, cut towards zero. |
| PowerSplit.MarginIsAQuarter | common/charge_state_v2.c:440-446 | The margin of every battery power is a quarter of it, cut towards zero. |
| PowerSplit.ChargingShares | common/charge_state_v2.c:664-680 | The allocation steps on a shrinking budget give the split and exhaust the budget, for any estimates. |
| PowerSplit.RoundExactly | common/charge_state_v2.c:664-692 | From estimates to currents: the two bounds always, and a negative current of base or lid exactly under a condition on estimates, power, voltage and cap. |
| PowerSplit.SmallEstimates | common/charge_state_v2.c:664-692 | With estimates of -1 mW or more the base's current is never negative, and the lid's not above 1000 mV or with a lid battery estimate of 0 or more. |
| PowerSplit.LidGoesNegativeOnce | common/charge_state_v2.c:664-692 | A first round at 1 mA and 1000 mV that gives the base 2 mA and the lid -1 mA. |
| PowerSplit.CapOutweighsShare | common/charge_state_v2.c:685-692 | A first round with the same negative share of the lid whose current is 1000 mA, because of the cap. |
| PowerSplit.Allocator.AllocateCharging | common/charge_state_v2.c:607-698 | A charging round for any estimates and batteries: the base within its cap, both within the desired current, and exactly when either current is negative; with non-negative battery maxima the estimates stay at -1 mW or above over any run. |
| PowerRails.OrderIsSafe | common/charge_state_v2.c:370-382 | For all currents the draw between the two settings exceeds the larger of the draws before and after only when both sides are to give and the lid gives less than before; the other order would, whenever one side goes down and the other up. |
| PowerRails.CarriedOut | common/charge_state_v2.c:351-424 | A call carried out to its end, for currents of either sign: the lid has its current and the record of it; a base that answers has its own and the record of it, any other keeps what it had; the switch is on if it was or if a base is connected whose current is not 0. |
| PowerRails.BaseFails | common/charge_state_v2.c:384-388 | A base that has answered and now fails: nothing happens, unless the lid comes first and has its current. |
| PowerRails.ChargerFails | common/charge_state_v2.c:390-410 | The charger fails: the record of the lid and the switch stay, only a base that comes first has its current, and the charger keeps what it had but for the calls that succeeded. |
| PowerRails.BaseGives | common/charge_state_v2.c:556-563 | A run in which a base that has just come gives 1982 mA to the lid. |
| PowerRails.LidGives | common/charge_state_v2.c:565-588 | A run in which the lid gives 118 mA and the base takes 108. |
| PowerRails.ExceedsExactly | common/charge_state_v2.c:351-424 | Whatever is recorded and whichever calls fail: a call draws more on its way than before and after it in exactly three cases, stated on recorded and actual values. |
| PowerRails.EveryRunKeepsInv | common/charge_state_v2.c:259-424 | After any run of calls, base changes, power-offs and writes of the charger elsewhere, an absent base has no record, and a base that answers and is switched on has the recorded setting. |
| PowerRails.EveryRunExceedsExactly | common/charge_state_v2.c:351-424 | After any such run, a call draws too much on its way in exactly those three cases. |
| PowerRails.LidIsRecorded | common/charge_state_v2.c:390-410 | If the last change of the charger was a call that got through to its end there, the recorded lid current is the actual one. |
| PowerRails.RunsExceedExactly | common/charge_state_v2.c:351-424 | After such a run a call draws too much exactly when a base that has not answered has a setting above the new one, its error is passed over, and the lid or the switch goes up. |
| PowerRails.RunsAreSafe | common/charge_state_v2.c:351-424 | After such a run every state of a call to a base that answers is within the larger of the draws before and after. |
| PowerRails.AnsweringBaseExceedsExactly | common/charge_state_v2.c:351-424 | After any run at all, with a base that answers: exactly the calls that raise one side before the other, whose record is wrong, goes down. |
| PowerRails.PluggingInOvershoots | common/charge_state_v2.c:1560-1580 | A run in which nothing fails: after a suspend, charger_task gives the lid 3000 mA when power is plugged in, without a record, and the next call raises the base first: 3500 mA between 3000 and 3000. |
| PowerRails.CuttingInputOvershoots | common/charge_state_v2.c:1596-1610 | A run in which nothing fails: charger_task lowers the input limit without a record, and the next call raises the lid first while the base still draws 1000 mA. |
| PowerRails.StaleRecordOvershoots | common/charge_state_v2.c:390-410 | A run with one failed charge request, after which a fully successful call draws 1800 mA between 1500 and 1000. |
| PowerRails.StaleLidOvershoots | common/charge_state_v2.c:390-410 | A run with one failed charge request, after which the base is raised first although the lid draws more than recorded. |
| PowerRails.SleepingBaseOvershoots | common/charge_state_v2.c:528-541 | A run in which the base does not answer as the system goes off and is cut off with its setting; the next error is passed over and the switch turned on. |
| PowerRails.SilentBaseOvershoots | common/charge_state_v2.c:322-340 | A run with a base that never answers and keeps the setting it came with. |
| PowerRails.Rails.SetBaseLidCurrent | common/charge_state_v2.c:351-424 | From any state and with any failures, the code passes through exactly the states that these laws are about, and reports when all was done. |
| PowerRails.Rails.SetLidCurrent | common/charge_state_v2.c:390-410 | The states the lid passes through; the record changes only when all of the charger calls succeed. |
| PowerRails.Rails.SetBaseCurrent | common/charge_state_v2.c:322-341 | An error counts only from a base that has answered; a success makes the record and the setting agree. |
| PowerRails.Rails.UpdateBase | common/charge_state_v2.c:259-280 | What a base that goes or comes resets. |
| PowerRails.Rails.SystemIsOff | common/charge_state_v2.c:528-541 | A base that answers is put to sleep, cut off and taken for silent. |
| PowerRails.Rails.WriteInputCurrent | common/charge_state_v2.c:1574-1608 | The input limit is written without a record of it. |
| BleHopping.EveryChannelOnce | common/bluetooth_le.c:68-80 | Any 37 consecutive calls visit each unmapped channel exactly once, for every start and hop increment from 5 to 16, so every used channel is returned. |
| BleHopping.CallReaches | common/bluetooth_le.c:68-71 | The call number computed from the inverse of the hop increment reaches the wanted channel. |
| BleHopping.CallsDiffer | common/bluetooth_le.c:68-71 | Calls fewer than 37 apart never share an unmapped channel. |
| BleHopping.UsedBelowIsComplete | common/bluetooth_le.c:52-65 | The remapping table lists exactly the used channels in increasing order. |
| BleHopping.UsedIsBit | common/bluetooth_le.c:62-64 | A channel is used when its bit in the map is set, the lowest bit of each byte first. |
| BleHopping.RemainderCounts | common/bluetooth_le.c:73-79 | An unused channel goes to the used one with as many used channels below it as its remainder by the number of used channels. |
| BleHopping.RemappingTable.constructor | common/bluetooth_le.c:52-65 | The table after filling. |
| BleHopping.RemappingTable.GetNextDataChannel | common/bluetooth_le.c:68-80 | The channel returned is used, and is the unmapped one if that is used, else the one at its remainder. |
| Crc.TableIsDivision | common/crc.c:13-57 | Each of the 256 table entries is eight steps of reflected division by 0x04C11DB7 of its index. |
| Crc.TableStep | common/crc.c:59-71 | One table look-up and shift is eight division steps, for every state. |
| Crc.Crc32Hash | common/crc.c:59-71 | The table-driven hash equals bit-by-bit division, for every state and byte sequence. |
| Crc.Hash32Concat | common/crc.c:59-71 | Hashing a concatenation is hashing one part after the other. |
| Crc.Context.Hash16 | common/crc.c:83-86 | Equals hashing the two little-endian bytes one at a time. |
| Crc.Context.HashWord | common/crc.c:78-81 | Equals hashing the four little-endian bytes one at a time. |
| Crc.Context.Hash8 | common/crc.c:88-91 | Hashes one byte. |
| Crc.BytesOfWord | common/crc.c:73-91 | A 16-bit value is its low byte and 256 times its high byte. |
| Crc.HalvesOfWord | common/crc.c:73-81 | A 32-bit value is its low half and 65536 times its high half. |
| Crc.CheckValue32 | common/crc.c:59-71 | The CRC-32 of the digits 1 to 9 is CBF43926. |
| Crc.Crc8Arg | common/crc8.c:13-28 | The unmasked wide accumulator computes the 8-bit CRC with polynomial 0x07. |
| Crc.Crc8Concat | common/crc8.c:13-28 | The CRC composes over concatenation. |
| Crc.Crc8Linear | common/crc8.c:13-28 | The CRC is linear for data of equal length. |
| Crc.CrcOfDataAndCrc | common/crc8.c:13-28 | Data followed by its own CRC has CRC zero. |
| Crc.OneByteIsCaught | common/crc8.c:13-28 | Data that differ in one byte have different CRCs. |
| Crc.Crc8Separates | common/crc8.c:13-28 | Different start values stay different over any data. |
| Crc.ZeroMeansCrc | common/crc8.c:13-28 | Data and a byte have CRC zero exactly when the byte is the CRC of the data. |
| Crc.CheckValue8 | common/crc8.c:13-28 | The CRC-8 of the digits 1 to 9 is F4. |
| HostPackets.RequestIsAccepted | common/host_command_master.c:46-75 | Every request is accepted by the receiver with the same command (16 bits), version (8 bits) and parameters, also with padding behind it. |
| HostPackets.RequestSumsToZero | common/host_command_master.c:57-72 | The bytes of a request sum to zero modulo 256. |
| HostPackets.ResponseSumsToZero | common/host_command.c:220-236 | So do the bytes of a response. |
| HostPackets.ResponseArrives | common/host_command_master.c:115-160 | A response that fits passes the master's checks and yields its data, or the negative of its result. |
| HostPackets.OneByteIsCaught | common/host_command.c:256-361 | An accepted packet with one byte changed, other than in its length, is refused. |
| HostPackets.ParseExactly | common/host_command.c:256-361 | A request is accepted exactly when it ends within the received size, the size fits the buffer, the version is 3 and its bytes sum to zero modulo 256; then its fields are the stated bytes, and a wrong sum alone gives result 7. |
| HostPackets.ParseCodes | common/host_command.c:256-361 | Which result each failing test gives, the first deciding. |
| HostPackets.HelloRequest | common/host_command_master.c:46-75 | The request for command 1 with four bytes of data, byte by byte. |
| HostPackets.CheckExactly | common/host_command_master.c:93-160 | The master takes a response exactly when the bus result is 0, the packet has 8 bytes and at most 8 more than there is room for, the version is 3, the reserved word is 0, the data length fits and the packet sums to zero modulo 256; its data are what follows the header. |
| HostPackets.CheckCodes | common/host_command_master.c:93-142 | Which code each failing test before the checksum gives, the first deciding. |
| HostPackets.ChecksumCodes | common/host_command_master.c:142-160 | A packet that passes those tests and whose sum is wrong gives -7; one shorter than its header, with the right sum, its length less 8. |
| HostPackets.OneByteOfResponseIsCaught | common/host_command_master.c:115-160 | A response that is taken is refused with any one byte of its packet changed. |
| HostPackets.SmallResponse | common/host_command_master.c:115-160 | The response 03 F5 00 00 01 00 00 00 07 yields 7, and with 08 for 07 it gives -7. |
| HostCommand.BuildRequest | common/host_command_master.c:39-75 | For every length of data: refused exactly above 248 bytes; a write to index 256, behind the array, exactly at 248; otherwise the buffer holds the protocol byte and the request. |
| HostCommand.RequestDoesNotFit | common/host_command_master.c:45-47 | 248 is the one length that the size check admits and the array has no room for. |
| HostCommand.LongestRequest | common/host_command_master.c:39-75 | With 248 bytes of data, protocol byte and packet are 257 bytes. |
| HostCommand.ReceiveResponse | common/host_command_master.c:81-160 | For every reply and any bus failure: the return code and the data copied to the caller; the second transfer leaves the array exactly for a length of 255 and room for at least 247 bytes. |
| HostCommand.ResponseDoesNotFit | common/host_command_master.c:93-108 | Exactly when the second transfer, once admitted, leaves the array. |
| HostCommand.LongestResponse | common/host_command_master.c:93-108 | A reply of 255 bytes to a caller with room for 247. |
| HostCommand.HostPacketReceive | common/host_command.c:256-361 | The result, or the error for each way a packet can be bad, with and without a temporary buffer; the copy equals the original. |
| HostCommand.HostPacketRespond | common/host_command.c:203-241 | The packet sent, with clipping of errors and oversized data; the handler's data is not moved. |
| HostCommand.CheckResponse | common/host_command_master.c:115-160 | The checks on the received bytes, and the copy to the caller. |
| HostCommand.FindHostCommand | common/host_command.c:379-413 | On a strictly sorted table the binary search finds what the linear scan finds. |
| HostCommand.LinearFindMeans | common/host_command.c:404-411 | The linear scan finds the first entry with the command, or none. |
| Hooks.HookNotify | common/hooks.c:100-132 | Terminates and calls every hook exactly once, in the order of a stable sort by priority, for any table with priorities from 1 to 9999. |
| Hooks.StableOrderIsUnique | common/hooks.c:100-132 | There is only one such order. |
| Hooks.LowestAbove | common/hooks.c:118-122 | The lowest priority above the last one, or 10000. |
| Hooks.CallPriority | common/hooks.c:125-131 | Extends the calls by the hooks of one priority in table order. |
| Hooks.SleepTime | common/hooks.c:223-239 | The sleep ends at the next tick or the first pending deferred call, whichever is first. |

## Left out

- Hardware access, console output, logging, LEDs and the host command wrappers: no property of their own.
- Task preemption and interrupts: steps are sequential; the mutex in common/cec.c is not modelled.
- Primality of p, the curve's group law, secrecy and constant time: the inverse is stated as z^(p-2).
- ChargeManager.Manager.Refresh: the charge ramp, the dual-role port configuration and the log entries are not modelled, because they only pass values on.
- charge_manager_make_change, charge_manager_set_override and the timers around them: they set fields that the refresh then reads.
- Base32.Base32Encode: a negative group size is not modelled; lengths are natural numbers.
- Base32.Base32Decode: the contents of dest are not described when the string is bad, because the code leaves a part of the decoded bits there.
- Cbi.Store.HcCbiSet: tags are bytes, as in the stored entry; tags of more than 8 bits in the host command are not modelled. What list results is said for values of 1 to 255 bytes, which include/cros_board_info.h:85 demands; after an access behind the buffer the model stops.
- Cbi.Store.GetBoardInfo: where a value does not end within the buffer, the model stops.
- CecTransfer.Transfer.IncBit: past the last byte the bit counter of the code runs on from 8; the model says when the cursor stops being a position.
- KeyboardScan.Scanner.CheckKeysChanged: runtime keys, noise suppression and the state dump that follow the debouncing loop are not modelled.
- PowerSplit.Allocator.AllocateCharging: integers are unbounded, so power of more than 2147483 mW, where 1000 times the power leaves 32 bits, is not modelled faithfully; the discharging and the manual branches would only add easy members.
- PowerRails.Rails.SetBaseLidCurrent: the charge permissions are not modelled. A current is what a side is allowed to draw. A setting that the base does not acknowledge is taken not to be applied; a base that comes, wakes up or is reset may have any setting.
- HostCommand.BuildRequest: the model stops at the first index behind the array; negative sizes are not modelled.
- HostCommand.ReceiveResponse: likewise.
- Hooks.SleepTime: one evaluation of the sleep time; calling deferred routines and the endless task loop are not modelled.
- pack_adv and unpack_adv in common/bluetooth_le.c: advertising structures are not modelled.
- The protocol stacks, sensor fusion, fingerprint, flash and verified boot code of the repository.
