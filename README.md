# BigUnsigned and the door monitor's decision logic, in Dafny

This project models the arbitrary-precision unsigned integer engine
`BigUnsigned` (bigmath.h, bigmath.cpp) of a door-monitoring firmware, and the
sequential decision logic of the firmware's main program (main.cpp).

A number is a sequence of 32-bit words, least significant first (`Limbs.Val`).
Its normal form has no zero word on top, except for the single word 0
(`Limbs.Normal`). The operators that compute new words (addition,
subtraction, multiplication, shifts, division, bitwise operations, the
codecs, `pow`, `powMod`, `gcd`) are methods on word sequences. Each is
proved against the integer it stands for. Every error that the library
reports through `handleError` (which ends the program) is an `Err` result
here, with the error named in `Errors.Error`.

Buffers are updated in place, so the storage layer is made of classes:
- `Storage.Data` is the reference-counted word array, with `expand`,
  `resize`, `addRef` and `delRef`.
- `BigNum.SmallNumbers` is the shared table that holds the values 0 to 31.
- `BigNum.BigUnsigned` is the handle. It holds the copy-on-write gate
  `onWrite`, `normalize`, the constructors, assignment, swap and `++`/`--`.
  `normalize`, `operator =(WordType)`, `++` and `--` each promise that a
  buffer they stop holding keeps its words and loses one holder, so another
  value sharing it still sees the same number (`BigNum.IncrementShared`
  states this for two values). The table's entries are never written.

From main.cpp:
- one light-barrier channel's state machine (`Sensor`);
- the two-barrier direction machine (`Direction`);
- the bounded event log (`EventLog`);
- `runLEDSense` and the display ticker (`Monitor`);
- the daylight-saving rule (`Daylight`).

Modules follow the source:

| file | module | models |
|---|---|---|
| numbers.dfy | Numbers | powers and arithmetic facts |
| words.dfy | Words | the 32-bit word primitives and bit operations |
| limbs.dfy | Limbs | word sequences, their value and normal form |
| errors.dfy | Errors | the error results |
| order.dfy | Order | comparisons |
| arith.dfy | Arith | `+=`, `-=`, `*` |
| shifts.dfy | Shifts | `lshiftWords`, `rshiftWords`, `<<=`, `>>=` |
| division.dfy | Division | the three `divMod` overloads, `divide`, `submul_1` |
| bitwise.dfy | Bitwise | `&=`, `\|=`, `^=`, conversions |
| radix.dfy | Radix | digit expansions, the reference for every codec |
| codecs.dfy | Codecs | `parse`, `toString`, base64 |
| bytecodecs.dfy | ByteCodecs | colon-hex byte strings, sentinel byte strings |
| numbertheory.dfy | NumberTheory | `pow`, `powMod`, `gcd` |
| storage.dfy | Storage | `BigUnsigned::Data` |
| bignum.dfy | BigNum | the small-value table and the `BigUnsigned` handle |
| sensor.dfy | Sensor | `SingleSensorChannel` |
| direction.dfy | Direction | the in/out state machine of `runLEDSense` |
| eventlog.dfy | EventLog | `addEvent` and the log |
| monitor.dfy | Monitor | `runLEDSense`, `onLEDTick`, `handleDisplayInfoTick` |
| daylight.dfy | Daylight | `isDaylightSavingsTimeInEffect` |

The model follows the code where it departs from the usual conventions:
- `gcd` returns 0 when either operand is 0 (bigmath.h:648-649). The usual
  convention is `gcd(a, 0) == a`. `NumberTheory.Gcd` states the code's
  behaviour.
- `parseHexByteString("")` passes both passes of the parser and builds a
  value with no words at all, which no other operation expects. This is a
  finding (see Findings).

## Model

| member | source | states |
|---|---|---|
| Words.AddWithCarry | bigmath.cpp:7-14 | a + b + carry-in equals the result word plus 2^32 times the carry-out |
| Words.SubtractWithBorrow | bigmath.cpp:16-24 | a − b − borrow-in equals the result word minus 2^32 times the borrow-out |
| Words.MultiplyDoubleWord | bigmath.cpp:26-32 | the high and low words make up the exact 64-bit product |
| Words.MultiplyDoubleWordAndAdd | bigmath.cpp:34-41 | a·b + term fits in 64 bits and is split exactly into two words |
| Words.MultiplyDoubleWordAndAddTwo | bigmath.cpp:43-51 | a·b + term1 + term2 fits in 64 bits and is split exactly |
| Words.DivideDoubleWord | bigmath.cpp:53-60 | remainder < divisor; when hi < divisor, q·d + r == hi·2^32 + lo |
| Words.LshiftDoubleWord | bigmath.cpp:62-69 | the word returned is hi·2^s + (the top s bits of lo), less the bits that leave the word |
| Words.RshiftDoubleWord | bigmath.cpp:71-78 | the word returned times 2^s, plus the low s bits of lo, is (the low s bits of hi)·2^32 + lo |
| Words.CountLeadingZeros | bigmath.cpp:409-418 | for a nonzero word, a shift count below 32 that moves the top set bit into bit 31 |
| Limbs.Trim | bigmath.h:116-121 | dropping zero words from the top keeps the value and gives normal form, and drops only zeros |
| Limbs.NormalUnique | bigmath.h:213-225 | two normal sequences with the same value are equal, which is what word-wise `==` relies on |
| Storage.Resized | bigmath.h:89-93 | the words after resize(n) have exactly n words |
| Storage.ResizedValue | bigmath.h:67-88 | growing a buffer keeps its value and its old words |
| Storage.Data.constructor | bigmath.h:28-38 | v in word 0, zeros above it, size n, one holder |
| Storage.Data.Copy | bigmath.h:39-61 | a fresh private copy with one holder and the same value; size 0 is copied as the word 0 |
| Storage.Data.Expand | bigmath.h:67-88 | does nothing when n ≤ size; otherwise keeps the old words, zero-fills up to n, sets size n and ensures capacity ≥ n |
| Storage.Data.Reallocate | bigmath.h:72-82 | a fresh array of the requested capacity holding the same words in use |
| Storage.Data.Resize | bigmath.h:89-93 | size becomes exactly n, and the words are the old ones cut or zero-padded to n |
| Storage.Data.AddRef | bigmath.h:94-97 | one more holder, the words untouched |
| Storage.Data.DelRef | bigmath.h:98-105 | one holder fewer, the words untouched |
| Storage.Data.DropTopZeros | bigmath.h:119-120 | the words in use become Trim of the old ones, in the same array; a buffer with no word in use stays so |
| Storage.Data.SetSingle | bigmath.h:179-182 | the buffer holds exactly the word v, in the same array |
| Storage.Data.Store | bigmath.h:89-93 | the buffer holds exactly the given words, with the holder count kept |
| BigNum.SmallNumbers.Fill | bigmath.h:139-146 | builds 32 fresh entries, entry i holding the single word i |
| BigNum.BigUnsigned.constructor | bigmath.h:135-152 | the value is v; below 32 it shares table entry v (building the table on first use); otherwise a fresh buffer with one holder; no other table entry changes |
| BigNum.BigUnsigned.Share | bigmath.h:157-161 | the copy shares the buffer, which gains one holder |
| BigNum.BigUnsigned.OnWrite | bigmath.h:108-115 | afterwards the handle alone holds its buffer and the words are the same; a shared old buffer loses one holder and keeps its words, so other holders see the same value; the new buffer is outside the table |
| BigNum.BigUnsigned.Normalize | bigmath.h:116-121 | the value does not change, the words become Trim of the old ones, and the table stays intact; a shared old buffer keeps its words for its other holders and loses one holder |
| BigNum.BigUnsigned.Assign | bigmath.h:162-168 | the handle takes the other's buffer; self-assignment keeps the holder count; otherwise the old buffer loses one holder |
| BigNum.BigUnsigned.AssignWord | bigmath.h:169-184 | the value becomes the single word v, and the table is still guarded; a value already v keeps its buffer and count; otherwise a shared old buffer keeps its words for its other holders and loses one holder |
| BigNum.BigUnsigned.Swap | bigmath.h:375-380 | the two handles exchange buffers and values |
| BigNum.BigUnsigned.Increment | bigmath.h:663-666 | through the gate, the value grows by 1 and the table is untouched; a shared old buffer keeps its words for its other holders and loses one holder |
| BigNum.IncrementShared | bigmath.h:108-115 | of two values sharing a buffer, incrementing one leaves the other's words as they were, with one holder fewer on its buffer |
| BigNum.BigUnsigned.Decrement | bigmath.h:673-676 | zero is an error, with the value left as it was; otherwise the value drops by 1; either way a shared old buffer keeps its words for its other holders and loses one holder |
| BigNum.Compare | bigmath.h:267-283 | the same buffer gives 0; otherwise the size-first, top-down order, which is the sign of the difference |
| BigNum.Equal | bigmath.h:213-225 | true iff the words are equal, iff the values are equal |
| BigNum.Greater | bigmath.h:250-266 | true iff the first value is greater |
| Order.TopDownValue | bigmath.h:267-283 | for equal sizes, the top-down word comparison is the sign of the numeric difference |
| Order.CompareValue | bigmath.h:267-283 | on normal operands, the size-first comparison is the sign of the numeric difference |
| Order.Compare | bigmath.h:267-283 | the method computes the size-first, top-down comparison |
| Order.Greater | bigmath.h:250-266 | true iff the comparison says greater |
| Order.Equal | bigmath.h:213-225 | true iff the word sequences are equal |
| Order.EqualValue | bigmath.h:213-225 | on normal operands, word equality is value equality |
| Order.Less | bigmath.h:292-295 | on normal operands, true iff a < b |
| Order.AtLeast | bigmath.h:304-307 | on normal operands, true iff a ≥ b |
| Order.AtMost | bigmath.h:316-319 | on normal operands, true iff a ≤ b |
| Order.EqualsWord | bigmath.h:207-212 | on a normal operand, true iff the value equals the word |
| Order.GreaterThanWord | bigmath.h:244-249 | on a normal operand, true iff the value exceeds the word |
| Order.WordGreaterThan | bigmath.h:238-243 | on a normal operand, true iff the word exceeds the value |
| Arith.AddWord | bigmath.cpp:246-261 | value + b, normal form kept, at most one word more |
| Arith.Add | bigmath.cpp:225-244 | the sum, normal form kept, at most one word more than the longer operand |
| Arith.BorrowRipple | bigmath.cpp:276-281 | the decrement loop subtracts exactly one unit at word `start` and leaves the words below it alone |
| Arith.Sub | bigmath.cpp:263-284 | an error exactly when a < b; otherwise the normalized difference |
| Arith.SubWord | bigmath.cpp:286-304 | an error exactly when value < b; otherwise the normalized difference |
| Arith.WordMinus | bigmath.h:344-355 | an error exactly when the word is below the value; otherwise the normalized difference |
| Arith.MulWord | bigmath.cpp:306-333 | the product, at most one word more; a zero factor gives the single word 0 |
| Arith.Mul | bigmath.cpp:335-359 | the product of normal operands, normal, in at most m + n words |
| Shifts.LshiftWords | bigmath.cpp:371-388 | the words shifted up by s bits, plus the spill times 2^(32·size), are the value times 2^s |
| Shifts.RshiftWords | bigmath.cpp:390-407 | the words shifted down by s bits are the value divided by 2^s |
| Shifts.ShiftLeftAsWritten | bigmath.cpp:648-680 | `<<=` as written: the value times 2^n, less the spill word that the code overwrites |
| Shifts.ShiftLeftDropsSpill | bigmath.cpp:664-673 | [2^31] << 33 should be 2^64, but as written it loses the spill and gives 0 |
| Shifts.ShiftLeft | bigmath.cpp:648-680 | `<<=` with the spill stored above the shifted words: the value times 2^n, normal form kept |
| Shifts.ShiftRight | bigmath.cpp:682-708 | the floor of the value over 2^n, normalized |
| Shifts.ShiftRoundTrip | bigmath.cpp:648-708 | (x << n) >> n == x for every normal x and n |
| Division.DivisionUnique | bigmath.cpp:505-576 | a division in normal form with remainder < divisor is the integer quotient and remainder |
| Division.WordDivMod | bigmath.cpp:361-369 | a zero divisor is an error; otherwise a normal quotient and remainder of the words |
| Division.DivModWordBig | bigmath.cpp:578-589 | a zero divisor is an error; otherwise the division, which is (0, dividend) for a multi-word divisor |
| Division.SubMul1 | bigmath.cpp:425-441 | dest − x·y, with the borrow word returned, is exact |
| Division.AddBack | bigmath.cpp:486-497 | one add-back pass adds the divisor, with the carry-out at the top |
| Division.EstimateUpper | bigmath.cpp:472-478 | the estimate from the top words is never below the true digit |
| Division.EstimateLower | bigmath.cpp:472-478 | the estimate overshoots by less than the weight of one top word, so the add-back loop ends |
| Division.DivideDigit | bigmath.cpp:471-500 | one quotient digit: window == q·divisor + remainder, with remainder < divisor |
| Division.Divide | bigmath.cpp:451-503 | Algorithm D: the top words are the quotient and the low words the remainder of the padded dividend |
| Division.DivModBigWord | bigmath.cpp:591-646 | a zero divisor is an error; otherwise a normal quotient and remainder |
| Division.ModWord | bigmath.cpp:591-634 | a zero divisor is an error; otherwise the normalized remainder |
| Division.LongDivide | bigmath.cpp:538-575 | the long-division path gives a division with a normal remainder and a quotient of the written length |
| Division.DivModAsWritten | bigmath.cpp:505-576 | divMod as written: a zero divisor is an error; otherwise a correct division, but the quotient keeps the length the code gives it |
| Division.QuotientNotNormal | bigmath.cpp:566-575 | for 2^33 / 2^32 the quotient as written is [2, 0], which is not normal and does not compare equal to the word 2 |
| Division.DivMod | bigmath.cpp:505-576 | a zero divisor is an error; otherwise exactly the integer quotient and remainder, both normal |
| Bitwise.WordwiseValue | bigmath.h:462-542 | combining the words one by one computes the bitwise operation on the values |
| Bitwise.CombineInPlace | bigmath.h:462-542 | the first n words are combined, and the rest are left as they were |
| Bitwise.XorAssign | bigmath.h:462-472 | the XOR of the values, normalized |
| Bitwise.OrAssign | bigmath.h:494-503 | the OR of the values, as long as the longer operand, and normal for normal operands although nothing normalizes it |
| Bitwise.AndAssign | bigmath.h:532-542 | the AND of the values, normalized, no longer than the shorter operand |
| Bitwise.AndWord | bigmath.h:525-531 | the AND with the word, normalized |
| Bitwise.OrWord | bigmath.h:504-509 | the OR with the word, with the size and normal form kept |
| Bitwise.XorWord | bigmath.h:473-478 | the XOR with the word, with the size and normal form kept |
| Bitwise.ToWord | bigmath.h:450-453 | the value truncated to 32 bits |
| Bitwise.IsNonzero | bigmath.h:454-457 | on a normal operand, true iff the value is nonzero |
| Bitwise.IsZero | bigmath.h:458-461 | the negation of IsNonzero; on a normal operand, true iff the value is 0 |
| Radix.ExpansionValue | bigmath.cpp:744-788 | the digit expansion reads back as the number |
| Radix.ExpansionUnique | bigmath.cpp:728-742 | digits of the base with no leading zero are the expansion of their value |
| Codecs.CharValue | bigmath.cpp:710-719 | a digit value below 36, or the invalid marker WordMax |
| Codecs.DigitChar | bigmath.cpp:721-726 | an upper-case digit that CharValue reads back |
| Codecs.Parse | bigmath.cpp:728-742 | an error for a base outside 2..36 or a digit not below the base; otherwise the value of the digits, normalized |
| Codecs.ParsePrefixed | bigmath.h:190-197 | "0x"/"0X" selects base 16, a leading 0 selects base 8 when octal is on, and base 10 otherwise |
| Codecs.BlockPower | bigmath.cpp:748-754 | the largest power of the base that the loop reaches below WordMax / base, with its digit count |
| Codecs.EmitBlocks | bigmath.cpp:760-770 | the blocks emitted so far plus the digits of what is left are the number's digits |
| Codecs.ReverseInPlace | bigmath.cpp:778-784 | the swap loop reverses the string |
| Codecs.ToString | bigmath.cpp:744-788 | an error for a base outside 2..36; otherwise the digits of the value, most significant first |
| Codecs.ToStringCanonical | bigmath.cpp:744-788 | upper-case digits, no leading zero, and "0" exactly for zero |
| Codecs.RadixRoundTrip | bigmath.cpp:728-788 | parse(toString(v, b), b) == v |
| Codecs.ParseRoundTrip | bigmath.cpp:728-788 | toString(parse(s, b), b) == s for canonical digit strings |
| Codecs.DecimalRoundTrip | bigmath.h:190-197 | decimal text parses back through the prefix-sniffing parse, whether octal is on or off |
| Codecs.HexPrefixRoundTrip | bigmath.h:190-197 | "0x" followed by hexadecimal text parses back |
| Codecs.Base64Value | bigmath.cpp:805-818 | a 6-bit group, or the invalid marker |
| Codecs.Base64Char | bigmath.cpp:790-803 | the alphabet letter that Base64Value reads back, never '=' |
| Codecs.ParseBase64 | bigmath.cpp:820-834 | trailing '=' are dropped; an invalid character is an error; otherwise the groups' value, normalized |
| Codecs.ToBase64 | bigmath.cpp:836-853 | the value's 6-bit groups, most significant first |
| Codecs.Base64RoundTrip | bigmath.cpp:820-853 | parseBase64(toBase64(v)) == v |
| Codecs.Base64OfZero | bigmath.cpp:836-853 | toBase64(0) == "A" |
| Codecs.Base64Padding | bigmath.cpp:820-834 | any number of trailing '=' parses the same |
| ByteCodecs.HexDigit | bigmath.h:126-131 | an upper-case hex digit that reads back as d |
| ByteCodecs.CountWellFormed | bigmath.cpp:90-166 | the first pass accepts exactly the well-formed strings: hex digits in runs of 1 or 2, each ':' after a run |
| ByteCodecs.CountHexBytes | bigmath.cpp:90-166 | the first pass's loop computes the reference count or error |
| ByteCodecs.ParseHexByteStringAsWritten | bigmath.cpp:90-166 | rejects exactly the malformed strings, otherwise gives the bytes' value; the empty string gives a buffer with no words |
| ByteCodecs.ParseHexByteString | bigmath.cpp:90-166 | rejects exactly the malformed strings; otherwise the normalized value of the bytes, most significant first |
| ByteCodecs.SignificantBytes | bigmath.cpp:170-172 | the bytes up to the highest nonzero one are the base-256 expansion of the value |
| ByteCodecs.ToHexByteString | bigmath.cpp:168-184 | the base-256 digits as two upper-case hex digits each, joined by ':' |
| ByteCodecs.HexTextParsed | bigmath.cpp:90-184 | the text toHexByteString writes is well formed and spells the same bytes |
| ByteCodecs.HexRoundTrip | bigmath.cpp:90-184 | parseHexByteString(toHexByteString(v)) == v |
| ByteCodecs.FromByteString | bigmath.cpp:186-205 | the value of the sentinel byte 1 followed by the bytes, normalized |
| ByteCodecs.ToByteString | bigmath.cpp:207-223 | an error unless the top byte is the sentinel 1; otherwise the bytes below it |
| ByteCodecs.ByteStringRoundTrip | bigmath.cpp:186-223 | toByteString(fromByteString(s)) == s, including the empty string and zero bytes |
| NumberTheory.ScanStep | bigmath.h:584-593 | one step of the exponent scan clears the bit it tests and moves to the next bit position |
| NumberTheory.Power | bigmath.h:570-596 | base^exponent, normalized; 1 for exponent 0 |
| NumberTheory.MulMod | bigmath.h:613-619 | the product of two residues, reduced, is the residue of the product |
| NumberTheory.PowerMod | bigmath.h:597-628 | a zero modulus is an error; otherwise base^exponent mod modulus, which is 0 for modulus 1 |
| NumberTheory.EuclidDivides | bigmath.h:654-661 | Euclid's a % b loop ends on a common divisor |
| NumberTheory.EuclidGreatest | bigmath.h:654-661 | every common divisor divides that result and is at most it |
| NumberTheory.EuclidOne | bigmath.h:650-651 | the greatest common divisor with 1 is 1 |
| NumberTheory.Gcd | bigmath.h:646-662 | 0 when either operand is 0; otherwise Euclid's greatest common divisor, normalized |
| Sensor.StaticifiedState | main.cpp:582-588 | staticifyState ends in a static state with the same blocked-ness, leaves static states alone and is idempotent |
| Sensor.ChangedState | main.cpp:593-605 | setChangingState(b) leaves the channel blocked iff b; a matching state is untouched, and a flip enters a changing state |
| Sensor.NextCount | main.cpp:608-612 | the supersample counter stays in [0, 2·SupersampleFactor) and advances modulo it |
| Sensor.CountCycles | main.cpp:608-612 | after n runs the counter is (count + n) mod 2·SupersampleFactor |
| Sensor.SensorChannel.constructor | main.cpp:577-580 | unblocked, counter 0, no sample yet |
| Sensor.SensorChannel.IsBlocked | main.cpp:589-592 | true exactly in Blocked and Blocking |
| Sensor.SensorChannel.StaticifyState | main.cpp:582-588 | the state becomes static with the same blocked-ness; nothing else changes |
| Sensor.SensorChannel.SetChangingState | main.cpp:593-605 | isBlocked() == b afterwards; the state is untouched if it already matched |
| Sensor.SensorChannel.Run | main.cpp:606-670 | the counter advances; a finished sample marks its LED phase; only when both phases are measured does the level decide the state and the indicator |
| Sensor.SampledLevel | main.cpp:634-667 | a run that ends a sample with both LED phases measured leaves the channel blocked after Low and clear after High; Middle, or a run that does not decide, keeps the state |
| Direction.FromNothing | main.cpp:817-823 | from Nothing, a blocked outside sensor wins over a blocked inside one, and nothing is recorded |
| Direction.Recording | main.cpp:771-824 | "in" is recorded exactly when GoingInLastBlocked sees both sensors clear, "out" likewise from GoingOutLastBlocked, and each recording returns to Nothing |
| Direction.WayKept | main.cpp:771-824 | a crossing under way keeps its direction until the machine is back at Nothing |
| Direction.WalkKeepsWay | main.cpp:771-824 | a run of readings that never returns to Nothing keeps the starting direction |
| Direction.CrossingDirection | main.cpp:771-824 | a recorded crossing goes in the direction of the sensor that was blocked first |
| Direction.WalkingIn | main.cpp:771-800 | inside, both, outside, then neither blocked records one "in" |
| EventLog.Hex | main.cpp:508-509 | the time in lower-case hex digits, never empty |
| EventLog.HexRoundTrip | main.cpp:508-509 | the hex text reads back as the time |
| EventLog.HexNoLeadingZero | main.cpp:508-509 | the hex text starts with 0 only for 0 |
| EventLog.Logged | main.cpp:506-515 | the log never exceeds EventLogSize, and the new entry is last |
| EventLog.LogWindow | main.cpp:506-515 | after any series of events, the log is exactly the newest EventLogSize entries, in order |
| EventLog.Log.AddEvent | main.cpp:506-515 | the log drops its oldest entry when full and appends the new one |
| Monitor.DoorMonitor.constructor | main.cpp:673-675 | both channels unblocked, machine at Nothing, empty log |
| Monitor.DoorMonitor.OnLEDTick | main.cpp:554-557 | allows the next runLEDSense |
| Monitor.DoorMonitor.RunLEDSense | main.cpp:760-834 | nothing without the tick; otherwise each channel's state is what its level decides from its old state, counter and phase flags (Sensor.Sampled), the flags and indicators are updated as run does, the LED toggles, the machine steps on the channels' blocked-ness, a crossing is logged at now, and both channels end in the static form of their new state |
| Monitor.DisplayInfo.Tick | main.cpp:856-859 | the page stays in [0, DisplayLast) and moves on by one, wrapping |
| Monitor.CycledPages | main.cpp:848-859 | k ticks reach (s + k) mod DisplayLast: DisplayLast ticks return to the start and fewer never do |
| Daylight.Seasons | main.cpp:88-115 | Off gives false and On gives true; under Auto, December to February give false, April to October give true, March needs mday − wday ≥ 8, November needs mday − wday ≤ 0 |
| Daylight.FirstSunday | main.cpp:106-114 | the first Sunday of the month falls on day 1 to 7 |
| Daylight.SecondSunday | main.cpp:106-111 | the second Sunday falls on day 8 to 14 |
| Daylight.PreviousSunday | main.cpp:106 | mday − wday is the latest Sunday on or before mday, a whole number of weeks after the first Sunday |
| Daylight.MarchStartsOnSecondSunday | main.cpp:106-111 | in March, daylight time is in effect exactly from the second Sunday on |
| Daylight.NovemberEndsOnFirstSunday | main.cpp:106-114 | in November, daylight time is in effect exactly before the first Sunday |

## Left out

- `handleError` prints a message and exits. Each of its calls is an `Err` result instead, naming the error.
- Deleting a buffer when its last holder lets go (bigmath.h:98-105, the destructor at bigmath.h:153-156) is not modelled. Dafny has no deallocation, so `DelRef` only counts down.
- The inline `word` of `Data` (bigmath.h:24, 28-38) is modelled as an array of capacity at least 1.
- The compound operators that compute new words are modelled on word-sequence values: `+=`, `-=`, `*=`, `/=`, `%=`, the shifts, the bitwise operators, the codecs, `pow`, `powMod` and `gcd`. Storing a result into a buffer is `Storage.Data.Store`, and the handle layer shows it for `++` and `--` only. The model does not follow each operator's own in-place writes through aliasing buffers.
- The postfix `++(int)`, `--(int)` and the non-assigning operators (`a + b` and so on) copy and then call the compound form. They are not modelled separately.
- `operator <<(ostream &, BigUnsigned)` (bigmath.h:629-645) picks a base from the stream flags and calls `toString`. Stream state is I/O and is not modelled.
- `lshiftWords` in `<<=` with a shift that is a multiple of 32 computes `x >> 32` on a 32-bit word, which is undefined in C++. The model takes that spill as 0 (`Shifts.Spill`).
- `divMod(BigUnsigned, WordType)` writes the quotient through `expand` into a caller-supplied value, so a quotient buffer that already had more words keeps stale high words (bigmath.cpp:635-645). The model returns a fresh quotient.
- `fromByteString` reads each byte through `char`, which may be signed. Bytes are modelled as 0..255.
- ByteCodecs.ToHexByteString: requires at least one word; a buffer of size 0 (only `parseHexByteString("")` makes one) is not handled.
- ByteCodecs.ToByteString: requires at least one word, for the same reason.
- Everything in main.cpp outside the decision logic is left out. This covers networking (lwIP), time fetching, the watchdog, the LCD, tickers, file I/O, `fixedWidthFloatToString` and the random padding of `encryptString`.
- Sensor.SensorChannel.Run: the floating-point sample sums and thresholds are not modelled. What a finished sample decides is the `Level` parameter: below the lower threshold, above the upper one, or in between.
- Daylight: the time-zone shift and `localtime` are left out. The rule takes tm_mon, tm_mday and tm_wday of the local time as inputs.
- EventLog.Log.AddEvent: `time(NULL)` is the parameter `now`.
- Monitor.DoorMonitor.RunLEDSense: re-arming the LED ticker and writing the LCD line are not modelled.

## Findings

| source | as written | input that shows it | evidently intended | confidence | as-written member | corrected member |
|---|---|---|---|---|---|---|
| bigmath.cpp:664-673 | `<<=` stores the spill at index `size`, and `lshiftWords` into `words + wordCount` then overwrites it whenever the shift covers a whole word | [2^31] << 33 gives 0 instead of 2^64 | store the spill at index `size + wordCount` | not executed | Shifts.ShiftLeftAsWritten, Shifts.ShiftLeftDropsSpill | Shifts.ShiftLeft |
| bigmath.cpp:566-575 | the quotient of the Algorithm D path is copied out without `normalize()` | 2^33 / 2^32 gives the words [2, 0], which compare unequal to 2 | normalize the quotient, as the remainder is at bigmath.cpp:564 | not executed | Division.DivModAsWritten, Division.QuotientNotNormal | Division.DivMod |
| bigmath.cpp:90-166 | `parseHexByteString("")` passes both passes and builds a buffer of size 0 | the empty string | a value of at least one word, 0 for the empty string | not executed | ByteCodecs.ParseHexByteStringAsWritten | ByteCodecs.ParseHexByteString |
