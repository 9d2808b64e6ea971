# A model of the BSM-2 balloon firmware and its ground modem

BSM-2 is the on-board computer of a stratospheric balloon. This project models, in Dafny, the parts of it whose
correctness is least obvious, and proves what they are for:

- **The packet radio link** of the ground station (`scripts/ax25.py`, `scripts/afsk.py`): a sender builds an AX.25 UI
  frame, adds a CRC, escapes control bytes, stuffs bits between HDLC flags and switches tones on zeros; the receiver
  undoes the four layers with two state machines. `RadioLink` puts them together: every frame of every list of frames
  arrives once, in order and unchanged, whatever the polarity of the line and the level before the first bit.
- **The two table-driven CRCs** (`bertos/algo/crc_ccitt.c`, `bertos/algo/crc.c`), shown to be remainders of polynomial
  long division, and what follows from that: bursts, odd errors and the residue of a good frame.
- **The run-length codec** (`bertos/algo/rle.c`): round trip, self-delimitation and both size bounds.
- **Word arithmetic**: the acceleration ramp (`bertos/algo/ramp.c`), the TEA cipher (`bertos/algo/tea.c`) and the
  streaming MD2 digest (`bertos/algo/md2.c`) with every truncation and wrap-around written out.
- **Flight logic** (`bsm-2/status_mgr.c`, `bsm-2/cutoff.c`, `bertos/algo/moving_avg.h`): the status machine with its
  averaging windows and hysteresis, and the cut-off with its timers, its pause and its actuator.
- **The power-up flag** (`bsm-2/measures.c`, `bsm-2/logging.c`): a persistent flag that must survive a reset at any
  step of switching the auxiliary power on.

Objects that the program updates in place are classes, loops are loops, and each method is proved against a
specification function; the properties are lemmas about those functions, over all inputs and all runs. A step of a
protocol that a reset may interrupt (`PowerFlag`) and a history of events (`StatusRuns`, `CutoffHistory`) are
sequences of values.

| file | models |
|---|---|
| `Wrappers` | optional values |
| `Bits`, `PolyDivision` | bit order of messages; division by x^16 + x^12 + x^5 + 1 over the two-element field |
| `CrcCcitt`, `Crc16` | the reflected and the MSB-first CRC |
| `Framing`, `Hdlc`, `Afsk` | control bytes and escapes; stuffing and the bit receiver; tones |
| `Ax25`, `Ax25RoundTrip`, `Ax25Wire` | building, receiving and decoding frames; their round trip; calls, layout and rejections in plain numbers |
| `RadioLink`, `RadioRequests` | all layers of the link together; sending when some requests fail |
| `Rle`, `RleForm` | the run-length codec; which runs encoded data consists of |
| `Tea`, `Ramp` | the algorithms of the same names |
| `Md2`, `Md2Rfc` | the digest; its passes position by position with the numbers of the standard |
| `MovingAvg`, `StatusMgr`, `StatusRuns` | the averaging window, the status machine, whole flights |
| `StatusFlapping`, `StatusLimits` | bounds on switching; what each status says of the altitude |
| `Cutoff`, `CutoffHistory`, `CutoffLimits` | the cut-off, its specification by history, and what does and does not make it answer |
| `PowerFlag` | the power-up flag |

## What the proofs found

Where the code and its documentation, or a natural expectation, disagree, the model follows the code:

- `ramp.h` (lines 149-151) says that the fixed-point ramp fails at clock zero. It divides by zero at every clock whose
  time fraction rounds to zero, which is at clock 1023 and before on the longest ramp, and never later than that on any
  (`Ramp.DividesByZero`, `Ramp.DividesByZeroPastZero`).
- The comment of `ramp.c` calls the curve an interpolation between the two wavelengths. The step time leaves their
  range exactly while the time is short and the quotient by the rounded ratio is above the maximum
  (`Ramp.StepTimeInRange`, `Ramp.OvershootExample`). When the stored ratio rounds down to the minimum wavelength it wraps
  to zero there, and then rises once (`Ramp.EvaluationExact`, `Ramp.EvaluationMonotone`, `Ramp.WrapExample`;
  `Ramp.RatioExceedsMinimum` tells which wavelengths avoid it). `ramp_compute` accepts equal wavelengths, for which the
  stored ratio becomes zero and the curve is not constant (`Ramp.EqualWavelengths`, `Ramp.EqualWavelengthsExample`).
- A call that makes `Ax25.send` raise an error leaves the beginning of a frame in `outbuf`, and the next send hands it
  over in front of its own frame (`RadioRequests.FailingRequest`, `RadioRequests.SendAfterFailure`). The modem then has
  seen an odd number of flags and takes preambles for trailers. With two flags in a preamble all other frames arrive
  nevertheless, unless a leftover is long enough for a frame, has a good check sequence by chance and makes the decoder
  raise an error; three flags in a preamble and two in a trailer are enough for any leftovers
  (`RadioRequests.EveryRequestArrives`). With fewer, the frame after such a leftover is lost exactly when the receiver
  gets to see one flag only (`RadioRequests.FrameAfterLeftover`). There is such a leftover: the calls APZBRT, IZ5ABC and
  WXACHK-13 (`RadioRequests.LosingRequest`, `RadioRequests.NextFrameIsLost`).
- A frame needs a flag on each side (`RadioLink.BothFlagsNeeded`), and two in front exactly when the receiver's
  reference level is wrong, as the first one is then lost (`RadioLink.OpeningFlagsNeeded`), or when the first one ends
  something that raises an error in the decoder (`RadioLink.AnyStationHears`).
- The landing status keeps its hysteresis only if `landing_alt + 750 <= tropopause_alt`, because the tropopause is
  looked at first. The configuration allows landing altitudes above that, and there is a flight on which the status
  then changes three times within 1501 metres (`StatusFlapping.LandingBoundedIff`, `StatusFlapping.LandingFlaps`).
- A balloon that turns down right after STRATOPHERE_UP is in STRATOPHERE_FALL up to 750 metres below the tropopause, and
  its status may change once more than the bound allows (`StatusFlapping.DescentIsSteady`,
  `StatusFlapping.BelowTropopauseExample`).
- At the sixth fix the rate is an average over five intervals divided by six, because the first difference counts as
  zero (`StatusRuns.Telescope`).
- A pause commanded at clock zero is none (`CutoffHistory.PauseAtZeroIsNone`). A check that fails early hides the later
  ones, whose timers and highest altitude then stand still (`CutoffHistory.FailingCheckHidesPeak`).
- An over-current during a power-up that a command has asked for switches the power off but does not keep the flag from
  being cleared, so that the next boot powers up again (`PowerFlag.OverCurrentIsForgotten`). During the power-up at boot
  nobody watches the current.

## Model

| member | source | states |
|---|---|---|
| RadioLink.EveryFrameIsDelivered | scripts/afsk.py:105-159 | for any list of frames with at least two valid calls each, sent one after another with two opening flags and one closing flag or more, a quiet receiver of either polarity and any reference level obtains exactly those messages, in order |
| RadioLink.FrameIsDelivered | scripts/ax25.py:73-120 | the bits of one frame, fed through the bit receiver and then the byte receiver, give exactly one message with the same path and payload, and leave the receiver synchronised |
| RadioLink.BothFlagsNeeded | scripts/afsk.py:136-152 | a receiver that has found no flag yet obtains the message if and only if the preamble and the trailer have at least one flag each |
| RadioLink.FirstFlagMayBeLost | scripts/afsk.py:183-192 | misreading the first bit of a transmission changes nothing when it opens with two flags |
| RadioLink.OpeningFlagsNeeded | scripts/afsk.py:183-192 | with at least one opening flag, the tones of a frame reach a fresh receiver if and only if there is a closing flag and either a second opening one or the right reference level |
| RadioLink.AnyStationHears | scripts/afsk.py:37-77 | a receiver in the middle of anything obtains the message after what the first flag stirs up, if and only if there are two opening flags or the first one leaves it synchronised |
| RadioLink.AnyStationHearsTones | scripts/afsk.py:183-194 | the same on the air as an if-and-only-if, in any polarity and with any reference level: a wrong one costs one more flag |
| RadioLink.StaleCrcDropsFrame | scripts/ax25.py:94-104 | after an error in the decoder, which leaves the check sequence as it was, the next frame is lost |
| RadioRequests.EveryRequestArrives | scripts/ax25.py:73-91 | for any list of requests, failing ones among them, a quiet receiver obtains the messages of those that succeed, in order, and what it makes of the leftovers, given three flags in a preamble and two in a trailer; two and one if no leftover breaks the decoder |
| RadioRequests.FrameAfterLeftover | scripts/ax25.py:94-104 | at any point after a leftover, the next frame arrives if and only if the receiver gets to see two flags before it or the leftover does not break the decoder; the receiver is synchronised afterwards either way |
| RadioRequests.FrameAfterFailure | scripts/ax25.py:73-91 | for a failing request and the next one of an idle sender: the frame arrives if and only if a trailer has two flags or the leftover does not break the decoder |
| RadioRequests.BreaksLeavesCrc | scripts/ax25.py:96-103 | a leftover breaks the decoder exactly if it is long enough, has a good check sequence and decoding it raises an error; then the check sequence is left as it was |
| RadioRequests.LeftoverBreaks | scripts/ax25.py:22-30 | with calls of at most six characters decoding a leftover always raises the error, so that only its length and check sequence count |
| RadioRequests.LosingRequest | scripts/ax25.py:62-71 | a path of three calls and a failing fourth whose leftover breaks the decoder |
| RadioRequests.NextFrameIsLost | scripts/ax25.py:94-104 | with one flag in a trailer, the receiver gets an error from that leftover and nothing from the frame after it |
| RadioRequests.HandedIsJoined | scripts/ax25.py:89-91 | what is handed over in all is what the requests queue, in order, nothing twice |
| RadioRequests.LeftoverIsSilent | scripts/ax25.py:96-99 | a leftover shorter than a frame, or with a wrong check sequence, is not reported and does not break the decoder |
| RadioRequests.FailingRequest | scripts/ax25.py:64-65 | a call with two dashes raises an error and leaves the opening flag behind |
| RadioRequests.SendAfterFailure | scripts/ax25.py:73-91 | the send after a failing one hands over the leftover and its own frame |
| RadioLink.TxFrame | scripts/afsk.py:141-158 | the transmitter turns an escaped frame into flags, stuffed bits without escapes, and flags, starting from the mark tone |
| Hdlc.Hdlc.Parse | scripts/afsk.py:37-77 | the bit receiver, one bit at a time, against its step function: new state and emitted bytes |
| Hdlc.FlagsOnlyAtEnds | scripts/afsk.py:117-128 | between two flags stuffed bits have six ones in a row nowhere but inside the two flags themselves |
| Hdlc.DestuffStuff | scripts/afsk.py:122-128 | deleting the bit after every five ones undoes the stuffing of any bit string |
| Hdlc.StuffedLength | scripts/afsk.py:122-128 | stuffing adds at most one bit in five and never loses one |
| Hdlc.RxStuffed | scripts/afsk.py:57-77 | a synchronised receiver drops exactly the stuffed zeros: it assembles the bits that were stuffed |
| Hdlc.RxMessage | scripts/afsk.py:37-77 | from the stuffed bits of any bytes the receiver emits those bytes, escaped, and stays synchronised |
| Hdlc.RxDeaf | scripts/afsk.py:54-55 | an unsynchronised receiver emits nothing for stuffed bits |
| Hdlc.FlagSyncs | scripts/afsk.py:42-47 | from any receiver state the eight bits of a flag lead to the same synchronised state |
| Hdlc.LostFlagResets | scripts/afsk.py:49-52 | a flag whose first bit reads as one stops reception |
| Afsk.Afsk.constructor | scripts/afsk.py:80-103 | preamble and trailer lengths in flags, and a transmitter that is not sending |
| Afsk.FlagsByLength | scripts/afsk.py:100-101 | a preamble or trailer has a flag from four milliseconds on and two from ten on; 75 and 8 by default |
| Afsk.ResetByteSwitchesOff | scripts/afsk.py:153-154 | a reset byte goes out unstuffed as seven ones and a zero, and switches off a receiver in any state |
| Afsk.EscapedControlIsStuffed | scripts/afsk.py:143-158 | flag and reset byte behind an escape byte go out stuffed, a zero after the fifth one |
| Afsk.Afsk.GenBit | scripts/afsk.py:105-115 | a zero switches the tone, a one keeps it |
| Afsk.Afsk.SendChar | scripts/afsk.py:117-128 | a byte goes out least significant bit first, stuffed if asked for, with the count of ones carried over from byte to byte |
| Afsk.Afsk.SendSync | scripts/afsk.py:136-139 | as many unstuffed flags as the preamble or the trailer has |
| Afsk.Afsk.Write | scripts/afsk.py:141-159 | the queued tones of a whole byte stream with its escapes and flags |
| Afsk.Afsk.ReceiveLevel | scripts/afsk.py:183-194 | a received level becomes a one exactly if it equals the level before |
| Afsk.DemodulateModulate | scripts/afsk.py:105-110 | comparing neighbouring levels gives back the modulated bits, in either polarity |
| Afsk.FirstBitMayFlip | scripts/afsk.py:192 | with a wrong reference level the first bit, and only that one, is inverted |
| Ax25.Ax25.QueueEscaped | scripts/ax25.py:55-60 | the bytes are queued with escapes before control bytes, and the CRC runs over the unescaped bytes |
| Ax25.Ax25.SendCall | scripts/ax25.py:62-71 | queues the seven address bytes of a call, or nothing where the program raises an error |
| Ax25.Ax25.Send | scripts/ax25.py:73-91 | hands over flag, escaped frame and flag after what was left in the buffer; on an error the partial frame stays there |
| Ax25.Ax25.Process | scripts/ax25.py:94-120 | the byte receiver against its step function: flag, reset, escape, data, length and CRC gate |
| Ax25.DecodeCall | scripts/ax25.py:15-20 | the text of an address, and what remains of the input, or an error if it is too short |
| Ax25.Decode | scripts/ax25.py:22-44 | destination, source, repeaters up to the last-address bit, control, protocol and data, or which error or rejection |
| Ax25RoundTrip.CallRoundTrip | scripts/ax25.py:15-20 | decoding the address bytes of a valid call gives its canonical form, and the last-address bit says what was sent |
| Ax25RoundTrip.PacketRoundTrip | scripts/ax25.py:22-44 | decoding an encoded frame with any path of at least two valid calls gives back path and payload |
| Ax25RoundTrip.CanonicalOfPlainCall | scripts/ax25.py:62-70 | for a call of non-blank seven-bit characters with an SSID from 0 to 15 the canonical form is the call in upper case |
| Ax25RoundTrip.CanonicalOfBase | scripts/ax25.py:66-67 | a call without SSID comes back in upper case with SSID 0 |
| Ax25RoundTrip.RxEscaped | scripts/ax25.py:107-120 | escaped data reaches buffer and CRC of a synchronised receiver byte for byte, and no other receiver |
| Ax25RoundTrip.FrameRoundTrip | scripts/ax25.py:94-104 | an escaped frame between flags is reported as one message and leaves the receiver as it was |
| Ax25RoundTrip.DamagedFrameIsDropped | scripts/ax25.py:97-99 | a good frame changed within any sixteen neighbouring bits, or in an odd number of bits, is not reported |
| Ax25Wire.UpperAt | scripts/ax25.py:63 | each small letter becomes the capital 0x20 below it, anything else stays, so that no small letter is left |
| Ax25Wire.CaseDoesNotMatter | scripts/ax25.py:62-71 | calls that differ in the case of letters only have the same address bytes |
| Ax25Wire.CapitalsComeBack | scripts/ax25.py:62-71 | a plain call without small letters, with its SSID from 0 to 15, comes back as itself |
| Ax25Wire.StripTrims | scripts/ax25.py:19 | stripping takes blanks at both ends only and leaves none there |
| Ax25Wire.NumeralsParse | scripts/ax25.py:70 | a decimal numeral as SSID, with a plus sign or not and blanks around it, has the value of its digits |
| Ax25Wire.OnlyNumeralsParse | scripts/ax25.py:70 | no other text has a value: the program raises an error |
| Ax25Wire.DigitsAppend | scripts/ax25.py:70 | one more digit makes the value ten times as large and adds the digit |
| Ax25Wire.DecimalDigits | scripts/ax25.py:19 | an SSID is spelled with one digit or two, without leading zero |
| Ax25Wire.ShiftCharsAt | scripts/ax25.py:69 | each character of an address is shifted left by one bit |
| Ax25Wire.PadFills | scripts/ax25.py:68 | a call is filled up with blanks to six characters and never cut |
| Ax25Wire.SsidLayout | scripts/ax25.py:70 | the bits of the byte behind a call: 011, four bits of the SSID, last address |
| Ax25Wire.NibbleValue | scripts/ax25.py:70 | SSIDs from 0 to 15 are sent as they are, those from 16 to 31 as sixteen less |
| Ax25Wire.FrameLayout | scripts/ax25.py:73-91 | flag, addresses, 0x03, 0xf0, payload, complemented CRC with the low byte first, flag, all of it escaped between the flags |
| Ax25Wire.EscapedBytes | scripts/ax25.py:55-60 | 0x1b goes in front of 0x1b, 0x7e and 0x7f and of nothing else |
| Ax25Wire.ReceiverGate | scripts/ax25.py:94-104 | what stands between two flags is decoded if and only if it has eighteen bytes or more and its CRC comes to 0xf0b8 |
| Ax25Wire.ResetIgnoresRest | scripts/ax25.py:107-110 | nothing that follows a reset byte counts, up to the next flag |
| Ax25Wire.OtherFramesAreRejected | scripts/ax25.py:32-41 | of frames with any path exactly those with control byte 0x03 and protocol byte 0xf0 give a message; the others give nothing, and no error |
| Ax25Wire.NoRoomForAddresses | scripts/ax25.py:22-26 | fewer than fourteen bytes end in an index error |
| Ax25Wire.NoLastAddress | scripts/ax25.py:28-30 | a frame without an address marked as the last one ends in an index error |
| Ax25Wire.ShortContent | scripts/ax25.py:32-38 | a frame that ends behind its addresses, or behind a control byte 0x03, ends in an index error; behind any other control byte it is rejected |
| CrcCcitt.Crc | bertos/algo/crc_ccitt.c:75-82 | the loop computes the CRC of the first len bytes |
| CrcCcitt.CrcConcat | scripts/crc_ccitt.py:43-46 | the CRC of two buffers one after another is the second CRC started from the first |
| CrcCcitt.CheckValue | bertos/algo/crc_test.c:57-63 | the CRC of the digits one to nine is 0x6f91 |
| CrcCcitt.TableIsSteps | bertos/algo/crc_ccitt.c:40-73 | every entry of the table is eight shift steps with the reflected generator 0x8408 |
| CrcCcitt.UpdIsRun | bertos/algo/crc_ccitt.h:56-59 | one table step clocks the eight bits of the byte, lowest first, through the division register |
| CrcCcitt.CrcIsRemainder | bertos/algo/crc_ccitt.c:75-82 | the CRC is the remainder of polynomial long division of the message with the initial value added to its head |
| CrcCcitt.BurstDetected | bertos/algo/crc_ccitt.h:56-59 | two frames of equal length that differ only within sixteen neighbouring bits have different CRCs |
| CrcCcitt.AdjacentBytesDetected | bertos/algo/crc_ccitt.h:56-59 | the same for frames that differ only in two neighbouring bytes |
| CrcCcitt.OddErrorsDetected | bertos/algo/crc_ccitt.c:75-82 | the same for frames that differ in an odd number of bits |
| CrcCcitt.CrcInjective | bertos/algo/crc_ccitt.h:56-59 | different starting values stay different over any message |
| CrcCcitt.GoodFrameResidue | scripts/ax25.py:85-88 | appending the complemented CRC, low byte first, always leads to the receiver's constant 0xF0B8 (RFC 1662, section C.2) |
| PolyDivision.RunIsRemainder | bertos/algo/crc.c:59-92 | clocking bits through the register with feedback computes the remainder of long division |
| Crc16.Crc | bertos/algo/crc.c:94-101 | the loop computes the CRC of the first len bytes |
| Crc16.TableIsReversed | bertos/algo/crc.c:59-92 | the table is the other one with index and entry bit-reversed |
| Crc16.CrcIsReversed | bertos/algo/crc.h:77 | the CRC is the other CRC of the bit-reversed bytes, bit-reversed |
| Crc16.CrcConcat | bertos/algo/crc.c:94-101 | the CRC of two buffers one after another is the second CRC started from the first |
| Crc16.CheckValue | bertos/algo/crc_test.c:65-68 | the CRC of the digits one to nine is 0x31c3 |
| Crc16.CrcIsRemainder | bertos/algo/crc.c:94-101 | the CRC is the remainder of the message, highest bit first; from the initial value zero, of the plain message |
| Crc16.BurstDetected | bertos/algo/crc.h:77 | two messages that differ only within sixteen neighbouring bits have different CRCs |
| Rle.FindSame | bertos/algo/rle.c:62-64 | the length of the run of equal bytes, at most 127 |
| Rle.FindLiteralEnd | bertos/algo/rle.c:70-88 | the end of the literal run, after stepping back before three equal bytes; always past the start |
| Rle.Encoder | bertos/algo/rle.c:48-109 | the bytes written are the encoding, its length is returned and the rest of the output is untouched |
| Rle.Decoder | bertos/algo/rle.c:119-150 | the bytes written are the decoding, its length is returned and the rest of the output is untouched |
| Rle.RoundTrip | bertos/algo/rle.c:119-150 | for any bytes and any bytes after their encoding, decoding gives the first and reads exactly the encoding |
| Rle.SizeBound | bertos/algo/rle.c:66-103 | the encoding is at most len + ceil(len/127) + 1 long; a run cut short by stepping back is paid for by the next one |
| Rle.SizeLowerBound | bertos/algo/rle.c:57-108 | the encoding is at least 2 ceil(len/127) + 1 long |
| Rle.BoundsAreTight | bertos/algo/rle.c:57-108 | both bounds are reached at every length |
| RleForm.EncodingIsTight | bertos/algo/rle.c:57-108 | for any bytes there is exactly one list of runs in which copies are never cut short before 127 and literal runs hold no three equal bytes, begin with no pair and end only at three equal bytes, at 127 bytes or with the input; encoding writes that list, copies counted up and literals down from 256 |
| RleForm.EncodingExample | bertos/algo/rle.c:77-95 | two bytes and ten copies of a third become a literal run of two and ten copies |
| RleForm.RunsAreDecoded | bertos/algo/rle.c:119-150 | any runs of up to 127 copies or 128 literal bytes are decoded, also those that the encoder never writes, and nothing behind the end marker is read |
| RleForm.DecodableIff | bertos/algo/rle.c:119-150 | input can be decoded if and only if it begins with runs and an end marker |
| Tea.Enc | bertos/algo/tea.c:81-101 | the loop applies all rounds to the block in memory, in either byte order, and leaves the key alone |
| Tea.Dec | bertos/algo/tea.c:110-130 | the loop takes all rounds back, starting from the product of the constant and the number of rounds |
| Tea.DecryptEncrypt | bertos/algo/tea.c:110-126 | decryption undoes encryption, for every key, block and number of rounds |
| Tea.EncryptDecrypt | bertos/algo/tea.c:81-97 | encryption undoes decryption |
| Tea.SumIsProduct | bertos/algo/tea.c:113 | the sum of encryption after n rounds is n times the constant modulo 2^32, which is where decryption starts |
| Tea.MemoryRoundTrip | bertos/algo/tea.c:99-100 | on words in memory: one block is the encryption of another exactly if that one is the decryption of the first |
| Tea.TwoRounds | bertos/algo/tea.c:69-98 | the blocks after one and two rounds with a key of four different words, as 32-bit arithmetic has them |
| Tea.LastSum | bertos/algo/tea.c:113 | 32 rounds; decryption starts from the sum 0xc6ef3720 |
| Tea.SameOnEitherProcessor | bertos/algo/tea.c:87-88 | the same four bytes in memory are the same word on little-endian and big-endian processors |
| Ramp.Ramp.Compute | bertos/algo/ramp.c:109-136 | the stored configuration, under the three assertions of the program |
| Ramp.AcceptedRange | bertos/algo/ramp.c:131-133 | the assertions hold exactly for ramps of 1024 to 2^26 - 1 clocks |
| Ramp.DomainIsAccepted | bertos/algo/ramp.c:111-133 | the range of arguments used below is exactly that of accepted ramps, up to their end |
| Ramp.RatioStored | bertos/algo/ramp.c:124 | the stored ratio is exact for different wavelengths and zero for equal ones |
| Ramp.TimeIsIdeal | bertos/algo/ramp.c:191 | the time fraction is not truncated anywhere on an accepted ramp |
| Ramp.DenomIsIdeal | bertos/algo/ramp.c:192 | the denominator is not truncated and lies between the larger of stored ratio and time fraction and 0xffff |
| Ramp.DividesByZero | bertos/algo/ramp.c:191-193 | the division is by zero exactly while the time fraction rounds to zero, and never after clock 1023 |
| Ramp.DividesByZeroPastZero | bertos/algo/ramp.h:149-151 | it is so at clock 1023 of one accepted ramp |
| Ramp.EvaluationExact | bertos/algo/ramp.c:189-196 | the result is the exact quotient modulo 2^16; with different wavelengths the quotient fits, except for one value of 65536 under a condition on ratio and time |
| Ramp.EqualWavelengths | bertos/algo/ramp.c:189-196 | with equal wavelengths the denominator is the time fraction, and the result the quotient by it modulo 2^16 |
| Ramp.EqualWavelengthsExample | bertos/algo/ramp.c:111 | an accepted ramp with equal wavelengths on which the step time is 0 and later 21845 |
| Ramp.NoMinimumNoStepTime | bertos/algo/ramp.c:193 | with a minimum wavelength of zero the step time is zero throughout |
| Ramp.WrapExample | bertos/algo/ramp.c:193 | an accepted ramp and a clock at which the result wraps to zero |
| Ramp.RatioExceedsMinimum | bertos/algo/ramp.c:124 | the wavelengths for which this cannot happen |
| Ramp.EvaluationBounded | bertos/algo/ramp.c:189-196 | the returned step time is at least the minimum wavelength if and only if it does not wrap, and never above the quotient by the stored ratio |
| Ramp.StepTimeInRange | bertos/algo/ramp.c:189-196 | the returned step time lies between the two wavelengths if and only if the time is not short or the quotient by the stored ratio is not above the maximum |
| Ramp.OvershootExample | bertos/algo/ramp.h:149-151 | an accepted ramp whose first step times exceed the maximum wavelength |
| Ramp.EvaluationMonotone | bertos/algo/ramp.c:189-196 | between two clocks the returned step time does not increase, if and only if it does not wrap at the first and not at the second |
| Ramp.FixMult32Bytewise | bertos/algo/ramp.c:172-181 | multiplying byte by byte equals the shifted product for 24-bit factors, without overflow |
| Md2.PermIsPermutation | bertos/algo/md2.c:100-109 | the configured substitution is a permutation of the bytes |
| Md2.Context.Compute | bertos/algo/md2.c:135-189 | state and checksum after one block |
| Md2.Context.Update | bertos/algo/md2.c:206-247 | appends the input to the message absorbed so far, across block boundaries |
| Md2.Context.End | bertos/algo/md2.c:256-278 | the digest is that of RFC 1319 for the message absorbed, although the checksum block is processed from its own storage |
| Md2.DigestOf | bertos/algo/md2.c:206-278 | for every way of splitting a message into updates, the digest is the multi-pass one of RFC 1319, section 3 |
| Md2.ChecksumNeedsNoChain | bertos/algo/md2.c:176-182 | restarting the checksum chain from the last stored byte at each block is the single pass of RFC 1319 |
| Md2.AbsorbBlock | bertos/algo/md2.c:239-243 | processing one more block extends both passes over the message by that block |
| Md2.PaddingInjective | bertos/algo/md2.c:120-133 | different messages are different after padding |
| Md2Rfc.PaddingBytes | bertos/algo/md2.c:120-133 | one to sixteen bytes that complete the block, each equal to their number |
| Md2Rfc.ProcessIs | bertos/algo/md2.c:135-172 | any nineteen arrays that are related by eighteen passes, each byte the old one and the substituted byte before it, with the number of the pass added to what is carried over, end in the state that the program computes |
| Md2Rfc.PassExists | bertos/algo/md2.c:163-170 | the pass over an array satisfies that relation |
| Md2Rfc.BlockChecksum | bertos/algo/md2.c:173-182 | the checksum after a block, each byte taking in the substituted sum of the message byte and the checksum byte before it |
| Md2Rfc.PermValues | bertos/algo/md2.c:100-109 | five values of the substitution |
| MovingAvg.MovingAvg.Push | bertos/algo/moving_avg.h:67-76 | the window loses its oldest value when full and gains the new one, with sum, count and index in step |
| MovingAvg.MovingAvg.Reset | bertos/algo/moving_avg.h:55-60 | the window is empty |
| MovingAvg.MovingAvg.Get | bertos/algo/moving_avg.h:78-85 | the average of the window's values |
| MovingAvg.UnrolledPush | bertos/algo/moving_avg.h:67-76 | writing at the index and advancing it, wrapping or not, drops the oldest value and appends the new one |
| MovingAvg.PushIsLast | bertos/algo/moving_avg.h:67-76 | the window always holds the last values of the whole history |
| StatusMgr.DirectionSettles | bsm-2/status_mgr.c:198-225 | asking twice for the direction gives the same answer, for all directions and rates, if and only if rate_up >= 0 >= rate_down |
| StatusMgr.StatusManager.VerticalDir | bsm-2/status_mgr.c:198-225 | the direction with the limit of the current one relaxed to zero |
| StatusMgr.StatusManager.Classify | bsm-2/status_mgr.c:289-329 | the chain of conditions, asking for the direction each time, chooses one status for the direction and altitude and never falls through |
| StatusMgr.StatusManager.StatusCheck | bsm-2/status_mgr.c:252-333 | one whole check against its step function, on the ring buffers |
| StatusMgr.StatusManager.StatusReset | bsm-2/status_mgr.c:187-196 | no fix, hovering and empty windows |
| StatusMgr.StatusManager.Reload | bsm-2/status_mgr.c:369-378 | a new configuration starts the history anew |
| StatusRuns.Telescope | bsm-2/status_mgr.c:262-269 | the sum of a window of differences is the difference between the last value and the one as many checks earlier, or the first |
| StatusRuns.EveryStateIsCoherent | bsm-2/status_mgr.c:252-333 | in every reachable state the status fits the direction, and is NOFIX exactly until the windows are full |
| StatusRuns.LossForgets | bsm-2/status_mgr.c:256-260 | two flights that lose the fix and then see the same samples are in the same state, whatever came before |
| StatusRuns.StatusFromHistory | bsm-2/status_mgr.c:252-333 | windows and their sums from the samples since the last loss; no status before the sixth; the direction is UP if and only if some rate since then exceeded its limit and all rates from there on are upward, DOWN likewise, and either only if altitude or pressure has changed that way over the last minute |
| StatusRuns.DirectionFromRates | bsm-2/status_mgr.c:198-225 | UP and DOWN, each as an if-and-only-if on the rates of the samples since a reset |
| StatusRuns.SumsFit | bertos/algo/moving_avg.h:67-76 | for altitudes within m of zero the running sum of altitude differences stays within 2 m, between its two updates as well |
| StatusFlapping.SwitchesCostDistance | bsm-2/status_mgr.c:232-250 | a switch with two thresholds changes at most once more than the distance moved contains the gap |
| StatusFlapping.ClimbIsSteady | bsm-2/status_mgr.c:299-308 | while the direction stays UP, the switches between TAKEOFF and STRATOPHERE_UP number at most 1 + movement/751 |
| StatusFlapping.FallIsSteady | bsm-2/status_mgr.c:309-323 | the same for STRATOPHERE_FALL and FALLING while it stays DOWN, outside LANDING and at or above the landing altitude |
| StatusFlapping.DescentIsSteady | bsm-2/status_mgr.c:309-323 | with landing_alt + 750 <= tropopause_alt, the same for every descent that starts outside LANDING, through LANDING and back; one change more if it starts in STRATOPHERE_FALL below the tropopause |
| StatusFlapping.BelowTropopauseExample | bsm-2/status_mgr.c:234-242 | altitudes on which that one change more is needed |
| StatusFlapping.LandingIsSteady | bsm-2/status_mgr.c:244-250 | the same for entering and leaving LANDING, if landing_alt + 750 <= tropopause_alt |
| StatusFlapping.LandingFlaps | bsm-2/status_mgr.c:309-318 | for every configuration with landing_alt + 750 > tropopause_alt, a flight from a reset that changes the landing status three times within 1501 metres while it sinks |
| StatusFlapping.LandingBoundedIff | bsm-2/status_mgr.c:309-318 | over all descents of all flights the bound on landing switches holds if and only if landing_alt + 750 <= tropopause_alt |
| StatusLimits.EveryStatusIsLocated | bsm-2/status_mgr.c:289-329 | in every reachable state: GROUND_WAIT below the ground altitude and HOVERING at or above it, TAKEOFF, STRATOPHERE_UP, STRATOPHERE_FALL and FALLING within 750 metres of their side of the tropopause, FALLING at or above the landing altitude and LANDING less than 750 metres above it at most |
| StatusLimits.EveryChangeIsCrossed | bsm-2/status_mgr.c:232-250 | at every check of every run the status changes only where the limit, shifted by 750 metres for the status before, is crossed |
| StatusLimits.RateInNumbers | bsm-2/status_mgr.c:278-285 | the rate is the climb since six checks earlier over 60 seconds, or nine metres for each unit of falling pressure below the ground altitude |
| StatusLimits.DefaultLimits | bsm-2/status_mgr.c:94-100 | statuses and directions on both sides of each limit of the default configuration |
| Cutoff.CutoffManager.CheckDist | bsm-2/cutoff.c:229-270 | the timer of the distance and whether it has run out |
| Cutoff.CutoffManager.CheckAltitude | bsm-2/cutoff.c:284-324 | the highest altitude, the timer of the drop and whether it has run out |
| Cutoff.CutoffManager.CheckMaxalt | bsm-2/cutoff.c:184-224 | the timer of the altitude limit and whether it has run out |
| Cutoff.CutoffManager.CutoffCheck | bsm-2/cutoff.c:406-452 | one check against its step function: short-circuit, pause, cut, test mode |
| Cutoff.CutoffManager.CutoffReset | bsm-2/cutoff.c:469-478 | every reset leads to the same fresh state |
| CutoffHistory.TimerStep | bsm-2/cutoff.c:229-270 | a timer follows the evaluations of its condition: it runs since the first of the current unbroken run, and runs out exactly when that lasts longer than the timeout |
| CutoffHistory.PeakStep | bsm-2/cutoff.c:291-293 | the stored altitude is the maximum of -2000 and all evaluated altitudes in flight, and the drop is measured from it |
| CutoffHistory.AnswerFromHistory | bsm-2/cutoff.c:419-424 | in every run each of the distance, drop and altitude checks fails exactly if its own history since the last reset says so, the highest altitude is that of the readings seen, and the answer is that one limit is exceeded, short-circuit included |
| CutoffHistory.PauseAtZeroIsNone | bsm-2/cutoff.c:429 | a run in which a pause at clock zero does not hold back the cut, and a pause one millisecond later does |
| CutoffHistory.FailingCheckHidesPeak | bsm-2/cutoff.c:421-424 | a run in which the highest altitude stands still because the distance check fails |
| CutoffHistory.PauseMatches | bsm-2/cutoff.c:429-441 | a cut is held back exactly if the last command since the reset is a pause at a clock other than zero less than five minutes old |
| CutoffHistory.RunsAtFirstReady | bsm-2/cutoff.c:406-452 | in every run the automatic cut happens exactly at the first check since the last reset that exceeds a limit while not on hold and outside test mode |
| CutoffHistory.CutsAtMostOnce | bsm-2/cutoff.c:407-414 | between two automatic cuts there is a reset |
| CutoffLimits.NothingWrongNoAnswer | bsm-2/cutoff.c:419-424 | in runs that are in time, never above altmax_meters, never too far away and without a fall of more than delta_altitude, readings on the ground and without fix excepted, no check finds a limit exceeded |
| CutoffLimits.LowNeverFails | bsm-2/cutoff.c:188-224 | whatever else happens, the timer of the altitude limit never starts in runs whose readings in flight are at or below it |
| CutoffLimits.NearNeverFails | bsm-2/cutoff.c:233-270 | the same for the distance |
| CutoffLimits.LevelNeverFails | bsm-2/cutoff.c:288-324 | the same for the drop, measured from every earlier reading in flight and from -2000 metres |
| CutoffLimits.LateAnswers | bsm-2/cutoff.c:326-337 | once the mission time is over every check finds it |
| CutoffLimits.StayingTooHighAnswers | bsm-2/cutoff.c:191-219 | above altmax_meters in flight at every check for longer than the timeout: the last check finds a limit exceeded unless one before did |
| CutoffLimits.StayingTooFarAnswers | bsm-2/cutoff.c:236-265 | the same for the distance |
| CutoffLimits.StayingDroppedAnswers | bsm-2/cutoff.c:291-317 | the same for readings more than delta_altitude below an earlier one in flight |
| CutoffLimits.TwoChecks | bsm-2/cutoff.c:116-125 | with the default limits, the answer of the second of two checks as an if-and-only-if on time, altitudes, distance and status, in numbers |
| CutoffLimits.FallFrom | bsm-2/cutoff.c:291-317 | with the default limits, a fall is answered if and only if it is more than 500 metres and lasts more than 30 seconds |
| CutoffLimits.PauseLasts | bsm-2/cutoff.c:427-444 | a pause holds the cut back for 300000 milliseconds unless it is at clock zero, and is used up by the cut; resuming ends it |
| PowerFlag.Power.SetPendingPowerFlag | bsm-2/logging.c:214-228 | overwriting and truncating leaves exactly the new text in the file |
| PowerFlag.Power.CheckPreviousPowerStatus | bsm-2/logging.c:198-212 | whether the file begins with the text of a good power-up |
| PowerFlag.Power.InitPower | bsm-2/logging.c:230-244 | a missing file is created with the text of a good power-up, an existing one is kept |
| PowerFlag.Power.PowerEnable | bsm-2/measures.c:189-202 | switching on is the three steps flag, power, flag of the protocol; switching off leaves the flag alone |
| PowerFlag.Power.CmdCurrOverride | bsm-2/measures.c:237-242 | the override command as steps of the protocol |
| PowerFlag.Power.CmdCurrReset | bsm-2/measures.c:259-266 | the reset command as steps of the protocol |
| PowerFlag.Power.MeasuresReload | bsm-2/measures.c:268-284 | powers up after a clean flag, otherwise overrides with the power off |
| PowerFlag.Power.WatchCurrent | bsm-2/measures.c:206-223 | too much current switches the power off unless overridden, once the watch process has been started |
| PowerFlag.EveryStateIsConsistent | bsm-2/measures.c:189-202 | at every moment of every run the flag is pending while a power-up lasts, and cleared while the power is on otherwise |
| PowerFlag.InterruptedPowerUpIsNotRepeated | bsm-2/measures.c:268-284 | after a reset during a power-up the power is off at every later moment, over any reboots, reloads and further resets, until a command asks for it |
| PowerFlag.FlagTellsUnfinished | bsm-2/logging.c:198-228 | the file is unclean if and only if the last power-up of the run has not been completed |
| PowerFlag.RebootRepeatsOnlyGoodPowerUp | bsm-2/measures.c:268-284 | a reboot powers up by itself if and only if no power-up is unfinished; otherwise a reset command brings the power back and clears the flag |
| PowerFlag.OverCurrentIsForgotten | bsm-2/measures.c:189-223 | a run in which an over-current during a commanded power-up is followed by a cleared flag and a new power-up at the next boot |
| PowerFlag.OverrideKeepsPower | bsm-2/measures.c:226-242 | after an override command with a non-zero argument the override stays, and the power is on unless the flag is just being written, over any steps, any over-current and further such commands |
| PowerFlag.OverrideObeys | bsm-2/measures.c:237-242 | the state after the override command with either argument |
| PowerFlag.OverCurrentCutsPower | bsm-2/measures.c:206-223 | outside override mode an over-current switches the power off, as does the command with argument zero, and it stays off over any steps and resets until a command or a reload |
| PowerFlag.ResetProtects | bsm-2/measures.c:244-266 | after the reset command the power is on, and an over-current switches it off again |

## Left out

- Signals: sine table, filters, phase lock and sampling of `scripts/afsk.py`; a transmission is a sequence of tones, one
  per bit, and reception starts at one level per bit. The phase of the oscillator is not modelled.
- Text is a sequence of bytes: upper case is that of the C locale, and an SSID is a decimal numeral with blanks around
  it and a plus sign in front at most.
- Frames that `Ax25.send` accepts although nothing can decode them: paths of a single call and calls longer than six
  characters. What the link does with all others, and with requests that fail, is covered.
- An error in the decoder is an outcome after which the receiver takes the next byte; that the caller may end instead is
  not modelled.
- Printing of the received and rejected frames, and the streams that carry them.
- The floating-point variant of the ramp, `ramp_setup`, `ramp_default` and the unit conversions of `ramp.h`, which
  depend on the clock of the motor driver.
- The standard substitution table of MD2, which the configuration does not select, and `md2_init` beyond its effect.
- Malformed input of `unrle`, which the program does not check for: `Rle.Decoder` requires complete input.
- Rates and pressures are reals: rounding of `float` is not modelled; nor is overflow of 32-bit clocks. Altitudes are
  unbounded; `StatusRuns.SumsFit` tells how large their sums get. A clock counts milliseconds and does not run backwards.
- MovingAvg.MovingAvg.Push: works on reals, so that the drift of a running `float` sum is not captured, nor the wrapping
  of a 32-bit integer sum for altitudes beyond 2^30 metres.
- Status set by hand in test mode, the landing buzzer, the camera pulses and radio messages of the status manager.
- The distance on the globe (`cutoff.c` lines 149-180): being too far away is an input of the check.
- The pulses of the cutting procedure, which takes 90 seconds: it is one event. The manual cut-off command and the
  log flags of the checks, which do not touch the state.
- Test mode, which switches the auxiliary power directly (`bsm-2/testmode.c` lines 72-83): the results on the power-up
  flag are about operation outside it. Nor is the flag modelled before logging is initialised, when writing it has no
  effect and it reads as unclean; `bsm-2/main.c` initialises logging first.
- Failures of the file system: a write of the power-up flag is one step, and the file can always be created. While
  the board is down the auxiliary power counts as off.
- The current reading of the watch process is compared outside the state machine of `PowerFlag`: it may find too much
  current at any moment after it has been started.
- Pulse widths, serial ports, GPS, sensors, logging, telemetry, the command parser of the uplink and the configuration
  module; configured values lie in the ranges to which they are clamped.
- Other algorithms of the library (`randpool`, `rand`, `rotating_hash`, `mean`), which would add easy members only.
