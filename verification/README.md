# Verified model of the M92 test bed

A Dafny model of three parts of the repository, with proofs.

**Remote memory commands.** A host driver (`bin/comms.py`) sends framed commands through a PicoROM to a
target (`src/main.c`) that reads and writes its memory and answers. Bytes travel one at a time through a
register window with 8-bit sequence counters (`src/comms.c`). The firmware on the other side of the window
is not part of this model: `PeerContract` says what the firmware and the host behind it may do, action by
action, and `Bus` lets them take any number of those actions before every single register access of the
target, so each method's contract holds for every interleaving. The host writing a command is one of these
actions: `plans` are the commands it is going to write, in this order, each at a moment of its own, also in
the middle of a poll. Plans are arbitrary, so every run in which a host makes up its mind later is one of
those covered. Patience (`delay`) is the fairness assumption: a duty left alone uses it up. Above
the link, `Protocol` defines the atomic machine (one memory update and one answer per command), `Phases`
the states of the resumable command machine, `CommandTarget` the machine itself, `HostDriver` the driver,
and `Session` whole runs.

**Formatted output.** The integer, character and string conversions of `src/printf/printf.c` in the build
of `Makefile:21-25` (16-bit `int`, 32-bit `long`, no floating point, no `long long`), as methods over an
output gadget, proved equal to functions on strings, which are then compared with section 7.21.6.1 of
ISO C11, and with section 7.21.6.5 for truncation. `FormatStandard` says what that comparison means in
plain characters and numbers.

**ROM splitting.** The slicing, padding and mirroring of `bin/split_rom.py`.

Assumptions of the command model: `active` stays up once it has risen and the peer's counters are then zero;
`pending` goes up only while written bytes are not all announced, and comes down some time after; the host
writes whole commands and writes what it plans some time; the driver's read timeout is longer than any wait
that ends; the window's magic is right; addressed memory is disjoint from the target's own `Cmd` and from the
register window; a word access at offset 0xffff takes its second byte from offset 0 of the same segment. An
IDLE byte between commands is allowed and is dropped. Commands are well-formed in the sense of
`Protocol.WellFormed`: the payload shapes the driver sends, which never hang (`HangsIff`),
writes that can be cut anywhere between their units (`PiecewiseSafeIff`), and word reads whose index fits an
`int`. Counts are unrestricted: fills and byte reads do what the target's 16-bit `size_t` and `int` make of
them, and `FillIff` and `ReadIff` say exactly when that is what was asked for.

Where the code does something else than its interface suggests, the code is modelled and the exact condition
is proved: besides these four `IntegerIff` (32-character digit buffer), `StringIff` (strings beyond INT_MAX),
`PrecisionIsMootIff` and `BlankStringIff` (`.*` with a negative argument), `ReturnIff` (texts of 2^15
characters or more), `BufferIff` (texts of 2^16 or more), `ComposesIff` (formats that end inside a
specification) and `AscendingIsMoveIff` (overlapping copy). A comment at `src/printf/printf.c:297-299` calls
negating LONG_MIN well defined; it is not in C, and the model takes the two's-complement result.

## Model

| member | source | states |
|---|---|---|
| PeerContract.DoIsLater | src/comms.c:97-130 | whatever single action the peer or the host takes, it takes nothing back, never overwrites an unread byte, and has not more left to do |
| PeerContract.MayHappen | src/comms.c:97-130 | the environment is not tamed: each register event and each host write is possible whenever the contract allows it |
| PeerContract.LaterTransitive | src/comms.c:97-130 | the same after any number of actions |
| PeerContract.OnwardExtends | bin/comms.py:29 | the commands and bytes written only grow at their end |
| PeerContract.Bus.Elapse | src/comms.c:97-130 | between two register accesses any actions may happen, host writes included, and a duty is not put off for ever |
| PeerContract.Bus.Plan | bin/comms.py:29 | the host is going to write one more command behind the others |
| CommsLink.ByteInStep | src/comms.c:99-103 | the byte fetched is the next of the stream though the peer may announce another before it is counted; the counters are then at most two apart |
| CommsLink.AckPending | src/comms.c:122-130 | with one byte outstanding, equality of the 8-bit counters means exactly that it is acknowledged |
| CommsLink.Comms.CheckMagic | src/comms.c:46-57 | true exactly when the magic is or once was PICO |
| CommsLink.Comms.CheckActive | src/comms.c:59-63 | true exactly when the window is active and its magic right |
| CommsLink.Comms.Update | src/comms.c:66-82 | a session that is up stays up; at its start both counters agree with the peer's |
| CommsLink.Comms.TakeByte | src/comms.c:101-102 | returns the next byte of the stream and keeps the counters in step modulo 256 |
| CommsLink.StepIsDue | src/comms.c:97-99 | while nothing is waiting but bytes are to come, or `pending` is up, time brings the next step closer |
| CommsLink.Comms.Sample | src/comms.c:97-99 | the loop goes on exactly if a byte was waiting when `in_seq` was read or `pending` was up when that was read, and then takes a byte exactly if one is waiting; a turn without a byte brings the peer closer to delivering one, or to lowering a stale `pending` |
| CommsLink.Comms.Read | src/comms.c:89-109 | the bytes put in the buffer are exactly the next bytes of the host's stream and nothing else in the buffer changes; there are fewer than asked for only if no byte was waiting at the last look and `pending` was down after it; an empty result means progress of the peer; terminates |
| CommsLink.Comms.AwaitAck | src/comms.c:124-130 | the wait ends, with the byte acknowledged |
| CommsLink.Comms.PutByte | src/comms.c:119-132 | the peer sees exactly this byte next, once |
| CommsLink.Comms.Write | src/comms.c:111-135 | the peer sees exactly the bytes of far memory in order; a negative length sends nothing |
| CommsLink.Comms.WriteOne | src/main.c:56 | the same for the single tail byte |
| Memory.PhysIsLinear | src/main.c:113-117 | a far pointer addresses sixteen times its segment plus its offset, on 20 bits, and steps inside its segment |
| Memory.SameLinearReads | src/util.h:38-50 | far pointers to one linear address read the same byte |
| Memory.StoreHit | src/util.h:38-64 | after a write of at most a segment every byte is found at its address |
| Memory.StoreMiss | src/util.h:38-64 | no other address changes |
| Memory.LoadStore | src/util.h:38-64 | reading back what was written gives it |
| Memory.StoreChunk | src/main.c:113-126 | writing two pieces with the second pointer recomputed on 32 bits is writing the whole, if the second starts in the same segment |
| Memory.PiecewiseSafeIff | src/main.c:113-126 | that holds for all memories and all cuts between bytes or words exactly when no unit starts beyond the segment; a word that straddles its end is safe |
| Memory.CrossingLands | src/main.c:113-126 | a chunk that begins beyond its segment starts 16 bytes above where a stepped pointer would be |
| Memory.PeriodicAt | src/util.h:11-31 | a repeated byte or word leaves its pattern at every offset reached, however often it went round the segment |
| Memory.PeriodicIff | src/util.h:11-31 | two lengths of one pattern leave the same memory, whatever it held, exactly when they are equal or both fill the segment |
| Memory.AscendingIsMove | src/util.h:38-50 | the ascending copy moves correctly when it goes down or does not overlap |
| Memory.AscendingIsMoveIff | src/util.h:38-50 | and only then: a destination inside the source smears some contents |
| Memory.MemCopyNear | src/util.h:66-69 | the copy inside one buffer, byte by byte |
| Memory.MemCopyBytes | src/util.h:38-50 | far memory becomes the old memory with the bytes stored |
| Memory.MemCopyWords | src/util.h:52-64 | the same for words |
| Memory.MemSetBytes | src/util.h:11-20 | a byte stored over and over |
| Memory.MemSetWords | src/util.h:22-31 | a word stored over and over, low byte first |
| Protocol.WireFormat | bin/comms.py:28-29 | every byte of a command on the wire: opcode, arguments and payload size least significant byte first, payload |
| Protocol.DecodeEncode | bin/comms.py:28-29 | a command is recovered from its bytes whatever follows, and none of what follows is used |
| Protocol.ArgumentsRoundTrip | src/main.c:79-81 | the header fields are read at the offsets where the host packs them |
| Protocol.ApplyHit | src/main.c:110-167 | a write puts its payload, a fill its payload over and over, at the addresses from arg0 on |
| Protocol.ApplyLinear | src/main.c:110-167 | by opcode number: payload byte k, or its beat in a fill, is found at the linear address 16 * segment + offset + k, or at the other end of the segment; other opcodes leave memory alone |
| Protocol.ApplyMiss | src/main.c:110-167 | every address a command does not name keeps its byte |
| Protocol.FillIff | src/main.c:146-167 | for all memories the fill is the one asked for exactly when the count is below 2^16, or what a word fill keeps of it still goes round the segment |
| Protocol.ReadIff | src/main.c:129-134 | a byte read answers as many bytes as asked for exactly when the count is below 2^15 |
| Protocol.ReplyLinear | src/main.c:129-145 | by opcode number: how many bytes a read answers, and which byte of memory each is |
| Protocol.WellFormedIff | src/main.c:106-175 | by opcode number, which commands the results are about: writes that may be cut anywhere, reads without payload, fills with at most their value, and any unknown opcode |
| Phases.ShiftKeepsFramed | src/main.c:46-52 | the sliding buffer still holds exactly the payload bytes read and not consumed; read = consumed + available; no counter wraps |
| Phases.SettledNotStuck | src/main.c:94-103 | a command that is not complete still has bytes to come and room for them |
| Phases.PartialWrite | src/main.c:110-128 | one processing step advances a half-done write by just the bytes it takes, even half a word short |
| Phases.FillSettles | src/main.c:146-167 | a fill happens when its whole value has arrived, not before and not twice |
| Phases.ProcessedIs | src/main.c:106-175 | one processing step advances the half-done memory of any command by the bytes it takes |
| Phases.LoadedSettles | src/main.c:106-175 | one processing step does to memory what the bytes it takes ask for and answers a read once |
| Phases.SettledComplete | src/main.c:54-59 | when the payload is used up memory is the atomic machine's after the command and only the tail is missing |
| Phases.ShiftedIs | src/main.c:46-59 | after the shift a command is complete or waiting with room in the buffer |
| Phases.FillKeepsLoaded | src/main.c:94-103 | bytes taken from the stream extend the buffered slice of the payload |
| Phases.FramingInStep | src/main.c:42-104 | no byte of a later command is taken, the commands done are answered in full with their tails, the one at hand at most in full |
| Phases.RunOnCourse | src/main.c:344-350 | what was answered so far is the front of what the atomic machine answers |
| Phases.RunIsAtomic | src/main.c:344-350 | with nothing left to do memory, answers and bytes taken are the atomic machine's |
| Phases.WrittenWhole | src/main.c:73-77 | once a byte of the command at hand was taken all its bytes are written, so the header loop never waits for the host's next decision |
| Phases.NeverAhead | src/main.c:42-104 | where the run stands is told by the commands already written alone |
| Phases.DoneIff | src/main.c:54-59 | nothing is left to do exactly when all commands are written, none is at hand and every byte was taken |
| Shapes.CountersAre | src/main.c:42-104 | without any assumption on the payload, the machine's counters after polls that found chunks of given sizes, and which polls are possible, are functions of the sizes |
| Shapes.HungForEver | src/main.c:42-104 | a machine with bytes left over and none to come, or no room, stays so for ever: no later poll finds or uses up a byte, and the command never ends |
| Shapes.HangsIff | src/main.c:121-167 | some way of cutting the payload leaves a command hanging exactly for reads with a payload, odd word writes, and word fills of neither no nor one word |
| CommandTarget.Target.constructor | src/main.c:304 | the machine starts idle |
| CommandTarget.Target.Shift | src/main.c:46-52 | the shift in place: the whole new state, and that it leaves the command complete or waiting |
| CommandTarget.Target.Finish | src/main.c:54-59 | the tail is sent and the command counts as done, once |
| CommandTarget.Target.ReadAll | src/main.c:73-77 | the header loop ends and reads exactly the next bytes |
| CommandTarget.Target.ReadArguments | src/main.c:73-81 | the arguments read are those of the command at hand |
| CommandTarget.Target.Start | src/main.c:61-88 | nothing was waiting and `pending` was down, an IDLE byte was dropped, or the command at hand is started |
| CommandTarget.Target.Fill | src/main.c:94-103 | the next stream bytes are appended, only payload bytes are taken, at most what fits; if payload is missing and there is room nothing was waiting and `pending` was down; progress is made |
| CommandTarget.Target.SendWords | src/main.c:140-143 | the words go out as consecutive bytes |
| CommandTarget.Target.ProcessWrite | src/main.c:110-128 | memory and consumed count after a write step |
| CommandTarget.Target.ProcessRead | src/main.c:129-145 | the bytes sent by a read step, with the 16-bit count |
| CommandTarget.Target.ProcessFill | src/main.c:146-167 | memory and consumed count after a fill step |
| CommandTarget.Target.ProcessCmd | src/main.c:106-175 | a started command is left settled; between commands nothing happens |
| CommandTarget.Target.UpdateCmd | src/main.c:42-104 | keeps the run on course and makes progress; takes what there is to take in one call; `is_new` marks a command just started |
| CommandTarget.Target.Poll | src/main.c:346-350 | however the peer behaves, the run invariant holds again and the run is closer to its end |
| CommandTarget.Target.Plan | bin/comms.py:29 | a command the host decides to write, at whatever later moment, changes nothing for those before it |
| CommandTarget.Target.IsDone | src/main.c:54-59 | tells from registers and counters whether anything is left to do |
| HostDriver.PacksIff | bin/comms.py:28 | a header can be packed exactly when some command has these fields on the wire, that is for 8, 32, 32 and 16 bits |
| HostDriver.UnpackPack | bin/comms.py:43-54 | packing words and pairing the bytes up again is the identity |
| HostDriver.WordRoundTrip | bin/comms.py:41-55 | on the atomic machine a word read returns the words a word write stored, up to 16384 of them, also with the last word straddling the segment end |
| HostDriver.Pico.Await | bin/comms.py:31 | waiting for the answer ends, with the bytes or when they will never come |
| HostDriver.Pico.DoCmd | bin/comms.py:25-36 | with the right response size the answer and the memory are the atomic machine's and the tail check never fails; a larger one times out after the whole effect; a smaller one takes a data byte for the tail; what cannot be packed changes nothing |
| HostDriver.Pico.ReadBytes | bin/comms.py:38-39 | returns the memory slice for counts below 2^15, times out for larger ones, and leaves memory alone |
| HostDriver.Pico.ReadWords | bin/comms.py:41-46 | the same in words |
| HostDriver.Pico.WriteBytes | bin/comms.py:48-49 | stores the data, or nothing with an error |
| HostDriver.Pico.WriteWords | bin/comms.py:51-55 | stores the packed words; a value that is no word is an error and changes nothing |
| HostDriver.Pico.FillBytes | bin/comms.py:57-59 | stores the byte as often as the low 16 bits of the count say |
| HostDriver.Pico.FillWords | bin/comms.py:61-63 | the same with words |
| HostDriver.PairUp | bin/comms.py:43-46 | the loop that makes words of bytes |
| HostDriver.PackAll | bin/comms.py:52-54 | the loop that makes bytes of words, with its error |
| Session.OnCourse | src/main.c:344-350 | at any point between polls the target has answered only what the atomic machine answers to the commands already written, and when these are done memory and output are the atomic machine's |
| Session.AnyRun | src/main.c:344-350 | that holds after every run: for every sequence of well-formed commands, written at any moments also inside polls, and every interleaving; what was written stays written |
| Session.RunToEnd | src/main.c:344-350 | everything written or planned is carried out after finitely many polls |
| Session.FreshRun | src/main.c:304-350 | the same from boot on |
| Session.WriteThenReadWords | bin/comms.py:41-55 | end to end the words read are the words written |
| Session.FirstTransfer | bin/comms.py:41-55 | and so they are for the first transfer after boot |
| OutputGadget.TerminatedIsTruncated | src/printf/printf.c:322-352 | the front of the text cut at n - 1 characters, a NUL, and nothing beyond n touched |
| OutputGadget.ClosedIsTerminated | src/printf/printf.c:322-352 | below 2^16 characters that is what the code leaves behind, though it writes at a 16-bit position |
| OutputGadget.BufferIff | src/printf/printf.c:322-352 | all texts of a length come out right in the buffer exactly when the length is below 2^16; from there on the NUL or the front is wrong for some |
| OutputGadget.Gadget.constructor | src/printf/printf.c:362-383 | how much of the buffer is usable |
| OutputGadget.Gadget.PutChar | src/printf/printf.c:322-339 | every character is counted, and the buffer holds all that were put where the wrapping position put them |
| OutputGadget.Gadget.Terminate | src/printf/printf.c:342-352 | the terminating NUL, at the wrapped position or the last usable place |
| Digits.NumeralValue | src/printf/printf.c:545-549 | the digits evaluate back to the number |
| Digits.NumeralDigits | src/printf/printf.c:545-549 | they are digits of the base, the leading one not zero |
| Digits.NumeralIsUnique | src/printf/printf.c:545-549 | no other digit string does that, so the numeral is minimal |
| Digits.DigitsFit | src/printf/printf.c:549 | 32 bits never need more than 32 digits, in any base |
| Digits.ElevenDigits | src/printf/printf.c:549 | nor more than 11 from base 8 on |
| IntegerText.C11ShowsValue | src/printf/printf.c:1160-1238 | the prescribed text fills the width, has the digits the precision asks for, and its digits read as the value |
| IntegerText.SameWithPrefix | src/printf/printf.c:483-507 | taking back zero padding makes exactly the room the 0x prefix needs |
| IntegerText.SameInOctal | src/printf/printf.c:477-507 | the octal # rule: one zero in front, and none if there is one already |
| IntegerText.SameInDecimal | src/printf/printf.c:464-519 | the sign is paid for out of a zero-padded width |
| IntegerText.SameLayout | src/printf/printf.c:458-553 | when the number fits, padding, sign, prefix and zeros are those of ISO C11 |
| IntegerText.TooLongDiffers | src/printf/printf.c:468-509 | when it does not, the text differs |
| IntegerText.IntegerIff | src/printf/printf.c:458-553 | for every 32-bit value, base, flag set, width and precision the text is the one of ISO C11 if and only if the number fits 32 characters, or is over by a blank sign that the padding replaces |
| IntegerText.CodePrintsLast32 | src/printf/printf.c:458-553 | for all 32-bit values and prepared flags: of sign, prefix, zeros and digits the last 32 characters, in a field of blanks; a 0x number zero-padded to exactly 33 columns shows a zero for its x |
| IntegerText.PrecisionIsMootIff | src/printf/printf.c:1086-1090 | with a negative precision argument, which the code takes for zero, an integer prints as ISO C11 says if and only if it shows a digit anyway and no zero padding is lost |
| IntegerOutput.OutRev | src/printf/printf.c:431-453 | what is put for a reversed text, though positions wrap at 16 bits |
| IntegerOutput.OutRevWidth | src/printf/printf.c:431-453 | without an effective zero flag exactly max(width, length) characters |
| IntegerOutput.PutDigits | src/printf/printf.c:545-549 | the digit loop makes the whole numeral |
| IntegerOutput.PutZeros | src/printf/printf.c:463-475 | the zero padding loops |
| IntegerOutput.PutHash | src/printf/printf.c:484-507 | digits taken back and the prefix put |
| IntegerOutput.PutSign | src/printf/printf.c:509-519 | the sign, if there is room |
| IntegerOutput.PrintIntegerFinalization | src/printf/printf.c:458-522 | the in-place buffer work prints the layout |
| IntegerOutput.PrintInteger | src/printf/printf.c:525-553 | prints the text that IntegerIff is about |
| FormatOutput.ReadFlags | src/printf/printf.c:1024-1037 | the flag loop |
| FormatOutput.Atou | src/printf/printf.c:420-427 | the decimal scan in 16-bit arithmetic |
| FormatOutput.ReadSpec | src/printf/printf.c:1059-1150 | flags, width, precision and length from the format cursor, or that the string was cut short |
| FormatOutput.PutCharacter | src/printf/printf.c:1258-1276 | the field of a character |
| FormatOutput.PutString | src/printf/printf.c:1284-1305 | the field of a string, padded by the counted length |
| FormatOutput.PutInteger | src/printf/printf.c:1160-1238 | flags, base and argument of an integer conversion |
| FormatOutput.PutConversion | src/printf/printf.c:1153-1347 | the text of a conversion and the argument it uses |
| FormatOutput.FormatStringLoop | src/printf/printf.c:1039-1349 | puts exactly the rendering of the format; the cursor advances and the loop ends |
| FormatOutput.Vsnprintf | src/printf/printf.c:1352-1377 | the returned count and every byte of the buffer for any format, argument list and size |
| FormatOutput.ReturnIff | src/printf/printf.c:1362 | the value returned is the length of the text exactly when that is below 2^15 |
| FormatProof.ScanReadsDecimal | src/printf/printf.c:420-427 | the scan is the inverse of the decimal numeral for 16-bit numbers |
| FormatProof.FlagsAreASet | src/printf/printf.c:1024-1037 | order and repetition of flags do not matter |
| FormatProof.SpecRoundTrip | src/printf/printf.c:1024-1150 | from any spelling of a conversion specification exactly its flags, width, precision and length are read, and exactly its star arguments are taken |
| FormatProof.SpelledIsCString | src/printf/printf.c:1048 | a format of the grammar holds no NUL |
| FormatProof.ItemsCompose | src/printf/printf.c:1039-1349 | a format of the grammar followed by any other prints the texts of its items, then the other's on the remaining arguments |
| FormatCompose.SpecExtend | src/printf/printf.c:1057-1150 | reading a specification does not look beyond it |
| FormatCompose.RenderComposes | src/printf/printf.c:1039-1349 | any format string that does not end inside a specification, followed by any other, prints its own text, then the other's on the remaining arguments |
| FormatCompose.ComposesIff | src/printf/printf.c:1039-1349 | and only those do: behind one cut short a % comes out |
| FormatProof.StringIff | src/printf/printf.c:1278-1308 | the string field is the standard's if and only if there is a precision, or the string or the width is at most INT_MAX |
| FormatProof.BlankStringIff | src/printf/printf.c:1086-1090 | with a negative precision argument a string prints as the standard says if and only if it is all blanks and fits the width |
| FormatProof.ItemIff | src/printf/printf.c:1153-1347 | one conversion, with any arguments of its kinds, prints what ISO C11 says if and only if it is within the limits |
| FormatProof.FormatIsC11 | src/printf/printf.c:1039-1349 | whole format strings print the concatenation of what ISO C11 says of their items |
| FormatStandard.ItemsAre | src/printf/printf.c:1024-1347 | which conversions the comparison is about: any of the five flags in any order, nine letters |
| FormatStandard.SpellingIs | src/printf/printf.c:1057-1150 | how each part of a conversion is written |
| FormatStandard.DecimalIs | src/printf/printf.c:420-427 | a number is written with the decimal digits of its value |
| FormatStandard.PrescribedAre | src/printf/printf.c:1160-1189 | which combinations are compared with the standard |
| FormatStandard.ArgumentsAre | src/printf/printf.c:1066-1091 | how many arguments of which kinds a conversion takes, in order |
| FormatStandard.FieldIs | src/printf/printf.c:1061-1091 | the width, side and precision, also from negative star arguments |
| FormatStandard.NumberIs | src/printf/printf.c:1200-1233 | the number shown is the argument modulo 2^8, 2^16 or 2^32, as two's complement for d and i |
| FormatStandard.BeforeDigits | src/printf/printf.c:484-519 | by letter and flag: the sign, the 0x or 0X, and the zeros |
| FormatStandard.DigitsShowNumber | src/printf/printf.c:1170-1189 | the digits read as the number in base 16 for x and X, 8 for o, 10 for d, i and u, in the letter's case |
| FormatStandard.IntegerMeans | src/printf/printf.c:431-522 | the whole text of an integer conversion: number and padding, and on which side |
| FormatStandard.OthersMean | src/printf/printf.c:1258-1308 | the whole text of a character, a string and a percent sign |
| FormatStandard.IntegerLimits | src/printf/printf.c:458-553 | in numbers, for which integer conversions the code prints that |
| FormatStandard.StringLimits | src/printf/printf.c:1278-1308 | in numbers, for which strings the code prints that |
| FormatStandard.FormatsAre | src/printf/printf.c:1039-1349 | whole formats and their meaning are put together item by item, each with the arguments the ones before it left |
| FormatStandard.ScanReadsDigits | src/printf/printf.c:420-427 | any digits are read as their value modulo 2^16 |
| FormatStandard.OtherLetters | src/printf/printf.c:1343-1346 | a letter without a meaning is printed itself |
| FormatStandard.UselessFlags | src/printf/printf.c:1183-1189 | flags without a use change nothing: # in decimal, 0 and # with a string |
| FormatStandard.StringsPrint | src/printf/printf.c:1278-1308 | the text of every string and of a null pointer, with the padding the code counts |
| FormatProof.NegativePrecisionDiffers | src/printf/printf.c:1086-1090 | `%.*d` with -1 and 0 prints something else than the standard says |
| SnprintfResult.Snprintf | src/printf/printf.c:1373-1377 | the value returned is the full length of the text of ISO C11 whatever the buffer size, exactly when an int can hold it, and the buffer has the front of the text and a NUL and beyond the size what it held |
| SplitRom.NextPowerOf2IsLeast | bin/split_rom.py:6-7 | the least power of two that is not below x |
| SplitRom.SliceAt | bin/split_rom.py:17 | which bytes the stepped slice takes |
| SplitRom.PeriodDivides | bin/split_rom.py:21-34 | the padded size divides the ROM size, so the repeat count is exact and the size check never fails |
| SplitRom.RomLength | bin/split_rom.py:13-35 | the ROM always has exactly the least power of two of bytes |
| SplitRom.KeptIs | bin/split_rom.py:17-19 | what is kept are the bytes at the positions of the slice inside the image, as many as fit the ROM |
| SplitRom.RomByte | bin/split_rom.py:17-35 | every byte of the ROM, in terms of image, start, step and the number of positions: those bytes periodically, with 0xff for what they leave of a period |
| SplitRom.Interleave | Makefile:70-74 | the even and odd halves put together again give back every byte that fits |

## Left out

- HostDriver.Pico.WriteBytes: data that crosses the end of its segment is left out, because where its bytes land then depends on how the payload is cut (`PiecewiseSafeIff`).
- HostDriver.Pico.WriteWords: the same; a last word that straddles the end is covered.
- HostDriver.Pico.ReadWords: counts above 16384 are left out, because the shifted index overflows an `int` in C.
- HostDriver.Pico.DoCmd: opcode 0, whose header the target reads as IDLE bytes and new commands, and commands outside `WellFormed` are left out.
- Disconnecting: `active` falling in a session, and a new session with a command half done.
- The PicoROM firmware, `pypicorom`, USB and what `read_exact` does with bytes it got before a timeout: unseen code, replaced by the peer contract.
- Commands outside `WellFormed` in a run: their polls are modelled in `Shapes` only, where bad payload sizes are shown to leave the target waiting for ever.
- The memory view classes of `bin/comms.py`: thin wrappers over the driver.
- Floating-point conversions: compiled out by the Makefile.
- `%b`, `%p`, `%n` and the `ll`, `t`, `j`, `z` modifiers: not in the clause, pointer effects, or without effect in this build.
- Combinations the standard leaves undefined (`#` in decimal, `0` with `%s`, a length with `%c`): the code is modelled, but compared with the standard only for `FormatMeaning.Prescribed` ones.
- Formats that end after flags or width digits make the code run past their NUL and have no meaning in the model.
- The function gadgets behind `printf` and `fctprintf`: only the buffer gadget is modelled.
- Rounding inside `math.log2`, negative slice starts and file input and output of `bin/split_rom.py`.
- Screen drawing, palettes, timers, vertical blank, interrupts, port access, timing tests and the hardware clock: plumbing.
