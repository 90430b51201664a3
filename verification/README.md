# Verified models of the STM32 Arduino core

A Dafny model of the algorithms of this repository, with proofs of what they promise. Code that works in
place is a class or a method with loops, proved against a specification on values; what the specification
means is proved as lemmas about it. Every theorem holds for all inputs, all runs and all interleavings that
its statement admits. `dafny verify dfyconfig.toml` checks the whole project.

| files | subject |
|---|---|
| Matching, Stream | `findMulti` and its callers: several targets matched online without a failure table, against naive search |
| Parsing, Printing, Numerals, Itoa, Bytes, Sequences | the integer printers, `parseInt`, `ltoa` and `ultoa`, the fast 64-bit printer against its slow reference, and the round trips |
| TransmitRing, HardwareSerial | the transmit ring, its producer and its completion interrupt, in every interleaving |
| SoftSender, SoftReceiver, SoftLink, SoftwareSerial | the bit-banged UART: frames on the line, the exact timing tolerance, the round trip over two clocks, the divider search |
| Replacing, WString | `String::replace` in place: overwriting, compacting, expanding |
| EthernetChain, EthernetWakeup | the chain of received buffers in the heap, and the event flag shared with the interrupt |
| Spi | the table of settings per chip select, and a peripheral programmed lazily |
| ConfigTree, Configuration, BoardDatabase | default entries of nested configurations, on values and in the heap, and the inheritance of boards |

## What the code does not promise

Where a property one would expect is false, the model keeps the code as it is and a theorem gives the exact
condition under which the property holds.

- **Growing replacement.** The backward pass of `replace` gives leftmost replacement on every text exactly when
  the search string has no border and no proper suffix of it is a prefix of the replacement
  (`SeparableExactly`). It keeps within the size the forward pass computed, on every text, exactly when no proper
  suffix of the search string is a prefix of the replacement, borders or not (`FitsExactly`); otherwise there is
  a text for which `replace` writes past its buffer (`DetachedNeeded`, `StaysInsideExactly`).
- **Transmit ring.** `write` moves the head, then asks whether a transfer is running. If the interrupt empties
  the ring between these two steps, the question comes too late: `tx_size` bytes that nobody wrote are sent
  from the old memory behind the tail. `CommitExactly` shows that for a non-empty chunk this is the only thing
  that goes wrong, `WindowDrains` counts the hardware steps it takes, and `WindowExactly` shows that two steps
  between head update and check are always harmless and three are not. `Write` reports such a window in its
  result `drained`, promises everything for runs without one, and shows that windows of two steps have none.
  `DrainedInWindowExample` gives an interleaving.
- **Zero.** `printULLNumber(0)` writes nothing where its reference writes "0" (`FastFormMatchesReference`).
- **Large bases.** `printNumber` stores digit 201 as a zero byte, at which `write(const char *)` stops. The
  contract of `PrintNumber` says so, and `NulFreeExactly` shows that the bases up to 201 are the safe ones.
- **Receive buffers.** Twelve buffers serve four descriptors. While the stack and an unfinished frame together
  hold at most eight of them, no waiting frame goes unnoticed; with nine one can (`WakeupExactly`,
  `LostWakeup`).
- **SPI with a full table.** A `beginTransaction` that finds no free slot is forgotten: if the pin gets a slot
  later through `begin`, it has the defaults (`SettingsAreLastGiven`, `RefusedSettings`).
- **Deprecated SPI setters.** They reprogram the peripheral for one pin while another stays marked as
  selected. `SetConfig` and `SetBitOrder` say exactly when that goes wrong, `StaleSettings` shows a case.
- **Long bits, short bits.** Outside 29/10 to 28/9 receiver ticks per bit, some transmission is misread
  (`ToleranceExactly`).

## Model

| member | source | states |
|---|---|---|
| Matching.NaiveSearchMeaning | cores/arduino/Stream.cpp:271-341 | naive search returns target i after n bytes if and only if i is the lowest-numbered target that ends at the earliest position where any target ends |
| Matching.NaiveResult | cores/arduino/Stream.cpp:271-341 | it fails exactly when no target ends anywhere; a target of length zero wins before any byte is read |
| Matching.EndsAtNewByte | cores/arduino/Stream.cpp:287-293 | with `index` the longest partial match, a target ends at a new byte exactly when that byte completes it |
| Matching.MatchExtends | cores/arduino/Stream.cpp:287-298 | a byte that continues the longest partial match gives the longest partial match |
| Matching.WalkBackEnds | cores/arduino/Stream.cpp:300-338 | the longest border that the byte continues, found by trying all borders downwards, gives the longest partial match again |
| Matching.WalkBack | cores/arduino/Stream.cpp:300-338 | the walk-back loop, with its brute-force border test, restores `index` to the longest proper prefix that is a suffix of everything read |
| Matching.Advance | cores/arduino/Stream.cpp:284-339 | one byte against all targets: either the first target that now ends is returned, or every `index` is the longest partial match after that byte |
| Matching.TwoTargets | cores/arduino/Stream.cpp:120-129 | what naive search with a target and an optional terminator means for the caller |
| Streams.Stream.FindMulti | cores/arduino/Stream.cpp:271-341 | equals naive search on the whole input, for any number of targets, and consumes nothing beyond the match; without a match the input is used up and every `index` is its longest partial match |
| Streams.Stream.Find | cores/arduino/Stream.cpp:99-109 | true if and only if the target occurs; reading stops at the end of its first occurrence |
| Streams.Stream.FindUntil | cores/arduino/Stream.cpp:120-129 | true if and only if the target ends before or together with the first end of the terminator; reading stops right after whichever came first, and uses the input up only if neither comes |
| Streams.Stream.TimedRead | cores/arduino/Stream.cpp:31-42 | the next byte is consumed, or -1 is returned at the end of the data |
| Streams.Stream.PeekNextDigit | cores/arduino/Stream.cpp:60-88 | the skippable bytes are consumed and nothing else, in each lookahead mode |
| Streams.Stream.ParseInt | cores/arduino/Stream.cpp:136-164 | the value and the rest of the stream are those of the specification, for every input |
| Parsing.ReadsDigits | cores/arduino/Stream.cpp:149-158 | digits mixed with ignored characters accumulate to the value they denote, at 32 bits, up to the character that ends the number |
| Parsing.SkipsJunk | cores/arduino/Stream.cpp:60-88 | in each mode exactly the bytes named in the statement are skipped, up to the first other one: all but sign, digits and, if decimals are wanted, the point; space, tab, CR and LF; or none |
| Parsing.ParsedMeaning | cores/arduino/Stream.cpp:136-164 | every input splits into skipped junk, a number and the rest, named by their bytes; the result is the value of the number's digits without the ignored character, at 32 bits and negated after a minus sign, or zero without a number; the rest stays |
| Parsing.PrintThenParse | cores/arduino/Stream.cpp:136-164 | round trip: junk named by its bytes, then what `print(n)` wrote, possibly with ignored characters inside, is read as n for every 32-bit n, and the stream is left at the byte that ended the number, one that is neither digit nor ignored |
| Numerals.NumeralMeaning | cores/arduino/Print.cpp:293-313 | a digit string is the numeral of n in a base if and only if its value is n, its digits are below the base, and it has no leading zero except for zero itself |
| Numerals.ChunkSplits | cores/arduino/Print.cpp:359-407 | cutting a number at a power of the base leaves the digits of the high part followed by exactly k digits of the low part, inner zeros included |
| Numerals.DigitCount | cores/arduino/Print.cpp:359-407 | a number below 2^k has at most k digits in every base |
| Numerals.TextRoundTrip | cores/arduino/Print.cpp:305-310 | written in any base up to 36 with capital letters, a number is read back by a reader that accepts no other characters; only zero starts with a zero |
| Numerals.LettersGoOn | cores/arduino/Print.cpp:305-310 | in larger bases the characters go on after the letters, code by code, modulo 256 |
| Printing.ChunkSize | cores/arduino/Print.cpp:371-377 | the chunk power is a power of the base, fits 16 bits, and the next one may not |
| Printing.PutChunk | cores/arduino/Print.cpp:385-390 | a chunk yields exactly `innerLoops` digits, zeros included |
| Printing.FastDigits | cores/arduino/Print.cpp:359-398 | the chunked loops store the digits of n, in reverse, within 64 cells, for every 64-bit n and every base |
| Printing.Print.PrintULLNumber | cores/arduino/Print.cpp:359-407 | writes the digits of n without leading zeros, and returns how many |
| Printing.Print.PrintULLNumberReference | cores/arduino/Print.cpp:336-356 | the slow reference writes the numeral of n, "0" for zero, up to the first character that is a zero byte |
| Printing.FastFormMatchesReference | cores/arduino/Print.cpp:336-407 | fast form and reference write the same if and only if n is not zero and no digit has the zero byte for its character; in bases up to 201, if and only if n is not zero |
| Printing.FillFromEnd | cores/arduino/Print.cpp:305-310 | the loop fills the buffer from its end with the numeral, zero-terminated, in every base; one cell more than the digits is enough |
| Printing.Print.PrintNumber | cores/arduino/Print.cpp:293-313 | writes the numeral of n, up to the first character that is a zero byte |
| Printing.NumeralHasNoNul | cores/arduino/Print.cpp:293-313 | in bases up to 201 there is no such character |
| Printing.NulFreeExactly | cores/arduino/Print.cpp:293-313 | and in no base above: a base is free of it for every number if and only if it is at most 201 |
| Printing.Print.PrintLong | cores/arduino/Print.cpp:82-96 | one raw byte for base 0, sign and decimal numeral for base 10, the unsigned image otherwise, for every `long` |
| Printing.DecimalMeaning | cores/arduino/Print.cpp:82-96 | a sign for negative numbers only, then decimal digits that are read back as the absolute value, without leading zeros |
| Bytes.ToUnsignedExactly | cores/arduino/Print.cpp:82-96 | the unsigned image of a `long` is the one 32-bit number that converts back to it |
| Itoa.Scratch | cores/arduino/itoa.c:95-103 | the digit loop fills at most 32 of the 33 scratch bytes with the reversed numeral |
| Itoa.CopyReversed | cores/arduino/itoa.c:110-113 | the text and its terminator are stored in order, and no other byte of the caller's buffer changes |
| Itoa.Ltoa | cores/arduino/itoa.c:71-116 | stores the text of a signed number, with a sign in radix 10 only; fails for a null buffer or a radix outside 2 to 36 and then stores nothing |
| Itoa.Ultoa | cores/arduino/itoa.c:127-162 | the same for unsigned numbers |
| Itoa.LtoaRoundTrip | cores/arduino/itoa.c:71-116 | the text of a `long` consists of digits of the radix with lower-case letters, and a sign for negative numbers in radix 10 only; it is read back as the number in radix 10 and as its unsigned image in the other radices |
| Itoa.UltoaRoundTrip | cores/arduino/itoa.c:127-162 | the text of an unsigned number consists of digits of the radix with lower-case letters, 32 at most; it is read back as the number, and only zero starts with a zero |
| Replacing.PiecesOf | cores/arduino/WString.cpp:762-809 | every text is a sequence of pieces with the search string in between, none of which holds an earlier occurrence; leftmost replacement puts the replacement in between |
| Replacing.PiecesReplaced | cores/arduino/WString.cpp:762-809 | and any such pieces of a text give its replacement |
| Replacing.ReplaceAllFromTheRight | cores/arduino/WString.cpp:787-808 | for a string without borders, leftmost replacement can be split at the last occurrence instead of the first |
| Replacing.BackIgnoresRight | cores/arduino/WString.cpp:799-807 | if no proper suffix of the search string is a prefix of the replacement, what has been inserted can never take part in a later match of the backward pass |
| Replacing.SeparableSuffices | cores/arduino/WString.cpp:787-808 | for separable arguments the backward pass is leftmost non-overlapping replacement of every text |
| Replacing.SeparableNeeded | cores/arduino/WString.cpp:787-808 | for any other arguments a text is given on which the two differ |
| Replacing.SeparableExactly | cores/arduino/WString.cpp:787-808 | both directions: right on every text if and only if the arguments are separable |
| Replacing.DetachedFits | cores/arduino/WString.cpp:787-808 | if no proper suffix of the search string is a prefix of the replacement, the backward pass needs no more room than the forward pass computed, on every text |
| Replacing.DetachedNeeded | cores/arduino/WString.cpp:787-808 | otherwise a text is given on which it needs more |
| Replacing.FitsExactly | cores/arduino/WString.cpp:787-808 | both directions, for every text |
| WString.StrStr | cores/arduino/WString.cpp:771 | the first occurrence in the rest of the text |
| WString.String.ChangeBuffer | cores/arduino/WString.cpp:165-174 | capacity and buffer grow together and the text is kept; without memory nothing changes |
| WString.String.Reserve | cores/arduino/WString.cpp:151-163 | succeeds if and only if the capacity is there or memory is granted; the text is kept either way |
| WString.String.LastIndexOf | cores/arduino/WString.cpp:704-723 | the last occurrence at or before an index, or -1 |
| WString.String.Overwrite | cores/arduino/WString.cpp:770-774 | the equal-length loop leaves leftmost replacement of the old text, for every non-empty search string |
| WString.String.Compact | cores/arduino/WString.cpp:775-786 | so does the shrinking loop, in one pass over the same buffer; length and terminator are right |
| WString.String.SizeNeeded | cores/arduino/WString.cpp:788-792 | the forward pass computes the length of leftmost replacement |
| WString.ExpandOne | cores/arduino/WString.cpp:801-805 | one replacement of the backward pass: the rest moves up, and the text is terminated again |
| WString.String.Expand | cores/arduino/WString.cpp:799-807 | the backward loop is right-to-left replacement of the old text, and leaves the buffer if and only if that text does not fit |
| WString.String.Grow | cores/arduino/WString.cpp:787-808 | the whole growing branch: nothing found, no memory, right-to-left replacement, or a write past the buffer, each exactly when |
| WString.String.Replace | cores/arduino/WString.cpp:762-809 | the text afterwards for all texts and arguments, and exactly which calls write past the buffer |
| WString.StaysInsideExactly | cores/arduino/WString.cpp:787-808 | a growing call stays inside its buffer, for every text, capacity and outcome of the allocation, if and only if no proper suffix of the search string is a prefix of the replacement |
| WString.ReplacedIsLeftmost | cores/arduino/WString.cpp:762-809 | that text is leftmost non-overlapping replacement for every non-growing call and every separable growing one, unless memory was needed and refused; then, and for an empty search string, it is the old text |
| WString.NothingFound | cores/arduino/WString.cpp:793-795 | an unchanged size means that there was nothing to replace |
| TransmitRing.FreeExactly | cores/arduino/HardwareSerial.cpp:477-486 | bytes fit the free space exactly when one place stays empty beside them and the queued ones |
| TransmitRing.StepKeeps | cores/arduino/HardwareSerial.cpp:352-371 | one byte sent or one completion keeps: finished bytes then ring contents are what was committed; the transfer in flight lies in the queue and does not wrap; a non-empty ring is being sent |
| TransmitRing.PokeKeeps | cores/arduino/HardwareSerial.cpp:537-540 | a byte copied into free space disturbs neither the queue nor the transfer in flight |
| TransmitRing.CommitKeeps | cores/arduino/HardwareSerial.cpp:548-559 | head update, check and attach, with any number of hardware steps in between, keep all of it unless the ring is emptied in between |
| TransmitRing.CommitExactly | cores/arduino/HardwareSerial.cpp:548-559 | for a non-empty chunk, the ring is emptied in between if and only if the line will carry something that was never written |
| TransmitRing.DrainedExactly | cores/arduino/HardwareSerial.cpp:352-371 | the hardware has emptied the ring exactly when it has made one step for each unsent byte and one for each transfer |
| TransmitRing.WindowDrains | cores/arduino/HardwareSerial.cpp:548-559 | so the window empties it exactly when it is that long, which is at least two steps more than the chunk has bytes |
| TransmitRing.WindowExactly | cores/arduino/HardwareSerial.cpp:548-559 | the commit is right in every state and for every chunk, whatever happens in a window of at most w steps, if and only if w is at most two |
| TransmitRing.DrainedInWindowExample | cores/arduino/HardwareSerial.cpp:548-559 | an interleaving in which it is, and a stale byte follows |
| TransmitRing.WireIsPrefix | cores/arduino/HardwareSerial.cpp:504-563 | whatever has left is a prefix of what was committed, and all of it once head and tail meet |
| TransmitRing.Drains | cores/arduino/HardwareSerial.cpp:352-371 | left alone, the interrupt empties the ring in a bounded number of steps |
| HardwareSerials.HardwareSerial.TxCompleteIrq | cores/arduino/HardwareSerial.cpp:352-371 | the interrupt routine is the completion step, and reports whether it went on |
| HardwareSerials.HardwareSerial.AttachTxCallback | libraries/SrcWrapper/src/stm32/uart.c:829-844 | starts a transfer from the tail unless one is running or the size is zero |
| HardwareSerials.HardwareSerial.AvailableForWrite | cores/arduino/HardwareSerial.cpp:477-486 | all places but one that hold no queued byte, at the moment the tail is read; later interrupts can only enlarge it |
| HardwareSerials.HardwareSerial.Flush | cores/arduino/HardwareSerial.cpp:488-502 | returns, and then every committed byte has left, in order |
| HardwareSerials.HardwareSerial.EnableHalfDuplexRx | cores/arduino/HardwareSerial.cpp:633-644 | in half-duplex mode the receiver goes on only after every committed byte has left; otherwise nothing happens |
| HardwareSerials.HardwareSerial.Copy | cores/arduino/HardwareSerial.cpp:537-540 | the copy puts the chunk at the head, with interrupts at every byte |
| HardwareSerials.HardwareSerial.Commit | cores/arduino/HardwareSerial.cpp:548-559 | appends the chunk to what is committed and keeps the ring invariant, or reports that the window emptied the ring, how long it was at least, and that stale bytes follow |
| HardwareSerials.HardwareSerial.Write | cores/arduino/HardwareSerial.cpp:504-563 | unless a window longer than two hardware steps empties the ring: a write of any size commits exactly its bytes, in order, and terminates; in any case it recurses one level at most and never takes the wrap-around branch |
| HardwareSerials.WriteAllAndFlush | cores/arduino/HardwareSerial.cpp:488-563 | any sequence of writes of any sizes, then `flush`: the line has carried their concatenation and nothing else, unless a window longer than two hardware steps emptied the ring |
| SoftReceiver.FrameMeaning | libraries/SoftwareSerial/src/SoftwareSerial.cpp:384-393 | a frame is a low start bit, data bits of value 1 to 128 in this order, whose sum is the byte, and a high stop bit |
| SoftReceiver.FrameDecoded | libraries/SoftwareSerial/src/SoftwareSerial.cpp:252-290 | 29 samples inside their bits make the receiver store the byte and wait again |
| SoftReceiver.RegisterFull | libraries/SoftwareSerial/src/SoftwareSerial.cpp:280-287 | eight bits shifted in, least significant first, are the byte |
| SoftReceiver.SamplesInside | libraries/SoftwareSerial/src/SoftwareSerial.cpp:252-290 | inside the tolerance, with the start bit seen less than a tick after its edge, every sample falls into its own bit |
| SoftReceiver.DecodesFrom | libraries/SoftwareSerial/src/SoftwareSerial.cpp:252-290 | any sequence of frames, back to back or with any gaps, at any phase, is delivered byte by byte; the error never accumulates |
| SoftReceiver.DeliverMeaning | libraries/SoftwareSerial/src/SoftwareSerial.cpp:266-276 | the ring takes what fits, in order; the rest is lost and the overflow noted |
| SoftReceiver.StoreRate | libraries/SoftwareSerial/src/SoftwareSerial.cpp:252-290 | the receiver never stores more than one byte in 29 ticks, whatever the line does |
| SoftReceiver.ToleranceExactly | libraries/SoftwareSerial/src/SoftwareSerial.cpp:252-290 | every transmission is decoded if and only if a bit lasts between 29/10 and 28/9 receiver ticks |
| SoftSender.RegisterBit | libraries/SoftwareSerial/src/SoftwareSerial.cpp:388-393 | the shifted register yields start bit, data bits and stop bit in order, all inverted under inverse logic |
| SoftSender.TickKeeps | libraries/SoftwareSerial/src/SoftwareSerial.cpp:220-247 | one tick keeps the trace of the pin whole frames, idle ticks and the part of the running frame that is out, each bit held for three ticks |
| SoftSender.ReleasedIsWhole | libraries/SoftwareSerial/src/SoftwareSerial.cpp:220-247 | when the transmitter is released, no stop bit has been cut short |
| SoftSender.ReleasedAfterDelay | libraries/SoftwareSerial/src/SoftwareSerial.cpp:232-245 | after the stop bit the transmitter stays active for five bit periods, and not longer; a waiting write has it released at once |
| SoftSender.StartsThirdTick | libraries/SoftwareSerial/src/SoftwareSerial.cpp:388-404 | a byte taken over leaves the line idle for two ticks, and the third begins its start bit |
| SoftSender.RemainingShrinks | libraries/SoftwareSerial/src/SoftwareSerial.cpp:220-247 | the transmitter is released after a bounded number of ticks |
| SoftLink.WaveLevel | libraries/SoftwareSerial/src/SoftwareSerial.cpp:220-247 | the ticks of the transmitter, in its own time, make the line that the frames describe |
| SoftLink.SendThenReceive | libraries/SoftwareSerial/src/SoftwareSerial.cpp:220-290 | a receiver with a clock and a phase of its own gets exactly the bytes whose frames were driven, in either logic |
| SoftwareSerials.SoftwareSerial.Send | libraries/SoftwareSerial/src/SoftwareSerial.cpp:220-247 | the routine is the sender step |
| SoftwareSerials.SoftwareSerial.Recv | libraries/SoftwareSerial/src/SoftwareSerial.cpp:252-290 | the routine is the receiver step, on the ring buffer in place |
| SoftwareSerials.SoftwareSerial.SetRXTX | libraries/SoftwareSerial/src/SoftwareSerial.cpp:201-218 | direction changes leave the line idle, touch the receiver only in half-duplex mode, and then make it skip a tick before it waits for a start bit |
| SoftwareSerials.SoftwareSerial.HandleInterrupt | libraries/SoftwareSerial/src/SoftwareSerial.cpp:297-305 | one tick: a receiver step on the level found, then a sender step; the trace grows by the level driven; in half-duplex mode nothing is received while the port sends, and the receiver starts afresh after the switch delay |
| SoftwareSerials.SoftwareSerial.Write | libraries/SoftwareSerial/src/SoftwareSerial.cpp:384-405 | waits for the rest of the running frame at most, 33 ticks, and not for the switch delay; appends one byte to what is sent, with ticks between any two of its steps; a half-duplex port no longer listens afterwards, and keeps not listening while it sends |
| SoftwareSerials.SoftwareSerial.WriteAll | libraries/SoftwareSerial/src/SoftwareSerial.cpp:384-405 | any sequence of writes: the trace is exactly their frames and idle time |
| SoftwareSerials.SoftwareSerial.Read | libraries/SoftwareSerial/src/SoftwareSerial.cpp:366-377 | takes the oldest byte of the ring, or -1 |
| SoftwareSerials.Listen | libraries/SoftwareSerial/src/SoftwareSerial.cpp:252-305 | any number of ticks of a full-duplex port is that many receiver steps on the levels of its pin |
| SoftwareSerials.WriteThenReceive | libraries/SoftwareSerial/src/SoftwareSerial.cpp:252-405 | round trip between two ports: the second one's ring ends with exactly the bytes written to the first, inside the tolerance, at every phase, for a sender in full or half duplex, in either logic |
| SoftwareSerials.SetSpeed | libraries/SoftwareSerial/src/SoftwareSerial.cpp:120-131 | the divider loop ends with a power of two, at most 2^15 unless three times the speed wraps; the compare value fits 16 bits and is the best one for that prescaler, and with half the prescaler it would not fit |
| EthernetChain.AddToAll | libraries/OpenPLC_Net/src/ethernetif.c:817-820 | the loop over the list adds the length to every total and changes no link |
| EthernetChain.RxLink | libraries/OpenPLC_Net/src/ethernetif.c:788-826 | a new buffer goes to the end; the chain stays acyclic, in arrival order, and every total is the sum over its node and all later ones, in 16 bits |
| EthernetChain.LinkFrame | libraries/OpenPLC_Net/src/ethernetif.c:788-826 | a whole frame of any number of buffers is such a chain; all totals are exact if and only if the frame's length fits 16 bits |
| EthernetChain.TotalsExact | libraries/OpenPLC_Net/src/ethernetif.c:815-820 | the 16-bit totals of any chain are the true sums if and only if the sum of all lengths fits 16 bits |
| EthernetWakeup.StepKeeps | libraries/OpenPLC_Net/src/ethernetif.c:471-483 | every interleaving step conserves buffers and descriptors, keeps an allocation error tied to an empty pool, and leaves a frame behind only after a drain that ended on an empty pool |
| EthernetWakeup.EveryRun | libraries/OpenPLC_Net/src/openplc_net_port.c:47-50 | so does every run from the start |
| EthernetWakeup.Taken | system/Drivers/STM32H7xx_HAL_Driver/Src/stm32h7xx_hal_eth.c:1037-1140 | one read takes the descriptors up to the end of the first complete frame, or all of them |
| EthernetWakeup.TurnDelivers | libraries/OpenPLC_Net/src/ethernetif.c:348-385 | one turn of a drain hands the first complete frame to the stack, with the fragments read before, and arms every descriptor again unless the pool runs dry, which is noted |
| EthernetWakeup.DryNeedsHeld | libraries/OpenPLC_Net/src/ethernetif.c:750-770 | an allocation fails only while the stack and an unfinished frame together hold more than eight buffers |
| EthernetWakeup.NoLostWakeup | libraries/OpenPLC_Net/src/openplc_net_port.c:47-50 | in every run in which the stack and an unfinished frame together never hold more than eight buffers, a complete frame that waits is announced, about to be announced, or being drained |
| EthernetWakeup.DrainFinishes | libraries/OpenPLC_Net/src/ethernetif.c:370-385 | a drain ends, and leaves a complete frame or a descriptor without a buffer only if the pool is empty |
| EthernetWakeup.LostWakeup | libraries/OpenPLC_Net/src/ethernetif.c:348-360 | a run in which they never hold more than nine, after which a frame waits unnoticed although every buffer is back |
| EthernetWakeup.WakeupExactly | libraries/OpenPLC_Net/src/openplc_net_port.c:47-50 | no frame waits unnoticed in any run in which they hold at most b buffers, if and only if b is at most eight |
| Spi.FullTable | libraries/SPI/src/SPI.h:250-274 | the table is full exactly when the map has one entry for each slot |
| Spi.SPIClass.PinIdx | libraries/SPI/src/SPI.h:250-274 | finds the slot of a pin if and only if it has one |
| Spi.SPIClass.AddPin | libraries/SPI/src/SPI.h:250-274 | a new pin gets a slot at the defaults if one is free; occupied slots keep distinct pins |
| Spi.SPIClass.RemovePin | libraries/SPI/src/SPI.h:276-289 | frees the slot and forgets its settings |
| Spi.SPIClass.RemoveAllPin | libraries/SPI/src/SPI.h:291-299 | frees all slots |
| Spi.SPIClass.Begin | libraries/SPI/src/SPI.cpp:60-84 | a pin that has or gets a slot is selected, and the peripheral has its settings |
| Spi.BeginNew | libraries/SPI/src/SPI.h:250-274 | on a new port, a pin is refused if and only if it is above the board's digital pins and unknown to the board; the default argument never is |
| Spi.SPIClass.BeginTransaction | libraries/SPI/src/SPI.cpp:96-117 | the settings are recorded for the pin and programmed; without a slot nothing changes |
| Spi.SPIClass.EndTransaction | libraries/SPI/src/SPI.cpp:123-127 | the pin is forgotten and nothing is marked as selected |
| Spi.SPIClass.End | libraries/SPI/src/SPI.cpp:132-137 | all pins are forgotten and the peripheral is off |
| Spi.SPIClass.Transfer8 | libraries/SPI/src/SPI.cpp:231-258 | a transfer happens if and only if the pin has a slot, and then with the settings last given for it |
| Spi.SPIClass.Transfer16 | libraries/SPI/src/SPI.cpp:273-312 | likewise, with the two bytes in the order that the bit order asks for |
| Spi.SPIClass.TransferBuffer | libraries/SPI/src/SPI.cpp:328-399 | likewise for buffers; an empty one changes nothing |
| Spi.PerformAll | libraries/SPI/src/SPI.cpp:60-137 | any sequence of these calls does to table, peripheral and line what a plain map from pins to settings says |
| Spi.SettingsAreLastGiven | libraries/SPI/src/SPI.cpp:60-137 | the entry of a pin in that map, in terms of the calls made: what its last `beginTransaction` since its removal gave it, or the defaults if that call found no slot or there was none |
| Spi.RefusedSettings | libraries/SPI/src/SPI.cpp:96-101 | calls after which a pin has the defaults although its last `beginTransaction` gave others |
| Spi.TransfersUseTheirSettings | libraries/SPI/src/SPI.cpp:231-258 | in every run of these calls on a new port, every transfer for a pin with a slot carries the settings of the pin's last `beginTransaction` since the pin was last removed, if that call found a slot, and the defaults otherwise |
| Spi.SPIClass.SetConfig | libraries/SPI/src/SPI.cpp:145-216 | a deprecated setter keeps selection and peripheral in agreement if and only if nothing is selected, this pin is, or the selected pin has the same settings |
| Spi.SPIClass.SetBitOrder | libraries/SPI/src/SPI.cpp:145-157 | the same, for the setter of the bit order |
| Spi.StaleSettings | libraries/SPI/src/SPI.cpp:145-157 | calls after which a transfer runs with the settings of another pin |
| ConfigTree.EveryPath | cmake/scripts/parse_boards.py:30-35 | after a merge, every path of the receiver is as before, and every path it lacked is the mother's |
| ConfigTree.SucceedsExactly | cmake/scripts/parse_boards.py:30-35 | the merge succeeds if and only if nowhere a string of the receiver meets a dictionary of the mother |
| ConfigTree.CopyOfMother | cmake/scripts/parse_boards.py:30-35 | an empty configuration becomes a copy |
| ConfigTree.Idempotent | cmake/scripts/parse_boards.py:30-35 | merging twice is merging once |
| ConfigTree.Associative | cmake/scripts/parse_boards.py:30-35 | merging from two mothers in turn is merging from the first one merged from the second, errors included |
| Configurations.Configuration.Get | cmake/scripts/parse_boards.py:17-18 | a missing key comes into being with an empty dictionary of its own |
| Configurations.Configuration.SetDefaultEntries | cmake/scripts/parse_boards.py:30-35 | the recursive in-place merge computes the merge on values; the mother is unchanged, and receiver and mother share no dictionary |
| Configurations.FillBoards | cmake/scripts/update_boarddb.py:134-136 | every board is filled from the same mother, and filling one leaves the others as they were |
| BoardDatabase.NearestWins | cmake/scripts/update_boarddb.py:121-145 | with any number of levels, every path has what the nearest level that knows it has there |
| BoardDatabase.BoardNearest | cmake/scripts/update_boarddb.py:121-136 | a finished board has every setting outside its menus from board, family or platform, in this order; it also has the floating-point configuration, and its build section is a dictionary |
| BoardDatabase.OptionNearest | cmake/scripts/update_boarddb.py:134-145 | a menu option has every setting outside its menus from the option itself or else from its board |
| BoardDatabase.MenuInherited | cmake/scripts/update_boarddb.py:124-132 | boards inherit all menus of the family but the list of boards, and upload methods only with a build section |
| BoardDatabase.BoardMenus | cmake/scripts/update_boarddb.py:121-136 | the menus of a finished board: board, family or platform, in this order, without what the family does not pass on |
| BoardDatabase.BoardExactly | cmake/scripts/update_boarddb.py:121-136 | a board comes out if and only if both merges meet no clash, the family can be passed on, and the board's build section is no string |
| BoardDatabase.HandedDownExactly | cmake/scripts/update_boarddb.py:124-132 | a family can be passed on if and only if it lists boards, and its upload methods are dictionaries |
| BoardDatabase.PreparedKeeps | cmake/scripts/update_boarddb.py:134-136 | noting the floating-point configuration changes nothing else in a board, but for a missing build section, which comes into being empty |
| BoardDatabase.NoNesting | cmake/scripts/update_boarddb.py:138-145 | options inherit no menus |

## Left out

- HardwareSerials.HardwareSerial.Write: a run is followed up to the first window that empties the ring, and not beyond; from there on only `Stale` is stated.
- WString.String.Replace: a run is followed up to the first write past the buffer, which has no meaning in C++.
- WString.String.Replace: a string passed as its own argument, and texts with embedded zero bytes, are not modelled; overlapping `memcpy` and `strcpy` towards the front are modelled as ascending copies.
- EthernetWakeup.NoLostWakeup: one read of the descriptors by the HAL is one step; an interrupt in the middle of it is taken before or after it.
- EthernetWakeup.EveryRun: the link going down and up again, which stops and restarts the peripheral and its descriptors, is not modelled.
- SoftwareSerials.SetSpeed: speed zero, which detaches the timer, and the comparison with the current speed are left out.
- SoftwareSerials.WriteThenReceive: the bytes fit the receive ring, and nobody reads meanwhile; `DeliverMeaning` covers the overflow. The second port is ticked after the first, on the recorded levels of its pin.
- SoftwareSerials.SoftwareSerial.HandleInterrupt: one port object at a time owns the interrupt; several ports that take turns through `listen` are left out.
- Itoa.Ltoa: the caller's buffer must hold the text, which the original cannot see.
- BoardDatabase.BoardNearest: on values and before `evaluate_entries` and the masking of features; the heap is covered for `set_default_entries` and the loop over boards. The value of `_fpconf` is a parameter. Deleting an upload method also deletes it in the family, with which the copy shares that dictionary; no later step reads it there.
- Signed overflow in `parseInt` and `print(long)`, undefined in C++, is taken as 32-bit two's complement.
- Time: a timeout is the end of the data; waiting loops are driven by the steps of the hardware.
- Bytes past the end of the transmit buffer are sent as zeros, which matters only after the ring was emptied in the window.
- The receive side of `HardwareSerial`, a plain ring, would only add easy members.
- SPI: bytes received, the `noReceive` flag, which `RemovePin` does not reset, and the levels of the chip select pins.
- The older commented-out form of `printULLNumber` (cores/arduino/Print.cpp:315-335).
- Floating point, `String` operations other than `replace` and what it needs, USB, VirtIO and the HAL.
- Reading the configuration files, the key filters, `evaluate_entries` and the template.
