# drewOS: a model of its console, number printing, interrupts, keyboard controller and ACPI lookup

drewOS is a small freestanding x86 kernel. This project models the parts of it that have loops,
state and arithmetic, and proves what they promise. `dafny verify dfyconfig.toml` checks all of it.

- **Text console** (`Screen`, `Transcript`, `Format`, `Vga`). The class `Vga.Console` writes to 4000
  bytes of video memory in place, like `src/driver/vga.c`. `Screen` gives the value of every
  operation; `Transcript` is an unbounded paper roll, and the main theorem says that the screen is
  the window on its last 25 rows. A newline never scrolls; a printable character scrolls at most
  once before it is put, and once more if it fills the last cell; a run of newlines past the bottom
  costs one row.
- **Number printing** (`Dmath`, `Digits`, `Util`, `PrintHex`). `ipow`, `ilog`, `_itoa`,
  `copy_memory` and the boot loader's `print_hex`, with 32-bit words and their wrap-around written out.
- **Interrupt controllers** (`Bits`, `Chip8259`, `Pic`, `PicRuns`). The driver `src/kernel/pic.c`
  against a model of two cascaded 8259A chips made from the Intel 8259A data sheet (Initialization
  Command Words, Operation Command Words, Fully Nested Mode, Cascade Mode). That model delivers
  nothing that is masked or outranked (`Chip8259.AcceptedIsEligible`) and passes over no interrupt
  that should be served (`Chip8259.EligibleIsServed`), once both chips know how they are wired.
- **Keyboard controller** (`Controller8042`, `Setup`, `Keyboard`, `Endless`, `Timing`, `Ps2`). The driver
  `src/driver/ps2.c`, with what `src/driver/ps2_keyboard.c` sends, against a controller with one or
  two channels, any configuration byte, any test results, and two devices that answer each as they
  like. `Timing` says what any pattern of late status reads does, and `Endless` when a command is
  repeated for ever.
- **ACPI lookup** (`Acpi`). The checksummed first-match searches of `src/acpi/rsdp.c` and
  `src/acpi/rsdt.c` over arbitrary memory.

## Where the code differs from what it says

The model follows the code. These differences are results of the proofs.

- The cursor row is a byte. Without a printable character in between, the 256th row down is row 0
  again; the screen is a window on the transcript if and only if that never happens
  (`Transcript.WindowOnTranscript`). It does happen: 256 newlines on a cleared screen, or 232 after
  something printed on the last row, are enough, and one fewer is not
  (`Transcript.NewlinesFromTop`, `Transcript.NewlinesFromBottom`).
- `_itoa` prints distinct numbers as distinct strings exactly up to base 169
  (`Util.PrintsDistinctlyUpTo169`); from base 170 on, the digit 169 is printed as NUL. The prefix
  for base 8 is "0a", although the comment beside it speaks of strings like "0x" and "0b".
- `-x` and `abs` at INT32_MIN are undefined in C and the build does not ask for wrapping. The model
  takes two's-complement wrap-around, under which `_itoa` prints INT32_MIN correctly.
- The wait loops promise true when ready and false when they run out. Their counter wraps, so they
  return true on a timeout, and false exactly when the first ready poll is the 1025th
  (`Ps2.PollWait`). So `try_read_data` fails exactly when its answer comes in the 1025th poll, and
  takes an answer that comes later, or never, to be the last one again. `reset_port` reports a port
  as not populated, with number 0, exactly for such a near miss in one of its first three reads
  (`Ps2.Driver.ResetPort`), never for silence.
- A device that asks k times for a resend and then falls silent is sent more than k + 1 copies: the
  stale request is read again, and every silent answer costs one more transmission
  (`Controller8042.ResendsOfScript`, `Controller8042.SilenceIsResent`). A command is repeated for ever
  if and only if the first byte read is a request to resend and neither the unread answers nor
  anything the device ever sends is any other byte, endless silence included
  (`Endless.RunsForeverExactly`, `Endless.NeverAnswered`).
- The check of the scan code set never asks for it: a keyboard that acknowledges every byte has the
  check read an acknowledgement, which counts as set 1 (`Keyboard.StartedPort0`). The number of the
  set goes to the device on port 0 even when the keyboard is on port 1 (`Keyboard.SetGoesToPort0`).
  The attempts have no limit (`Keyboard.ScanCodesAreRetried`).
- Answers that the device on port 0 leaves unread are taken for those of port 1. One of them is enough
  for the acknowledgement of the identify command to be read as the first byte of the number
  (`Keyboard.LeftoverMovesNumber`).
- A device that identifies itself by one byte is given that byte twice as its number. The number is
  right exactly for two-byte answers and for the single byte 0 (`Controller8042.IdIsRight`); a wheel
  mouse, 0x03, becomes 0x0303 (`Controller8042.WheelMouseIsMistaken`). So no mouse but the standard
  one is ever recognised (`Keyboard.AnswersRecognised`).
- `ps2_init` says that it disables the interrupt of the first port, but sets its enable bit. It ends
  with that bit set, and with the clock of every port it has running, whatever the port tests said
  (`Setup.BitAfterInit`).
- The entries of the extended root table have 8 bytes but are counted as if they had 4. The scan
  stays inside that table only when it looks at no entry (`Acpi.ScanInBounds`); with one real entry
  it reads 8 bytes too many (`Acpi.OneEntryTooFar`). The result is still right exactly when a real
  entry matches or what lies behind the table does not pass for one
  (`Acpi.Tables.ExtendedSearchIsRight`).
- A lookup that finds its table at address 0 reports that there is none (`Acpi.Tables.NullTableMeansNone`).
- A root pointer found at address 0 counts as not found. `locate_sdp` gives null for want of a root
  pointer exactly unless the search begins at address 0, one is there, and the BIOS area has none
  (`Acpi.NullMeansNone`, and `Acpi.RsdpAtNullIsMissed` for such a memory).

## Assumptions

- Console: strings have no NUL inside; a format has no trailing `%` and its arguments have the types
  it asks for (`Format.Matches`). Video memory is exactly the 4000 bytes; that no write falls outside
  is proved for all streams, wrapped rows included.
- Interrupt controllers: the slave's output is the only source of the master's line 2. A data sheet
  item that the driver never uses (rotation, polling, special masks, automatic end of interrupt,
  special fully nested mode, spurious interrupts) has no effect here. An initialisation clears the
  masks and the pending requests. On the in-service bits the data sheet is silent, so each chip either
  keeps or clears them (`Chip8259.Chip.keepsService`). Time-wasting writes to port 0x80 do nothing.
- Keyboard controller: the status reads of every wait are arbitrary. A byte written after a wait
  that ran out counts as received, and a read without an answer shows the last byte again. A
  controller is timely if in every wait from now on one of the first 1024 polls finds room for a
  byte, or the answer if there is one; each row says what is assumed of it. Each of the two devices
  answers with its own arbitrary finite script, silence and any number of requests to resend
  included, and acknowledges after that; `Endless` has no such end. No device sends anything
  unasked. A controller without a second channel shows the clock bit of that channel as set. Before
  initialisation at most one stale answer is waiting.
- ACPI: memory is readable everywhere and addresses do not wrap.

## Model

| member | source | states |
|---|---|---|
| Transcript.WindowOnTranscript | src/driver/vga.c:144-231 | for every stream on a cleared screen, all 4000 bytes and the cursor are the last 25 rows of the unbounded transcript after every character, if and only if no newline comes when the cursor is 255 rows down |
| Transcript.WriteShows | src/driver/vga.c:196-231 | one character, of any kind, on a screen that shows the transcript: it still does afterwards, except exactly when the row byte wraps |
| Transcript.ScrollShows | src/driver/vga.c:144-191 | scrolling the screen is adding one row to the transcript |
| Transcript.PutShows | src/driver/vga.c:215-227 | putting a character changes one cell of screen and transcript alike and moves both cursors to the next cell |
| Transcript.CalmNeverWraps | src/driver/vga.c:197-203 | at most 231 newlines between printable characters, and 255 before the first, is enough for the row byte never to wrap |
| Transcript.NewlinesWrap | src/driver/vga.c:197-203 | after any stream in which the row byte has not wrapped yet, further newlines wrap it if and only if they are more than 255 minus the rows the cursor is down |
| Transcript.NewlinesFromTop | src/driver/vga.c:197-203 | 256 newlines on a cleared screen leave the window; 255 do not |
| Transcript.NewlinesFromBottom | src/driver/vga.c:197-203 | after a character printed on the last row, 232 newlines wrap and 231 do not |
| Transcript.HistoryKept | src/driver/vga.c:139-143 | rows of the transcript above the cursor are never changed by later output |
| Transcript.ScreenOfPrintableText | src/driver/vga.c:144-231 | closed form: which character of a printable text each of the 2000 cells holds, and where the cursor is |
| Transcript.PrintableTextIsCut | src/driver/vga.c:225-230 | the transcript of printable text is the text cut into rows of 80 |
| Screen.Write | src/driver/vga.c:196-231 | whatever is written, the column stays below 80 and a cursor below the screen is in column 0 |
| Vga.Console.Clrscr | src/driver/vga.c:28-38 | from any memory and cursor, a blank screen with the cursor at the top left: 32 in every even byte, 0 in every odd one |
| Vga.Console.HandleScrolling | src/driver/vga.c:144-191 | the 24 row copies and the cleared row together are one shift of the whole memory by a row, done only when the cursor is below the screen |
| Vga.Console.WriteChar | src/driver/vga.c:196-231 | the new bytes and cursor are the screen operation applied to the old ones; byte for byte, where the character and its two colours are, which colour is in which half of the attribute, and what becomes of the other 3998 bytes and the cursor |
| Screen.WriteByBytes | src/driver/vga.c:144-231 | the same for the operation on values: newline, return, a character in its place, scrolled in before it or up after it |
| Vga.AttributeHalves | src/driver/vga.c:217 | the low half of the attribute is the foreground, the high half the background |
| Vga.Console.Cprint | src/driver/vga.c:233-289 | interpreting a format leaves the screen as if the rendered text had been written character by character; a null message leaves the screen as it was |
| Vga.Console.PrintArg | src/driver/vga.c:256-283 | the 32-byte buffer always holds the number and its NUL, and the print loop stops at that NUL |
| Vga.Console.Cprintln | src/driver/vga.c:298-303 | the same, then a newline in the same colours |
| Vga.Console.Println | src/driver/vga.c:312-317 | the same in white on black, attribute 0x0f |
| Vga.Console.Print | src/driver/vga.c:319-324 | a rendered text in white on black |
| Vga.SessionShowsTranscript | src/driver/vga.c:291-324 | after any sequence of print calls that does not wrap, video memory is the window on the transcript of all the rendered texts |
| Vga.SessionIsOneStream | src/driver/vga.c:291-324 | print calls one after another are one stream of characters |
| Vga.Console.Session | src/kernel/kernel.c:9-40 | clearing the screen and performing any sequence of print calls leaves video memory as the window on everything printed, if nothing wraps |
| Format.RenderConcat | src/driver/vga.c:248-287 | a concatenated format prints the two texts, the second from the arguments that the first leaves |
| Format.RenderEscape | src/driver/vga.c:252-255 | any text is printed literally by doubling its percent signs |
| Format.UnknownSpecifierPrintsNothing | src/driver/vga.c:251-284 | an unknown specifier prints nothing and takes no argument |
| Format.SpecifiersMean | src/driver/vga.c:251-284 | %c prints the low byte of its argument, %s its string, %d and %x its number in base 10 and 16, %% a percent sign without an argument |
| Format.MessageWithNumber | src/driver/vga.c:248-287 | any text with one %d in it prints the text around the number |
| Format.NumbersReadBack | src/driver/vga.c:268-283 | what %d and %x print reads back as the argument, for all 32-bit integers |
| Dmath.Ipow | src/kernel/dmath.c:33-46 | the result is the power modulo 2^32 for all words, and some product on the way wraps if and only if the power itself does not fit |
| Dmath.Ilog | src/kernel/dmath.c:48-54 | for bases from 2, the exponent k with b^k <= x < b^(k+1), and 0 for 0, also in base 1; in base 1 no other x terminates |
| Dmath.LogUnique | src/kernel/dmath.c:48-54 | there is only one such exponent |
| Dmath.Abs | src/kernel/dmath.c:56-58 | read as unsigned, the magnitude of every 32-bit integer, INT32_MIN included |
| Util.Itoa | src/kernel/util.c:26-85 | in every base from 2, and for 0 also in base 1: too small a buffer is left unchanged and the exact length is returned; otherwise the text and one NUL are written, and no other byte changes |
| Util.ItoaDecimal | src/kernel/util.c:87-89 | the same for base 10 |
| Util.ItoaHex | src/kernel/util.c:91-93 | the same for base 16 |
| Util.DecimalText | src/kernel/util.c:43-81 | what is printed in base 10: a minus sign for negative numbers, then only '0' to '9', the first of them '0' only for 0 |
| Util.HexText | src/kernel/util.c:43-81 | what is printed in base 16: the sign, "0x", then only '0' to '9' and 'a' to 'f' |
| Util.ZeroPrinted | src/kernel/util.c:10-24 | "0" in every base, after "0b", "0a" or "0x" in bases 2, 8 and 16 and after nothing in any other |
| Util.Printouts | src/kernel/util.c:26-85 | single printouts, INT32_MIN in base 10 among them |
| Util.ParseOfText | src/kernel/util.c:26-85 | round trip: the printed text reads back as the number, for all 32-bit integers and all bases from 2 to 169 |
| Util.PrintsDistinctlyUpTo169 | src/kernel/util.c:68-70 | distinct integers print as distinct C strings if and only if the base is at most 169 |
| Util.TextHasNoNul | src/kernel/util.c:68-81 | up to base 169 the only NUL is the terminator |
| Util.TextLength | src/kernel/util.c:29-41 | the length computed from the logarithm, the prefix and the sign is the length of the text |
| Util.LogIsSmall | src/kernel/util.c:60 | the power asked for by the printer fits a word |
| Util.ShortText | src/driver/vga.c:244-281 | no number needs more than 11 characters in base 10, or in base 16 with its prefix |
| Digits.ValueOfNumeral | src/kernel/util.c:64-78 | the digits, read as a numeral, are the number |
| Digits.NumeralShape | src/kernel/util.c:64-78 | no leading zero unless the number is 0 |
| Digits.NumeralDigits | src/kernel/util.c:64-78 | only '0' to '9' and, as far as the base asks for them, characters from 'a' on |
| Digits.PeelLeading | src/kernel/util.c:66-77 | dividing by the leading power splits off the first digit and leaves the others to the remainder |
| Util.CopyMemory | src/kernel/util.c:95-100 | every destination byte is a named byte of the old memory, for every overlap of the regions, and nothing else changes |
| Util.FaithfulCopy | src/kernel/util.c:95-100 | the copy is a faithful move if and only if the destination does not start inside the source |
| PrintHex.PrintHex | src/boot/util.asm:69-135 | prints "0x" and the four hexadecimal digits, leading zeros included |
| PrintHex.PrintHexAgreesWithItoh | src/boot/util.asm:69-135 | without leading zeros this is exactly what `itoh` prints, it reads back as the value, and the digits are '0' to '9' and 'a' to 'f' |
| Pic.Driver.PicRemap | src/kernel/pic.c:74-124 | from any state of both chips, even inside an initialisation: operational, 8086 mode, normal end of interrupt, the slave on line 2 and on no other and known by that number, masks as before |
| Pic.RemapMeans | src/kernel/pic.c:84-119 | what each chip is told: edge-triggered, cascaded, not buffered, not specially nested; the vectors are the two offsets less their last three bits |
| Chip8259.UnwiredSlaveIsLost | src/kernel/pic.c:103-111 | told anything else about line 2, the chips deliver no interrupt of the slave |
| Chip8259.PortMap | src/kernel/pic.c:9-12 | which port is which register of which chip |
| Pic.Driver.PicInit | src/kernel/pic.c:126-128 | the same, with vectors from 0x20 and 0x28 |
| Pic.VectorsAgree | src/kernel/pic.c:135-140 | the driver's vectors are the delivered ones for all 16 interrupts if and only if both offsets are multiples of 8 |
| Pic.VectorsAfterInit | src/kernel/pic.c:126-140 | after `pic_init`, interrupts 0 to 15 have the vectors 0x20 to 0x2f, for the driver and on the bus |
| Pic.Driver.PicSendEoi | src/kernel/pic.c:61-66 | the port writes end the best interrupt in service, at the slave too for interrupts from 8 |
| Pic.Driver.IrqSetMask | src/kernel/pic.c:142-154 | once the chips are initialised, the mask register of the interrupt's chip gains the interrupt's bit and nothing else changes |
| Pic.Driver.IrqClearMask | src/kernel/pic.c:156-168 | the same, losing the bit |
| Pic.Driver.PicDisable | src/kernel/pic.c:130-133 | the same, with both mask registers filled |
| Pic.Driver.PicGetIrqReg | src/kernel/pic.c:170-179 | bit i of the result is interrupt i's bit, whatever register was selected before, and only the selection changes |
| Pic.Driver.PicGetIrr | src/kernel/pic.c:181-183 | the same for requests |
| Pic.Driver.PicGetIsr | src/kernel/pic.c:185-187 | the same for interrupts in service |
| Pic.WordIsRegister | src/kernel/pic.c:176-178 | the combined word has the 16 bits in their places |
| PicRuns.MasksAreIntended | src/kernel/pic.c:74-168 | over any interleaving of masking, unmasking, re-initialising and disabling, the mask registers are the intended set of interrupts |
| PicRuns.ApplyMeansIntended | src/kernel/pic.c:130-168 | each single operation changes the masked set by exactly what it names |
| PicRuns.InServiceAlwaysStack | src/kernel/pic.c:61-128 | in every run of requests, acknowledgements, completions, mask changes and re-initialisations, the in-service bits of both chips are exactly the stack of handlers, each of higher priority than the one it interrupted, if and only if no re-initialisation comes while a chip that does not keep those bits has one set |
| PicRuns.StepKeeps | src/kernel/pic.c:61-128 | one event keeps this, except exactly such a re-initialisation |
| PicRuns.FinishKeeps | src/kernel/pic.c:61-66 | the innermost handler's end of interrupt takes exactly that handler off |
| PicRuns.ServiceBitMeans | src/kernel/pic.c:61-66 | which bits those are: each active line at the master, line 2 for a slave's interrupt, and the slave's own line |
| PicRuns.OneSlaveInterrupt | src/kernel/pic.c:115-118 | in fully nested mode at most one slave interrupt is in service |
| PicRuns.EoiPopsTop | src/kernel/pic.c:61-66 | an end of interrupt with any argument pops exactly the innermost handler if and only if the argument is on its side, or names the slave while no slave handler is active |
| Ps2.PollWait | src/driver/ps2.c:288-298 | on any infinite status stream: at most 1025 polls, and false exactly when the first ready poll is the 1025th; the header's promise is kept if and only if one of the first 1024 is ready |
| Ps2.WaitKeepsPromise | src/driver/ps2.h:35-39 | the header's promise is kept if and only if one of the first 1024 polls is ready |
| Ps2.BrokenPromises | src/driver/ps2.h:35-39 | a controller first ready at the 1025th poll is reported as not ready, and one that never is as ready |
| Ps2.Driver.BufferWait | src/driver/ps2.c:288-292 | on any status reads, false exactly if the 1025th is the first with room for a byte |
| Ps2.Driver.ResponseWait | src/driver/ps2.c:294-298 | on any status reads, false exactly if there is an answer and the 1025th is the first to show it |
| Ps2.Driver.TryReadData | src/driver/ps2.c:300-306 | fails exactly in that case; otherwise it gives the next answer if that came in time, and the last one again if not |
| Ps2.Driver.ReadData | src/driver/ps2.c:308-316 | the same, with 0 for a failure |
| Ps2.Driver.SendData | src/driver/ps2.c:318-324 | the byte is sent unless the 1025th status read is the first with room for it |
| Ps2.Driver.SendCommand | src/driver/ps2.c:326-333 | the same for a command |
| Ps2.Driver.SendDeviceCommand | src/driver/ps2.c:335-353 | on a controller that is late as it likes up to some wait and timely from then on, terminates for every script of both devices; the state then is the one of the exchange, with near misses as they fall |
| Timing.SettledExchange | src/driver/ps2.c:335-353 | on a timely controller that is the exchange in which every answer is read |
| Timing.LateExchangeEnds | src/driver/ps2.c:335-353 | on any status reads: some number of answers that arrive and are 0xfe, then one that is not or does not arrive; that one ends the command |
| Endless.RunsForeverExactly | src/driver/ps2.c:341-345 | over all infinite sequences of answers: a command is repeated for ever if and only if the first byte read asks for it and no unread or later answer holds any other byte |
| Endless.NeverAnswered | src/driver/ps2.c:341-345 | two such devices: one that always asks for a resend, and one that asks once and falls silent |
| Endless.ExchangeEndsAt | src/driver/ps2.c:335-353 | otherwise the first byte read that does not ask for it ends the command, after the transmissions that the exchange counts |
| Controller8042.ExchangeWire | src/driver/ps2.c:335-353 | the wire has exactly one transmission more than RESEND bytes were read, each preceded by 0xd4 if and only if the port is port 1; nothing else about the controller changes |
| Controller8042.ResendsOfScript | src/driver/ps2.c:341-345 | a device that asks k times for a resend and then does not is sent exactly k + 1 copies if and only if it then answers, or nothing was asked for and the byte last read was no request either |
| Controller8042.SilenceIsResent | src/driver/ps2.c:341-352 | after a request to resend, every silent answer costs one more transmission, without limit |
| Ps2.Driver.GetConfig | src/driver/ps2.c:355-362 | on any status reads, what the read finds after the command, or 0 for a near miss; on a timely controller the configuration byte, or the oldest unread answer if there is one, and the configuration stays |
| Ps2.Driver.SetConfig | src/driver/ps2.c:364-367 | on any status reads, the two bytes are sent but for near misses; on a timely controller the configuration byte is stored |
| Ps2.Driver.ResetPort | src/driver/ps2.c:383-448 | one 0xff reaches the device, and after a good answer 0xf5, 0xf2 and 0xf4 in this order, each once more for every request to resend; nothing reaches the other port, and the controller's own state stays. With the answers to the reset arriving at any time, the number is 0 for a port taken for empty, the old one after a failed reset, and otherwise the one read. On a timely controller a device that keeps the protocol is numbered by the first and the last byte of its identify answer, upper and lower half, which is right if and only if the answer has two bytes or is 0; no answer is left unread |
| Ps2.Driver.ReadThree | src/driver/ps2.c:395-402 | on any status reads, the port is taken for empty exactly if one of the three answers comes in the 1025th poll of its wait |
| Controller8042.IdentifiedBytes | src/driver/ps2.c:427-447 | whatever the device answers, it is sent only copies of 0xf5, then of 0xf2, then of 0xf4 |
| Controller8042.IdIsRight | src/driver/ps2.c:436-444 | the number made of an identify answer is the one meant if and only if the answer has two bytes or is the single byte 0 |
| Controller8042.WheelMouseIsMistaken | src/driver/ps2.c:436-444 | the answer 3 becomes 0x0303 |
| Controller8042.ResetDonePolite | src/driver/ps2.c:383-448 | a device that keeps the protocol has all its answers read, no more and no fewer |
| Ps2.Driver.Init | src/driver/ps2.c:470-601 | for every timely controller: the second channel is detected correctly, the ports are judged by their tests, every byte written up to the first reset is given, the final configuration is fixed bit by bit, each port is reset once if it passed its test and never otherwise, and the first keyboard is started. A device that keeps the protocol is numbered by its answer: on port 0 always, on port 1 if the device on port 0 keeps it too and, when it is started as a keyboard, acknowledges that. A failed self-test touches no device |
| Keyboard.OrdinaryPc | src/driver/ps2.c:588-600 | an MF2 keyboard and a mouse that keep the protocol are numbered 0xab83 and 0, and get exactly twelve bytes, given in order |
| Keyboard.AnswersRecognised | src/driver/ps2.c:187-236 | which pairs of bytes are keyboards and which are mice; of single bytes only 0 is recognised, 3 and 4 are not |
| Ps2.Driver.InitDevice | src/driver/ps2.c:450-468 | a device is started exactly if its number is a keyboard's and no keyboard has been started before; whatever it answers, nothing is reset and the controller's own state stays |
| Ps2.Driver.KbdInit | src/driver/ps2_keyboard.c:153-177 | the first keyboard has scanning enabled and its scan code set chosen; any later one is left alone |
| Ps2.Driver.KbdSetScanCodes | src/driver/ps2_keyboard.c:140-151 | terminates for every script of both devices, in the state after the first check that passes |
| Keyboard.AttemptEases | src/driver/ps2_keyboard.c:140-151 | every failed check has used up an answer, on which termination rests |
| Keyboard.StartedTraffic | src/driver/ps2_keyboard.c:153-177 | whatever the devices answer, a start sends the keyboard's port 0xf4 and 0xf0, and port 0 the number of the set, and nothing else |
| Keyboard.StartedDelivers | src/driver/ps2_keyboard.c:140-177 | in this order: 0xf4, repeated as asked for, then for each attempt 0xf0, the number 1 to port 0, and 0xf0 again |
| Keyboard.SetGoesToPort0 | src/driver/ps2_keyboard.c:140-143 | every start sends the number of the set to port 0 and never to port 1, wherever the keyboard is |
| Keyboard.StartedPort0 | src/driver/ps2_keyboard.c:134-151 | a keyboard on port 0 that acknowledges every byte is started with four of them and leaves nothing unread; the check reads an acknowledgement |
| Keyboard.ScanCodesAreRetried | src/driver/ps2_keyboard.c:118-150 | a report of set 2 or 3 costs another attempt, any other ends them; so for every n there are answers that cost n + 1 |
| Keyboard.LeftoverMovesNumber | src/driver/ps2.c:383-448 | one unread answer before a reset: the number stays right if the reset is answered by two bytes, and starts with 0xfa if by three |
| Ps2.Driver.Detect | src/driver/ps2.c:513-533 | on a timely controller, the second channel is reported exactly if it exists, and what the configuration is then, bit by bit |
| Setup.FirstConfigBits | src/driver/ps2.c:484-493 | the first byte written: interrupt 0 on, clock 0 on, translation off, the rest as found |
| Setup.FinalBits | src/driver/ps2.c:484-573 | the last byte written, and the configuration promised for it bit by bit, are the same |
| Acpi.ValidateChecksum | src/acpi/rsdt.c:18-24 | signed accumulation accepts a table if and only if its unsigned bytes sum to 0 modulo 256 |
| Acpi.CorruptionIsNoticed | src/acpi/rsdt.c:18-24 | changing any one byte of a valid table outside its length field makes it invalid |
| Acpi.OneChecksumByte | src/acpi/rsdt.c:18-24 | for every table exactly one checksum byte makes it valid |
| Acpi.ValidateSignature | src/acpi/rsdt.c:29-36 | true if and only if all four characters match |
| Acpi.Tables.GetSdt | src/acpi/rsdt.c:75-86 | the first entry that is valid and has the signature, or null if there is none; for a root table laid out in memory as a 36-byte header with its length at offset 4 and entries of four bytes, that is the first of those entries |
| Acpi.Tables.EntriesAsLaid | src/acpi/rsdt.c:41-62 | the number and the values of the entries are those laid out after the header |
| Acpi.Tables.ExtendedAsLaid | src/acpi/rsdt.c:48-70 | the same for entries of eight bytes, cut to their lower halves, except that twice as many are counted |
| Acpi.Tables.ExtendedFirst | src/acpi/rsdt.c:41-86 | if one of the entries of an extended table has the signature, the first of those is found |
| Acpi.IsTableByBytes | src/acpi/rsdt.c:18-36 | valid and with the signature means: these four bytes, a length in the next four, and that many bytes that sum to 0 |
| Acpi.Tables.NullTableMeansNone | src/acpi/rsdt.c:75-86 | null means that no entry matches, exactly unless the first matching entry is at address 0 |
| Acpi.ScanInBounds | src/acpi/rsdt.c:41-73 | exactly when the entries scanned lie inside the root table, for both kinds of table |
| Acpi.Tables.ExtendedSearchIsRight | src/acpi/rsdt.c:41-86 | of the extended table twice its entries are searched, and the result is that of its own entries exactly if one of them matches or no entry behind them is taken |
| Acpi.OneEntryTooFar | src/acpi/rsdt.c:41-73 | with one entry the search ends 8 bytes behind the table |
| Acpi.Tables.FadtInit | src/acpi/fadt.c:83-90 | the FADT pointer becomes the first valid table with its signature, or null |
| Acpi.Tables.MadtInit | src/acpi/madt.c:28-35 | the same for the MADT |
| Acpi.Tables.RsdtInit | src/acpi/rsdt.c:88-106 | keeps both pointers; if the root tables are valid, the FADT and MADT pointers become the first valid tables with their signatures, or null, and otherwise they stay |
| Acpi.ValidateRsdp | src/acpi/rsdp.c:71-84 | true if and only if the eight signature bytes match and the 20 bytes sum to 0 modulo 256 |
| Acpi.SignatureAsNumber | src/acpi/rsdp.c:72-75 | comparing the signature as one 64-bit number is comparing its eight bytes |
| Acpi.SdpSearch | src/acpi/rsdp.c:89-106 | the lowest 16-byte step of the region with a valid root pointer, or null |
| Acpi.NullMeansNone | src/acpi/rsdp.c:98-125 | null means that there is no root pointer, exactly unless the only one to be found is at address 0 |
| Acpi.RsdpAtNullIsMissed | src/acpi/rsdp.c:111-125 | a memory with a valid root pointer at address 0 where the search gives null |
| Acpi.LocateSdp | src/acpi/rsdp.c:111-126 | the lowest in the kilobyte that the word at 0x40e names, else the lowest from 0xe0000 to below 0xfffff, at every sixteenth address |
| Acpi.LocatedByBytes | src/acpi/rsdp.c:89-126 | the two searches, and the same in terms of the bytes at each address |
| Acpi.Tables.InitRsdp | src/acpi/rsdp.c:131-156 | keeps the located root pointer and the root table that it names, the four bytes at offset 24 for revision 2 and those at offset 16 for any other, each in the variable for its revision; looks up the FADT and the MADT if that table is valid, and changes nothing if there is no root pointer |

## Left out

- `log` in src/kernel/dmath.c: floating point, and nothing calls it.
- Port instructions and inline assembly in src/kernel/low_level.c: replaced by the device models.
- Boot sector, GDT, mode switch and disk loading in src/boot, except `print_hex`; its branch for a digit above 15 is unreachable and not modelled.
- Interrupt stubs and the IDT (src/kernel/interrupts.asm, src/kernel/idt.c): handlers appear only as the stack of active interrupts.
- Hardware cursor registers and the coordinate-printing helpers of src/driver/vga.c: straight-line code.
- Ill-formed formats: a trailing `%` makes the original read past the end of the string.
- Messages that drivers print to the console: the drivers are modelled without their output.
- The rest of src/driver/ps2_keyboard.c: unmasking its interrupt, installing the handler and raising it once; and the device names of src/driver/ps2.c.
- Ps2.Driver.SendDeviceCommand: not stated for a controller that never becomes timely.
- Ps2.Driver.ResetPort: not stated for a controller that misses one of the driver's own bytes, or is late after the first three reads.
- Ps2.Driver.Detect: not stated for a controller that is not timely.
- Ps2.Driver.Init: not stated for a controller that is not timely.
- Ps2.Driver.KbdSetScanCodes: a keyboard that keeps failing the check for ever is not covered.
- Pic.Driver.IrqSetMask and Pic.Driver.IrqClearMask: numbers from 40 on shift by 32 or more, which C leaves undefined.
- The fields of the FADT and MADT, and switching ACPI on (src/acpi/fadt.c:92-111): a wait for hardware without internal logic.
