# iotools: a verified model

iotools is a set of small commands over device registers. This project models the parts of it that
do more than pass a value through, and proves what they are for: text that reads back to the bytes it
was printed from, registers that give back what was last written to them, a registry whose lookups,
links and dispatch agree, and word arithmetic that composes through printed output.

The kernel and the devices are abstract. An SMBus adapter keeps the last frame sent to each register,
physical memory is a function from addresses to bytes, configuration space is a file of bytes for each
device, and the file system is a map from paths to entries. Each has its own failures: slaves that
cannot be opened or do not answer, reads of the wrong kind, mappings that are refused, files that are
too short, paths that are locked. Commands that change state are methods of classes; each is proved
against a function of its inputs and the old state, and the main results are lemmas about those
functions.

A host is a byte order and the width of `unsigned long` (32 or 64 bits); every result holds on all
four hosts.

## Files

| file | models |
|---|---|
| `bits.dfy` | bitwise operators on words, pinned down bit by bit |
| `byte_order.dfy` | words in memory, `platform.h` |
| `c_text.dfy` | `strtoul` and its relatives, the `%x` conversions |
| `i2c_dev.dfy` | `linux-i2c-dev.h` over an abstract adapter |
| `smbus_codec.dfy`, `smbus_commands.dfy`, `smbus_command_lines.dfy` | `smbus_rw.c` |
| `dump_layout.dfy`, `dump_format.dfy`, `mmio.dfy` | `mmio_rw.c` |
| `commands.dfy`, `command_links.dfy` | `commands.c` |
| `logic.dfy` | `logic.c` |
| `pci.dfy` | `pci_rw.c` |
| `scom.dfy` | address arithmetic of `scom.c` |

## Where the code falls short of what one would expect

Each of these is kept as the code has it; the exact condition is proved.

- `OverflowStoresAllOnes`: the check for an overflowing operand compares with `LONG_MAX`, but
  `strtoul` returns `ULONG_MAX`. Numbers too large for `unsigned long` are accepted by every scalar
  command but `smbus_quick` and stored as all ones (`OverflowExample`). An accepted operand is held by
  the device as typed if and only if it lies in the range of its field (`ScalarKeptIff`,
  `DeviceHoldsTypedIff`).
- `ReadTextEchoesIff`: what a read printed can be typed back, and then reads the same, if and only if
  the printed line is not empty; `EmptyBlockExample` writes `0x`, reads an empty line, and is refused
  the empty text.
- `WindowCoversIff`: the length of a mapping is computed in `unsigned int`. A dump is covered by its
  window if and only if page offset plus byte count is below 2^32; `ShortWindowFaults` is a request
  that is mapped and then faults.
- `RegisterCommandGroup`: registering a group that is already in the list closes a cycle, of one
  group in `RegisterTwice`.
- `ProcessCallShowsReplyIff`: `smbus_process_call` prints the word it sent; that is the reply if and
  only if the device echoes it (`ProcessCallExample`).
- `OffsetReversibleIff`: a SCOM address can be recovered from its file offset if and only if bits 59
  to 62 are clear; `OffsetsEqualIff` says which addresses share an offset, and `OffsetsCollide` gives
  two.
- `ScanNameIff`: a PCI device name is scanned back if and only if its numbers fit the field widths;
  `WideSegmentIsNotScanned` is a name that is not. `pci_list` omits exactly the other devices
  (`ListingShowsDevices`), and its lines do not show the segment (`LinesEqualIff`).
- `CleanUndoesMakeIff`: cleaning after making links restores the file system if and only if no link
  path was taken before; `CleanLosesFile` loses a plain file.
- The comments at `smbus_rw.c:269-271` and `mmio_rw.c:47-48` promise 1 for success and 0 for failure;
  the code returns 0 and -1, and so does the model.

## Model

| member | source | states |
|---|---|---|
| CText.ScanReads | smbus_rw.c:155 | strtoul with base 0 reads blanks, a sign and hexadecimal digits behind 0x or 0X, octal or decimal digits, gives their positional value and stops right behind them, whatever follows that is no digit and does not turn a single 0 into a mark |
| CText.ScansWholeIff | smbus_rw.c:155 | a non-empty text is consumed to its end if and only if it is blanks, a sign and a marked hexadecimal, octal or decimal number, and its parts give the value |
| CText.ScanFindsNothing | smbus_rw.c:155 | with no digit behind the blanks and the sign there is no number: nothing is consumed and the value is 0 |
| CText.DenotedValue | smbus_rw.c:155 | a number without a minus sign, in any base, is what strtoul and strtol give while it fits the type, and the largest value of the type from there on |
| CText.NegativeValue | pci_rw.c:87-94 | strtoul of a negative number is its negation modulo the range, or all ones when the magnitude is out of range; strtol gives the number itself, or the least value of the type |
| CText.ScanPrefixedHex | smbus_rw.c:253 | any 0x-prefixed hexadecimal print, padded or not, in either case, is read back to its value up to its end |
| CText.ParsePrinted | logic.c:84 | strtoul of a printed value below its width returns the value and consumes the whole text |
| CText.PadHexDigits | smbus_rw.c:262 | a padded hexadecimal print consists of digits only and they spell the value |
| CText.HexSpelling | pci_rw.c:46-47 | %x prints the digits 0123456789abcdef and %X the digits 0123456789ABCDEF, without a leading zero |
| CText.PadHexSpelling | smbus_rw.c:248-263 | a padded print has no other characters, and a print longer than its width has no leading zero |
| CText.PadHexLength | smbus_rw.c:262 | the print has exactly the asked width if and only if the value fits that many digits |
| ByteOrder.LeToHostLoads | platform.h:32-48 | a native load followed by le_to_host gives the little-endian value of the bytes on big- and little-endian hosts |
| ByteOrder.HostToLeStores | platform.h:32-48 | host_to_le followed by a native store leaves the little-endian bytes of the value on both kinds of host |
| ByteOrder.LoadBytes | commands.h:25-30 | byte i of a loaded word, counted from its low end, is byte i in memory on a little-endian host and byte i from the end on a big-endian one |
| ByteOrder.LoadStore | commands.h:25-30 | a value stored in a field of the union and loaded again is cut to the width of the field |
| ByteOrder.StoreLoad | commands.h:25-30 | loading a field and storing it again gives back the same bytes |
| SmbusCodec.PairLanguage | smbus_rw.c:117-144 | two characters are accepted as a hex byte if and only if they are two hex digits, a blank or plus sign and a hex digit, or minus zero; the byte is their value |
| SmbusCodec.FieldWidths | commands.h:25-30 | the fields of the union are 1, 2, 4 and 8 bytes wide, process calls send 2 bytes, blocks hold at most 32 bytes in a buffer of 34 |
| SmbusCodec.LongMaxIs | smbus_rw.c:109-115 | LONG_MAX is 0x7fffffff where unsigned long has 32 bits and 0x7fffffffffffffff where it has 64 |
| SmbusCodec.Params.ParseBlock | smbus_rw.c:190-229 | accepts exactly the non-empty even-length texts that, after one optional prefix, are at most 32 acceptable pairs; stores the bytes of the pairs in order, zeros behind them, and their number in len; indices 32 and 33 stay zero, and every store in the loop is asserted to be below index 32 |
| SmbusCodec.Params.ParseIoWidth | smbus_rw.c:146-236 | accepts exactly the operands of the command's size and leaves their bytes in memory order followed by zeros; len changes for accepted blocks only |
| SmbusCodec.ScalarLanguage | smbus_rw.c:154-189 | a scalar operand is accepted if and only if it is empty or a number from end to end, not LONG_MAX where that is checked, and 0 or 1 for the quick command |
| SmbusCodec.ScalarKeptIff | smbus_rw.c:164-189 | the word stored for a scalar operand is the number typed if and only if that number lies in the range of the field |
| SmbusCodec.OverflowStoresAllOnes | smbus_rw.c:108-115 | an operand that overflows unsigned long is accepted by every scalar command except the quick one, which refuses it, and the word is all ones |
| SmbusCodec.OverflowExample | smbus_rw.c:164-170 | 2^64 is accepted as an 8-bit operand on a 64-bit host and stored as 0xff |
| SmbusCommands.DeviceHoldsTypedIff | smbus_rw.c:382-474 | after an accepted scalar write the value the device holds is the number typed if and only if that number lies in the range of the field |
| SmbusCodec.PrefixOnlyOnce | smbus_rw.c:205-208 | a bare prefix, 0x or 0X, is a block of no bytes, and a later pair of that form makes any block unacceptable |
| SmbusCodec.PrintReadData | smbus_rw.c:238-267 | prints the padded value of a scalar read or the hex of the first read_block_size bytes, at most 32, and nothing for other sizes |
| SmbusCodec.ParsePrintedBlock | smbus_rw.c:190-264 | the print of some bytes is accepted as a block if and only if there are 1 to 32, and parsing it then gives exactly these bytes; it never looks like a prefix |
| SmbusCodec.ParsePrefixedBlock | smbus_rw.c:190-229 | with 0x or 0X in front the print is accepted if and only if there are at most 32 bytes, none included, and gives these bytes |
| SmbusCodec.PrintParsedBlockIff | smbus_rw.c:190-264 | printing a parsed block gives its text without the prefix in capitals if and only if the text is all hex digits |
| I2cDev.CopyIn | linux-i2c-dev.h:297-309 | the union gets the length byte, cut to 32, and exactly that many of the caller's bytes behind it |
| I2cDev.CopyOut | linux-i2c-dev.h:291-294 | the caller's buffer starts with exactly the bytes announced by the length byte and is otherwise unchanged |
| I2cDev.Adapter.ReadBlockData | linux-i2c-dev.h:282-295 | returns the length of the device's block and places its bytes, or -1 and changes nothing |
| I2cDev.Adapter.WriteBlockData | linux-i2c-dev.h:297-309 | the device is sent exactly the caller's bytes, at most 32 |
| I2cDev.Adapter.ReadI2cBlockData | linux-i2c-dev.h:312-329 | asks for the given length, at most 32, and places exactly the bytes the device answers with, which may be fewer or more, or returns -1 and changes nothing |
| I2cDev.Adapter.WriteI2cBlockData | linux-i2c-dev.h:331-343 | the device is sent exactly the caller's bytes, at most 32 |
| I2cDev.Adapter.BlockProcessCall | linux-i2c-dev.h:346-364 | the device is sent exactly the caller's bytes and the same buffer then starts with exactly its reply |
| I2cDev.Adapter.ReadWordData | linux-i2c-dev.h:250-258 | the result is the word whose low byte came first on the wire, on both byte orders |
| I2cDev.Adapter.WriteWordData | linux-i2c-dev.h:260-267 | the word goes on the wire low byte first, on both byte orders |
| I2cDev.Adapter.ProcessCall | linux-i2c-dev.h:269-278 | the result is the device's reply to the word sent |
| SmbusCommands.OpenSlave | smbus_rw.c:272-303 | succeeds exactly when adapter, address and, where taken, register parse as bytes and the slave can be opened, and yields that slave and register |
| SmbusCommandLines.TargetTyped | smbus_rw.c:272-303 | with the numbers b, a and, where a register is taken, r typed as first, second and third argument, the target is slave a on adapter b and register r if and only if each is at most 0xff and that slave can be opened |
| SmbusCommands.ReadOp | smbus_rw.c:324-380 | prints the rendering of what the device holds for this kind of read, or prints nothing and returns -1 |
| SmbusCommands.WriteOp | smbus_rw.c:413-474 | the addressed register, and no other, then holds the operand in wire order; on failure nothing changes |
| SmbusCommands.SmbusRead | smbus_rw.c:305-322 | the whole read command, argv to text, is the stated function of the registers |
| SmbusCommandLines.ReadTyped | smbus_rw.c:305-380 | with b, a and r typed, the 8-, 16-, 32- and 64-bit reads and the block read print what register r of slave a on adapter b holds, in the digits of their size, or fail when it holds another kind or the device answers with another number of bytes |
| SmbusCommandLines.ReceiveTyped | smbus_rw.c:305-380 | with b and a typed, smbus_receive_byte prints the byte that slave a on adapter b keeps without a register |
| SmbusCommandLines.ReadRefused | smbus_rw.c:305-380 | a number above 0xff, a slave that is absent or silent, or a register never written: the read prints nothing and returns -1 |
| SmbusCommands.SmbusWrite | smbus_rw.c:382-411 | the whole write command, argv to registers, is the stated function of the old registers |
| SmbusCommandLines.WriteTyped | smbus_rw.c:382-474 | with b, a, r and a value v in range typed, register r of slave a on adapter b, and nothing else, changes: it gets v as a byte, as a word low byte first, or as the 4 or 8 bytes of v in memory order |
| SmbusCommandLines.WriteBlockTyped | smbus_rw.c:382-474 | with the hex digits of some bytes typed, with or without a prefix, the register gets exactly these bytes, or the write fails and changes nothing when there are more than 32, or none and no prefix |
| SmbusCommandLines.SendTyped | smbus_rw.c:382-474 | smbus_send_byte changes the place without a register of slave a on adapter b to the byte typed; smbus_quick succeeds for 0 and 1 only and changes nothing |
| SmbusCommandLines.WriteRefused | smbus_rw.c:382-474 | a number above 0xff or a slave that is absent or silent: the write returns -1 and changes nothing |
| SmbusCommands.SmbusBlockProcessCall | smbus_rw.c:527-553 | the text printed is exactly the hex of the device's reply to exactly the parsed bytes, with no stale bytes |
| SmbusCommands.SmbusProcessCall | smbus_rw.c:502-525 | prints the word that was sent, when the device answers |
| SmbusCommandLines.ProcessCallTyped | smbus_rw.c:502-525 | with b, a, r and a word v typed, register r of slave a on adapter b is sent v low byte first, and v is printed if and only if the reply is a word |
| SmbusCommandLines.BlockCallTyped | smbus_rw.c:527-553 | with b, a, r and the digits of up to 32 bytes typed, that register is sent these bytes and its reply is printed |
| SmbusCommands.ProcessCallShowsReplyIff | smbus_rw.c:515-523 | the printed word is the reply if and only if the reply equals the word sent |
| SmbusCommands.ProcessCallExample | smbus_rw.c:515-523 | a device that answers 1 to 0 is shown as 0 |
| SmbusCommands.Echo | smbus_rw.c:146-474 | after any accepted write, the matching read prints the operand's value padded to its width, or the operand's bytes, for every spelling of operand and target |
| SmbusCommands.PrintedScalarEchoes | smbus_rw.c:146-267 | a printed scalar is an accepted operand that reads back as the same text, for all four widths |
| SmbusCommands.PrintedBlockEchoes | smbus_rw.c:190-264 | a printed block of 1 to 32 bytes is an accepted operand that reads back as the same text |
| SmbusCommands.PrintedTextEchoes | smbus_rw.c:146-474 | writing the print of any value, or of any block of 1 to 32 bytes, succeeds, and reading the same target prints that very text |
| SmbusCommands.ReadsPrint | smbus_rw.c:238-380 | every successful read prints the print of a value, or of a block of 1 to 32 bytes, or an empty line for an empty block |
| SmbusCommands.ReadTextEchoesIff | smbus_rw.c:146-474 | writing back the text a read printed succeeds and reads as the same text if and only if that text is not empty |
| SmbusCommands.EmptyBlockExample | smbus_rw.c:199-228 | the operand 0x stores an empty block, which reads as an empty line, and the empty text is refused |
| SmbusCommands.Untouched | smbus_rw.c:382-474 | a register that no command of a run writes keeps its contents through the run |
| SmbusCommands.LastWriteWins | smbus_rw.c:305-474 | after any run of write commands a read prints what the last successful write to its register was given |
| DumpLayout.Sheet.RestStep | mmio_rw.c:234-266 | one turn of the dump loop takes from the closed form a label at the start of a line, one field, and a newline at the end of a line |
| DumpLayout.Sheet.TextLines | mmio_rw.c:234-271 | the text splits at newlines into exactly the lines of the layout, none blank, four fields on each but perhaps the last |
| DumpFormat.DumpLines | mmio_rw.c:231-271 | n bytes give n/4 + n%4 fields, four to a line, line k labelled with base plus the offset of its first field modulo 2^64; no bytes give no text |
| DumpFormat.LineAddresses | mmio_rw.c:238-265 | the dump of n bytes has (n/4 + n%4 + 3)/4 lines, and the number at the start of each is the address of its first byte, 16 bytes on from the line before while words are printed |
| DumpFormat.DumpExample | mmio_rw.c:231-271 | five bytes at 0x1010 are shown as `0x0000000000001010: 0x1122aabb 0xcc` |
| DumpFormat.FieldsTile | mmio_rw.c:243-257 | words first and then single bytes, the fields cover the bytes in order without gap or overlap |
| DumpFormat.FieldSpells | mmio_rw.c:243-253 | the print of a word or byte decodes to its bytes in memory order, on both byte orders |
| DumpFormat.DecodeDump | mmio_rw.c:224-271 | decoding the printed text gives exactly the dumped bytes, each once and in order |
| DumpFormat.DumpInjective | mmio_rw.c:231-271 | equal dumps come from equal bytes, and from equal addresses unless empty |
| Mmio.MmapInfo.OpenMapping | mmio_rw.c:49-88 | the masked base is page-aligned, the offset is below the page size, they add up to the requested address, and the length is offset plus count in unsigned int |
| Mmio.WindowCoversIff | mmio_rw.c:74-79 | the mapped length, and the mapped pages, reach the last requested byte if and only if offset plus count is below 2^32 |
| Mmio.MapsIff | mmio_rw.c:56-85 | a mapping is granted if and only if /dev/mem may be opened, page offset plus count is not 0 modulo 2^32, and the whole pages from the page of the address on end below the limit |
| Mmio.WindowTooShort | mmio_rw.c:76 | 0xFFFFFFF8 bytes at offset 16 are mapped with length 8 |
| Mmio.ShortWindowFaults | mmio_rw.c:74-79 | the short window is granted and the dump of it faults |
| Mmio.SmallWindow | mmio_rw.c:109-158 | the eight bytes asked for by a sized access always lie in the window |
| Mmio.MmioRead | mmio_rw.c:97-145 | prints the host-order value of the bytes at exactly the given address, padded to the width |
| Mmio.MmioWrite | mmio_rw.c:147-193 | exactly the bytes at the given address get the value cut to the width, and the rest of memory is unchanged |
| Mmio.ReadAfterWrite | mmio_rw.c:97-193 | a read of the same width gives the value written cut to the width, and windows that do not overlap are undisturbed |
| Mmio.CountersStep | mmio_rw.c:234-261 | while bytes are left there is a field to print, a word exactly when four bytes are left, and printing it moves all four counters to the next field |
| Mmio.PrintStep | mmio_rw.c:238-265 | one turn of the loop, whatever its counters, keeps printed text and remaining text equal to the whole closed-form text |
| Mmio.MmapInfo.DumpLoop | mmio_rw.c:231-271 | prints exactly the closed-form text when the window reaches the last byte, and faults otherwise |
| Mmio.MmioDump | mmio_rw.c:195-276 | fails if and only if there is a third argument other than -b or no mapping; faults if and only if offset plus count reaches 2^32 and the text, or the bytes under -b, cannot be had; otherwise the text decodes to the bytes at the address asked for and every line starts with the address of its first byte, and -b writes exactly these bytes, with -1 when there are none, or a first part of them with -1 when the window is too short |
| Mmio.TextDumpDecodesToBinaryDump | mmio_rw.c:224-271 | the text dump of a window decodes to the bytes that the -b dump of the same window writes, and that one succeeds if and only if there is a text and it is not empty |
| Commands.Registry.RegisterCommandGroup | commands.c:237-245 | a new group becomes the first of the list and the list stays a list; a group already in it closes a cycle |
| Commands.RegisterTwice | commands.c:237-245 | a group registered twice in a row is its own successor |
| Commands.CycleIsNoChain | commands.c:237-245 | a list that comes round to its head is not the chain of any groups, so no traversal of it ends |
| Commands.Registry.RegisterAll | commands.h:101-106 | after registering distinct groups the list is their reverse order |
| Commands.Registry.LocateCommand | commands.c:45-60 | the traversal ends and returns the first match in newest-group-first, then table order |
| Commands.FindIsFirst | commands.c:51-59 | a lookup yields nothing if and only if no command has the name, and otherwise the earliest command that has it |
| Commands.NewestGroupFirst | commands.c:51-59 | a newer group hides commands of the same name in older ones and no others |
| Commands.Registry.RunCommand | commands.c:96-124 | the traversals of the group list choose the command, argument list or fallback that `DispatchDecides` gives for the registered commands |
| Commands.LinkAndToolAgreeIff | commands.c:96-124 | a call through a link and a call by name reach the same command with the same argument count and tail if and only if the first argument is not itself a command |
| Commands.DispatchOutcomes | commands.c:62-124 | the fallback is taken if and only if neither lookup succeeds; an entry with prerequisites sees only argument counts within its bounds |
| Commands.DispatchDecides | commands.c:62-124 | the first argument, else the last name of the program, selects a command; it is entered with the arguments from its name on if and only if it has no prerequisites or minArgs <= count <= maxArgs and the privilege level can be had where needed, else refused; without a command the fallback gets all of argv |
| Commands.DispatchExample | commands.c:62-124 | `iotools not 0x5` enters a command of exactly two arguments, one more argument is refused, `sbin/not 0x5` enters it too, and `iotools` alone falls back |
| CommandLinks.MakeCommandLinks | commands.c:158-186 | for the binary dir/bin, adds a link to bin at every free, unlocked link path in dir of every registered command and changes nothing else |
| CommandLinks.CleanCommandLinks | commands.c:188-217 | for the binary dir/bin, removes exactly the entries at the unlocked link paths in dir |
| CommandLinks.PathParts | commands.c:126-146 | the path of the binary is its directory, a slash, and a last name without a slash |
| CommandLinks.PathOf | commands.c:126-146 | dir/bin with no slash in bin comes apart into dir and bin |
| CommandLinks.LinkNamesBeside | commands.c:148-156 | the link paths are exactly dir/name for the names of the commands, cut to 4095 characters |
| CommandLinks.MadeLinks | commands.c:158-186 | making links keeps all old entries, adds exactly the missing ones, and does nothing the second time |
| CommandLinks.CleanUndoesMakeIff | commands.c:158-217 | cleaning after making leaves the old entries less the link paths, which is the old state if and only if none was taken before |
| CommandLinks.CleanLosesFile | commands.c:158-217 | a plain file that has the path of a link is gone after making and cleaning |
| CommandLinks.LinkNameRecoversIff | commands.c:114-156 | the last name of a link path is the command name if and only if the name has no slash and the path fits its buffer |
| CommandLinks.MadeLinkDispatches | commands.c:96-186 | running a made link, alone or before an argument that is no command, chooses what a lookup of its command's name finds |
| Logic.LogicCommand | logic.c:38-87 | prints the fold of all values and returns 1 exactly when there were two or more and the result is 0; bts and btr print the changed word and return the old bit |
| Logic.PrintedShape | logic.c:84 | results are printed as 0x and lower-case digits that spell the value, without a leading zero |
| Logic.FoldMeaning | logic.c:55-66 | bit i of the result is set if and only if some argument has it (or), all have it (and), an odd number have it (xor) |
| Logic.FoldPermutes | logic.c:51-82 | the result depends only on the multiset of arguments |
| Logic.BitChangedBits | logic.c:67-76 | bts sets its bit, btr clears it, and all other bits are unchanged |
| Logic.OutputsCompose | logic.c:38-87 | giving a command its own printed output and more values prints the same as giving it all values |
| Logic.Not | logic.c:89-100 | bit i of the word printed is the complement of bit i of the argument for i < 64 and clear otherwise; returns 1 exactly for the all-ones word |
| Logic.NotTwice | logic.c:89-100 | not of the output of not is the value given |
| Logic.DeMorgan | logic.c:38-100 | not of the output of or is and of the outputs of not, for any number of arguments |
| Logic.DeMorganDual | logic.c:38-100 | not of the output of and is or of the outputs of not, for any number of arguments |
| Logic.Shift | logic.c:102-126 | bit i of the word shl prints is bit i - s of the value for s <= i < 64 and clear otherwise; bit i of the word shr prints is bit i + s of the value |
| Logic.ShiftsBitByBit | logic.c:112-118 | multiplying by 2^s within 64 bits and dividing by 2^s are the shifts of the bits |
| Logic.ShlThenShr | logic.c:102-126 | shr after shl by s gives the value modulo 2^(64-s) |
| Pci.PciBus.PciRead | pci_rw.c:73-136 | prints the little-endian value of the register bytes of the addressed device on every host, or fails |
| Pci.PciBus.PciWrite | pci_rw.c:138-200 | the register bytes of the addressed device become the little-endian bytes of the value, and nothing else changes |
| Pci.AccessTyped | pci_rw.c:82-94 | the arguments are bus, device, function and register in this order, behind the segment if there is one; numbers that fit their types reach the access as typed |
| Pci.OpenedPath | pci_rw.c:39-58 | the file opened is /sys/bus/pci/devices/ssss:bb:dd.f/config, else /proc/bus/pci/bb/dd.f for segment 0 and /proc/bus/pci/ssss:bb/dd.f for others |
| Pci.PathExamples | pci_rw.c:39-58 | the three paths of 0000:01:02.3 and 0001:01:02.3 |
| Pci.ReadTyped | pci_rw.c:73-136 | with these numbers typed, a read prints the little-endian value of the bytes at the register in the file of that device, or fails |
| Pci.WriteTyped | pci_rw.c:138-200 | with these numbers and a value typed last, the bytes at the register in the file of that device hold the value cut to the width, and no other byte of any device changes |
| Pci.PciBus.DoRead | pci_rw.c:108-131 | a full read prints the little-endian value of the bytes, a short one or another size is an error |
| Pci.PciBus.DoWrite | pci_rw.c:172-195 | the little-endian bytes of the value are stored as far as the file reaches, and it is an error when they do not fit |
| Pci.RunByte | pci_rw.c:138-200 | after any run of writes of mixed widths each byte is the one last written to it, or the original |
| Pci.RunSplit | pci_rw.c:138-200 | the commands of a run take effect one after the other: a run of two parts is the second part run on what the first left |
| Pci.ReadAfterRun | pci_rw.c:73-200 | after any run of writes a read of any width prints the little-endian assembly of the bytes last written at its place |
| Pci.ScanNameIff | pci_rw.c:46-47 | scanning the printed name of a device returns the same numbers if and only if they fit the field widths, and fails otherwise |
| Pci.WideSegmentIsNotScanned | pci_rw.c:214-219 | the name 10000:00:00.0, printed for segment 0x10000, does not scan |
| Pci.NamesDiffer | pci_rw.c:46-47 | devices with equal names are equal, whatever their numbers |
| Pci.PciListSysfs | pci_rw.c:202-223 | prints a line for exactly the directory names that scan as devices, in order |
| Pci.ListingShowsDevices | pci_rw.c:202-223 | over printed names the listing has, in order, the line of each device whose numbers fit the format widths and of no other |
| Pci.ListingExample | pci_rw.c:202-223 | the names 0000:00:1f.3 and 0001:02:00.0 are listed as `0 31 3` and `2 0 0`, in the order of the directory |
| Pci.LineReads | pci_rw.c:216-219 | a listing line is three decimal texts with blanks between that read back to bus, device and function in this order, as signed ints |
| Pci.LinesEqualIff | pci_rw.c:216-219 | two listing lines are equal if and only if bus, device and function are; the segment is not shown |
| Scom.OpenAndSeek | scom.c:38-70 | succeeds exactly when the file opens and bit 60 of the address is clear; the position reached then stands for the address exactly when bits 59, 61 and 62 are clear |
| Scom.OffsetByBits | scom.c:42-53 | the offset is a multiple of 8, non-negative exactly when bit 60 is clear, and then decodes to the address exactly when bits 59, 61 and 62 are clear |
| Scom.OffsetValue | scom.c:42-53 | with bits 59 to 62 clear the offset is eight times the low 59 bits, plus 2^62 when bit 63 is set |
| Scom.OffsetReversibleIff | scom.c:42-53 | the offset is a multiple of 8; it can be sought and decodes to the address if and only if bits 59 to 62 are clear |
| Scom.OffsetsEqualIff | scom.c:42-53 | two addresses share an offset if and only if they agree in their low 59 bits, in bit 60, and in whether bit 59 or bit 63 is set |
| Scom.OffsetsDiffer | scom.c:42-53 | distinct addresses with bits 59 to 62 clear have distinct offsets |
| Scom.OffsetsCollide | scom.c:42-53 | bit 59 alone and bit 63 alone have the same offset |

## Left out

- ParseIoWidth: says nothing about the first 32 bytes of the buffer, nor len, being meaningful after a rejection; callers discard them.
- LogicCommand: bts and btr are modelled for bits below 31 only, because C leaves `1 << val` on an int undefined from there on.
- WriteQuick: the bit that a quick command carries leaves no trace in the registers; whether it was accepted and acknowledged is modelled.
- Shift: shifts of 64 or more are excluded, because C leaves them undefined.
- RegisterAll: the order in which the constructor functions run is a parameter; the tool chain chooses it.
- MakeCommandLinks: a failing `readlink` and an executable path without a slash are not modelled; the kernel gives absolute paths shorter than the buffer.
- OpenAndSeek: reading and writing the eight bytes at the offset, and the chip-id lookups, would only add transfers of one value.
- Lengths of argument strings are unbounded; the int that `strlen` is stored in at `smbus_rw.c:199` is taken to hold them.
- `strtoul` is that of the C locale; the page size is a power of two that fits an int, as `getpagesize` promises; `FILENAME_MAX` is 4096.
- The `I2C_SLAVE_FORCE` ioctl before writes and process calls is taken to succeed; device blocks are at most 32 bytes, as section 5.5.7 of SMBus 2.0 demands.
- Full or closed standard output: printing always succeeds, as does `fwrite` of one or more bytes that can be read; what `fwrite` does with a buffer it cannot read to the end is a parameter.
- ReadI2cBlockData: a device keeps answering with what it was sent when asked for exactly as many bytes; what it answers to other counts is a parameter.
- `smbus_writeread` (one more command over a shared buffer) and the fallback listing of `/proc/bus/pci`.
- Error messages, `iopl` beyond success or failure, file descriptors and their closing.
- `msr.c`, `cmos_rw.c`, `io_rw.c`, `misc.c` and the usage text of `iotools.c`: single transfers, timing loops and fixed text.
