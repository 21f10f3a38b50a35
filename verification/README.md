# pt byte tools, hex dumpers and CLI helpers in Dafny

This project models the computational core of the `pt` Rust workspace and proves properties of it.

- **`hedu` hex-dump engine** (`libpt-bintols`), in `hedu.dfy` and `hedu_props.dfy`.
  - `HeduConfig` is a class. Its four settings are constants; its counters, stop flag and `alt_buf` index are fields; its two 16-byte line buffers are arrays.
  - Standard input is the class `StdinSource`. It has a byte sequence, a cursor and a script of read replies (short reads and I/O errors).
  - `rd_data` is `RdData`; `dump` is `Dump`, `DataLoop`, `DumpLine` and `CollapseRepeats`.
  - Each method is proved equal to a function on values: `ReadLine`, `Collapse`, `Advance`, `Lines` and `DumpFrom`. What `dump` prints is the returned sequence of lines.
  - The dump's properties are lemmas about those functions.
- **Earlier hex dumper** (`libpt-hedu`'s `dump`), in `legacy_hedu.dfy`. It prints eight bytes per line.
- **Big-endian codec.** `array_to_unsigned` (`join.dfy`) and `unsigned_to_vec` (`split_numbers.dfy`). The generic integer type is a `Width` from `u8` to `u128`. The two functions are proved inverse in both directions.
- **`pt-bintols` display helpers** `bytes_to_bin` and `byte_bit_display`, in `display.dfy`.
- **`libpt-cli` verbosity arithmetic** (`VerbosityLevel`), in `args.dfy`.
- **`libpt-ccc` term input filter** (`Term`, `filter`, `prepare`, `process`), in `term.dfy`.
- **Default REPL tab completion** (`DefaultReplCompletion::{commands, get}`), in `repl_completion.dfy`.
- **Shared pieces.** `wrappers.dfy` holds `Option` and `Result`. `fmt.dfy` holds Rust's zero-padded radix formatting (`{:08X}`, `{:02X}`, `{:08b}`, `{:07}`) with a parser that reads it back.

The hex dumper is modelled as the code is written, not as an idealised dumper:

- The printed offset is `data_idx` after the line's length has been added. A data line printed right after another is therefore at that line's offset plus its own length (`OffsetsAdvanceByLength`). A data line printed after a repeat marker is at the offset of the line before the marker, plus 16, plus the marker's figure (`OffsetsAcrossRepeats`).
- The two `alt_buf` toggles of one iteration cancel, so every line is printed from buffer 0. Between the toggles, `alt_buf` is 1, so every read inside the collapse loop goes into buffer 1. The line that ends a run stays in buffer 1, and buffer 0, which still holds the repeated line, is printed next.
- The "(repeats N lines)" figure is the growth of `data_idx` inside the collapse loop. It counts bytes: 16 plus the length of the line that ended the run, plus 32 per further repeated line (`CollapseFigure`).
- The limit clamp sets `len` to `limit % 16` whatever the read returned. When the input ends inside the last line, bytes left over from the previous line are printed (`StaleTailExample`). In the same way, the line that ends a collapsed run is never shown: its length is printed with the bytes of the repeated line (`HiddenTailExample`).
- The doc comment of `VerbosityLevel::changed` says the opposite of what the code computes. The model follows the code (`ChangedMeansFlagsGiven`). On the flag sets the parser accepts, `changed` also tells whether the level differs from INFO (`ChangedIffNotInfo`).

## Model

| member | source | states |
|---|---|---|
| Hedu.ReadFrom | members/libpt-bintols/src/hedu/mod.rs:162 | a read delivers at most the buffer's size and advances the cursor by exactly that many bytes; an error leaves the cursor; with no scripted replies it delivers min(16, bytes left) |
| Hedu.StdinSource.Read | members/libpt-bintols/src/hedu/mod.rs:162 | `Read::read` fills a prefix of the buffer with the next input bytes, leaves the rest of the buffer as it was, and agrees with `ReadFrom`; on error the buffer is untouched |
| Hedu.StdinSource.Skip | members/libpt-bintols/src/hedu/mod.rs:51-56 | skipping on standard input does nothing and returns `Ok` |
| Hedu.StdinSource.constructor | members/libpt-bintols/src/hedu/mod.rs:51 | standard input starts at cursor 0 over its data and reply script |
| Hedu.HeduConfig.constructor | members/libpt-bintols/src/hedu/mod.rs:32-45 | `new` copies the four settings and starts with stop false, len, data_idx and rd_counter 0, both buffers zeroed and alt_buf 0 |
| Hedu.SameLinesIsEqual | members/libpt-bintols/src/hedu/mod.rs:124 | the byte-by-byte comparison of the two buffers holds exactly when `buf[0] == buf[1]` |
| Hedu.ReadLineEffect | members/libpt-bintols/src/hedu/mod.rs:161-188 | an error leaves the whole dump state unchanged; a good read writes only `buf[alt_buf]` and grows rd_counter and data_idx by the new len; when the limit is reached, len is `limit % 16` and stop is set whatever was read; otherwise len is the number of bytes read, those bytes are at the front of the buffer, and stop is unchanged |
| Hedu.ReadLine | members/libpt-bintols/src/hedu/mod.rs:161-188 | `rd_data` keeps the state well-formed and alt_buf fixed; a read that consumes no input leaves a line that is short and is either empty or stopped |
| Hedu.RdData | members/libpt-bintols/src/hedu/mod.rs:161-188 | the method's result, new configuration and new input state are exactly those of `ReadLine`; the settings are unchanged |
| Hedu.FillCurrent | members/libpt-bintols/src/hedu/mod.rs:162 | the read writes the delivered bytes into `buf[alt_buf]` and leaves the other buffer and all counters unchanged |
| Hedu.Counted | members/libpt-bintols/src/hedu/mod.rs:169-180 | both counters grow by the new len and nothing but the stop flag changes besides; stop is never cleared; a len other than the read's count means the clamp stopped the dump short of a line; a line that does not stop the dump stays within the limit |
| Hedu.ApplyLimit | members/libpt-bintols/src/hedu/mod.rs:169-180 | after a good read, the clamp and the counter updates produce the state `Counted` describes |
| Hedu.Collapse | members/libpt-bintols/src/hedu/mod.rs:131-134 | the collapse loop keeps alt_buf, never moves data_idx backwards and never un-reads input |
| Hedu.RepeatRead | members/libpt-bintols/src/hedu/mod.rs:132-133 | one round of the collapse loop moves data_idx forward and consumes input unless its line is short |
| Hedu.CollapseUnfold | members/libpt-bintols/src/hedu/mod.rs:131-134 | while the buffers hold the same full line, the loop is one round, then the loop again unless that round's read failed |
| Hedu.CollapseRepeats | members/libpt-bintols/src/hedu/mod.rs:131-134 | the loop's result, state and input are exactly those of `Collapse` |
| Hedu.CollapseOnce | members/libpt-bintols/src/hedu/mod.rs:132-133 | one round reads a line and, if the read worked, adds 16 to data_idx, as `RepeatRead` says |
| Hedu.PrintRepeats | members/libpt-bintols/src/hedu/mod.rs:135-138 | the marker line is `^^^^^^^^ │ (repeats N lines)` with N in decimal |
| Hedu.CollapseRun | members/libpt-bintols/src/hedu/mod.rs:130-138 | collapses a run as `Collapse` does; after a good run it prints one marker whose figure is the growth of data_idx, and after a failed one it prints nothing |
| Hedu.Flipped | members/libpt-bintols/src/hedu/mod.rs:124-142 | after the first toggle, a turn that goes on is `Ok` with alt_buf back at 0; unless it collapsed a full line it leaves state and input as they were apart from the toggle |
| Hedu.Resumed | members/libpt-bintols/src/hedu/mod.rs:122-142 | after the read, a turn that goes on is `Ok` with alt_buf 0, so every line is printed from buffer 0 |
| Hedu.Advance | members/libpt-bintols/src/hedu/mod.rs:90-143 | one loop iteration goes on only if the stop flag was clear and the result is `Ok`; then it has consumed input, or set stop, or read an empty line |
| Hedu.MaskChar | members/libpt-bintols/src/hedu/mod.rs:147-159 | `mask_chars` never yields a blank or a control character, so every byte stays visible (its five cases are `MaskCharSpec`) |
| Hedu.MaskCharSpec | members/libpt-bintols/src/hedu/mod.rs:147-159 | graphic ASCII 0x21-0x7E masks to itself and only it masks to ASCII; newline, space and tab get their own glyphs; every other byte becomes U+FFFD |
| Hedu.HexColumns | members/libpt-bintols/src/hedu/mod.rs:92-106 | the printed hex field is 49 characters wide and reads back as the line: the two characters at byte i's slot (3i, one further from the ninth byte on) parse in base 16 to that byte, and every other character is a blank |
| Hedu.Padding | members/libpt-bintols/src/hedu/mod.rs:98-106 | the padding is the half-line gap when len is 8, then three blanks per missing byte and one more once the ninth slot is passed |
| Hedu.CharColumn | members/libpt-bintols/src/hedu/mod.rs:109-111 | the character column is every byte of the line masked, in order |
| Hedu.LineText | members/libpt-bintols/src/hedu/mod.rs:91-114 | a data line opens with the offset in at least eight hex digits that read back as the offset, and ends with a bar when the character column is shown (the 49-character hex field is `HexFieldWidth`) |
| Hedu.RepeatsText | members/libpt-bintols/src/hedu/mod.rs:135-138 | the figure between ` (repeats ` and ` lines)` reads back as the number printed (its value is `CollapseFigure`) |
| Hedu.PrintLine | members/libpt-bintols/src/hedu/mod.rs:91-114 | a printed line is the 8-digit upper-case hex offset, the separator, the hex field and, if chars is set, the masked column between bars |
| Hedu.DumpLine | members/libpt-bintols/src/hedu/mod.rs:91-143 | one iteration prints and returns exactly what `Advance` says and leaves the state it says |
| Hedu.NextLine | members/libpt-bintols/src/hedu/mod.rs:122-142 | the rest of an iteration after the stop check matches `Proceed` |
| Hedu.Resume | members/libpt-bintols/src/hedu/mod.rs:123-142 | after the read, toggling, collapsing and toggling back match `Resumed`; a failed read returns its error and prints nothing |
| Hedu.ResumeFlipped | members/libpt-bintols/src/hedu/mod.rs:124-142 | the duplicate test and collapse after the first toggle match `Flipped` |
| Hedu.DataLoop | members/libpt-bintols/src/hedu/mod.rs:90-143 | the data-dump loop's result, printed lines, state and input are exactly those of `Lines` |
| Hedu.Lines | members/libpt-bintols/src/hedu/mod.rs:90-143 | the loop keeps the state well-formed and reads only from the given input |
| Hedu.Skipped | members/libpt-bintols/src/hedu/mod.rs:69-72 | after a skip, data_idx is a multiple of 16, strictly past the skipped bytes and at most 16 beyond them; nothing else changes |
| Hedu.DumpFrom | members/libpt-bintols/src/hedu/mod.rs:65-145 | `dump` reads only from the given input and leaves it well-formed |
| Hedu.Dump | members/libpt-bintols/src/hedu/mod.rs:65-145 | the skip, the first read and the loop return, print and leave exactly what `DumpFrom` says |
| Hedu.HexCellsLength | members/libpt-bintols/src/hedu/mod.rs:92-97 | the hex slots of up to 16 bytes take three characters each, plus one once a ninth byte is present |
| Hedu.HexFieldWidth | members/libpt-bintols/src/hedu/mod.rs:92-106 | the hex field is 49 characters wide for every line length from 0 to 16 |
| Hedu.HexCellsDigits | members/libpt-bintols/src/hedu/mod.rs:92-97 | byte i's two upper-case hex digits sit at its slot of the byte slots, after the one gap space once i is 8 or more |
| Hedu.HexCellsBlank | members/libpt-bintols/src/hedu/mod.rs:92-97 | every character of the byte slots outside the digit pairs is a blank |
| Hedu.HexFieldDigits | members/libpt-bintols/src/hedu/mod.rs:92-106 | the padding after the slots leaves every byte's digit pair in place in the whole hex field |
| Hedu.HexFieldBlank | members/libpt-bintols/src/hedu/mod.rs:92-106 | the gap after a half line and the padding blanks, like the spaces among the slots, are all blanks |
| Hedu.HexFieldDecodes | members/libpt-bintols/src/hedu/mod.rs:92-106 | for every line of up to 16 bytes, the slot of byte i in the hex field parses in base 16 back to that byte, and every character outside the slots (gap, separators, padding) is a blank |
| HeduProps.LinesUnfold | members/libpt-bintols/src/hedu/mod.rs:90-143 | the loop is one iteration followed, unless that iteration ends it, by the loop again |
| HeduProps.AdvanceFacts | members/libpt-bintols/src/hedu/mod.rs:90-143 | an iteration prints its line from buffer 0, then at most one repeat marker; it ends the loop without error only on the stop flag; with show_identical it prints just the line and goes on from the read |
| HeduProps.LinesShape | members/libpt-bintols/src/hedu/mod.rs:90-143 | every data line holds 1 to 16 bytes; nothing is printed exactly when the first read was empty; a dump that does not fail ends on an empty read or after the stopped line |
| HeduProps.LinesArePlain | members/libpt-bintols/src/hedu/mod.rs:90-143 | with show_identical, the loop is the plain loop without collapsing: print, stop on stop, read, repeat |
| HeduProps.PlainOnlyLines | members/libpt-bintols/src/hedu/mod.rs:91-122 | the plain loop prints only data lines |
| HeduProps.NoRepeatsWhenShowIdentical | members/libpt-bintols/src/hedu/mod.rs:124-139 | with show_identical, no repeat marker is ever printed |
| HeduProps.PlainOffsets | members/libpt-bintols/src/hedu/mod.rs:91-122 | in the plain loop each line's offset is the previous offset plus the new line's length |
| HeduProps.OffsetsAdvanceByLength | members/libpt-bintols/src/hedu/mod.rs:91-180 | without collapsing, each printed offset is the previous one plus the new line's length |
| HeduProps.FirstOffset | members/libpt-bintols/src/hedu/mod.rs:178-180 | from offset 0 and in either mode, the first line is labelled with its own length, not with 0 |
| HeduProps.TurnOffsets | members/libpt-bintols/src/hedu/mod.rs:122-142 | an iteration that goes on leaves data_idx past the new line, or, after a marker, 16 plus the marker's figure past the printed line |
| HeduProps.OffsetsAcrossRepeats | members/libpt-bintols/src/hedu/mod.rs:89-142 | in either mode, a data line after a data line is at that offset plus its own length, and a data line after a marker is at the offset before the marker plus 16 plus the figure |
| HeduProps.CollapseFigure | members/libpt-bintols/src/hedu/mod.rs:130-138 | a successful collapse moves data_idx by 16 plus the final len plus a multiple of 32 |
| HeduProps.CollapseRound | members/libpt-bintols/src/hedu/mod.rs:131-134 | a round either fails the collapse or continues it from a state 16 plus the read's length further on, consuming input when the line is full |
| HeduProps.CollapseStep | members/libpt-bintols/src/hedu/mod.rs:131-134 | a failed read fails the collapse; a good one continues it with data_idx raised by 16 |
| HeduProps.CollapseCounts | members/libpt-bintols/src/hedu/mod.rs:178-180 | a good read moves data_idx by its len, and a full line consumes input |
| HeduProps.CollapseDone | members/libpt-bintols/src/hedu/mod.rs:131 | the loop ends at once when the buffers differ or the line is short |
| HeduProps.PlainShowsInput | members/libpt-bintols/src/hedu/mod.rs:90-122 | with no limit and full reads, the plain loop shows the rest of the input in order and does not fail |
| HeduProps.DumpShowsInput | members/libpt-bintols/src/hedu/mod.rs:65-145 | with no limit, no collapsing and full reads, the dump's data lines show every remaining input byte once, in order, and the dump succeeds |
| HeduProps.PlainStops | members/libpt-bintols/src/hedu/mod.rs:117-119 | once stop is set, the loop shows the current line and nothing more |
| HeduProps.ClampedRead | members/libpt-bintols/src/hedu/mod.rs:169-177 | the read that reaches the limit sets stop and brings the limit's remainder |
| HeduProps.FullRead | members/libpt-bintols/src/hedu/mod.rs:169-180 | below the limit, enough plain input fills a whole line without setting stop |
| HeduProps.PlainRespectsLimit | members/libpt-bintols/src/hedu/mod.rs:169-180 | with a limit and enough input, the rest of the plain loop shows exactly the bytes the limit still allows |
| HeduProps.DumpRespectsLimit | members/libpt-bintols/src/hedu/mod.rs:169-177 | with a limit L, no collapsing and at least L bytes of plain input, the dump shows exactly L bytes |
| HeduProps.StaleTailExample | members/libpt-bintols/src/hedu/mod.rs:175-178 | 18 input bytes with limit 20 show 20 bytes; the last two are left over from the previous line |
| HeduProps.HiddenTailExample | members/libpt-bintols/src/hedu/mod.rs:122-142 | with identical lines hidden, 48 zero bytes and 0x41 print a zero line at 16, `(repeats 49 lines)` and a one-byte zero line at 81; 0x41 is never shown |
| LegacyHedu.Rendered | members/libpt-hedu/src/lib.rs:18-26 | the text printed for n bytes has at least two digits and a space per byte (its rows are `RenderedRows` and `RowAppended`) |
| LegacyHedu.Dump | members/libpt-hedu/src/lib.rs:14-28 | the dump finishes exactly when every read succeeds and then prints the rendering of all bytes; otherwise it panics at the first failed read, after the earlier output and any label due there |
| LegacyHedu.RowAppended | members/libpt-hedu/src/lib.rs:18-26 | after a whole number of lines, the next 1 to 8 bytes print as one row: the 8-digit offset, a tab, their cells, and a newline if the row is full |
| LegacyHedu.RenderedRows | members/libpt-hedu/src/lib.rs:18-26 | a full row of eight is the offset label, eight cells and a newline |
| LegacyHedu.PieceCounts | members/libpt-hedu/src/lib.rs:19-25 | the byte at index i prints a tab exactly when i % 8 == 0 and a newline exactly when i % 8 == 7 |
| LegacyHedu.LineCounts | members/libpt-hedu/src/lib.rs:18-27 | n bytes print ceil(n/8) offset labels and floor(n/8) newlines |
| LegacyHedu.EmptyInput | members/libpt-hedu/src/lib.rs:18-27 | empty input prints nothing |
| LegacyHedu.EndsWithNewline | members/libpt-hedu/src/lib.rs:23-25 | non-empty output ends in a newline exactly when the input length is a multiple of 8 |
| Join.Joined | members/libpt-bintols/src/join.rs:26-50 | a joined value always fits the target type |
| Join.ArrayToUnsigned | members/libpt-bintols/src/join.rs:26-50 | more than 16 parts is an error; otherwise the big-endian value, or an error if it does not fit the target type |
| Join.BigEndian | members/libpt-bintols/src/join.rs:45-48 | the big-endian value is zero exactly when every byte is zero |
| Join.BigEndianCons | members/libpt-bintols/src/join.rs:46-48 | a byte in front weighs 256 to the power of the number of bytes after it |
| Join.BigEndianBound | members/libpt-bintols/src/join.rs:45-48 | k bytes denote less than 256^k |
| Join.JoinedWithinU128 | members/libpt-bintols/src/join.rs:39-48 | for at most 16 parts the accumulator never exceeds u128::MAX |
| Join.LeadingZeroIgnored | members/libpt-bintols/src/join.rs:15 | a leading zero byte does not change the value |
| Join.AllOnes | members/libpt-bintols/src/join.rs:45-48 | k bytes of 0xFF denote 256^k - 1 |
| Join.DocExample | members/libpt-bintols/src/join.rs:22-24 | `[0b00000110, 0b10110101]` as a u32 is 1717 |
| Join.U128Table | members/libpt-bintols/tests/join.rs:4-28 | `[1,0]` is 256, sixteen 0xFF are u128::MAX, `[1,0,0,0,0,0,0,0,0]` is u64::MAX + 1, the empty slice is 0, and 17 parts are refused |
| Join.NarrowTable | members/libpt-bintols/tests/join.rs:30-55 | eight 0xFF as a u64 are u64::MAX, `[1,1]` is 257, and 256 does not fit a u8 |
| Join.U64Successor | members/libpt-bintols/tests/join.rs:12 | a one and eight zero bytes denote u64::MAX + 1 |
| SplitNumbers.Split | members/libpt-bintols/src/split_numbers.rs:27-38 | every number splits into at least one byte |
| SplitNumbers.Reversed | members/libpt-bintols/src/split_numbers.rs:36 | the reversal holds the same elements in opposite order |
| SplitNumbers.UnsignedToVec | members/libpt-bintols/src/split_numbers.rs:23-38 | the loop and the final reverse produce exactly the minimal big-endian bytes `Split` |
| SplitNumbers.SplitValue | members/libpt-bintols/src/split_numbers.rs:31-37 | the bytes, read big-endian, give the number back |
| SplitNumbers.SplitMinimal | members/libpt-bintols/src/split_numbers.rs:28-37 | zero gives `[0]`; any other number has a non-zero first byte |
| SplitNumbers.SplitLength | members/libpt-bintols/src/split_numbers.rs:27-35 | a number below 256^k takes 1 to k bytes, so a u128 takes 1 to 16 |
| SplitNumbers.SplitThenJoin | members/libpt-bintols/src/split_numbers.rs:23-38 | joining the split of any value of a width gives the value back |
| SplitNumbers.JoinThenSplit | members/libpt-bintols/src/split_numbers.rs:23-38 | splitting the value of minimal bytes gives those bytes back |
| SplitNumbers.SmallExamples | members/libpt-bintols/src/split_numbers.rs:19-21 | 1717 splits to `[0x06, 0xB5]`; 16, 255 and 0 to one byte; 256 to `[1, 0]` |
| SplitNumbers.MaxIsAllOnes | members/libpt-bintols/tests/split_numbers.rs:5-14 | the maximum of every width splits to that width's number of 0xFF bytes |
| SplitNumbers.U64OverflowExample | members/libpt-bintols/src/split_numbers.rs:31-37 | u64::MAX + 1 splits to a one and eight zero bytes |
| Display.Bin8RoundTrip | members/pt-bintols/src/display.rs:8-10 | `{:08b}` of a byte is eight binary digits that read back as the byte |
| Display.BinText | members/pt-bintols/src/display.rs:7-16 | the text starts with `0b` (its bits and round trip are `BinTextBits` and `BinTextRoundTrip`) |
| Display.BytesToBin | members/pt-bintols/src/display.rs:7-16 | the built string is `0b`, then the first byte's bits, then `_` and eight bits per further byte, with a newline after each index that is a positive multiple of 8 |
| Display.BinTextBits | members/pt-bintols/src/display.rs:7-16 | the text starts with `0b`, and without the `_` and newline separators it is eight bits per byte in order |
| Display.BitsRoundTrip | members/pt-bintols/src/display.rs:8-10 | the bits decode back to the bytes |
| Display.BinTextRoundTrip | members/pt-bintols/src/display.rs:7-16 | stripping `0b` and the separators and decoding gives the input back |
| Display.NewlineCount | members/pt-bintols/src/display.rs:11-13 | n bytes give (n - 1) / 8 newlines |
| Display.ByteBitDisplay | members/pt-bintols/src/display.rs:20-22 | there is no text exactly when `data * 8` overflows a 64-bit `usize` (its parts are `ByteBitDisplayParts`) |
| Display.ByteBitDisplayParts | members/pt-bintols/src/display.rs:20-22 | the text is the count in at least 7 digits, ` B = `, eight times the count in at least 8 digits, ` bit`, each reading back as its number |
| Display.ByteBitDisplayExample | members/pt-bintols/src/display.rs:20-22 | one byte shows as `0000001 B = 00000008 bit` |
| CliArgs.LevelValue | members/libpt-cli/src/args.rs:192-200 | a level's rank is at most 4 (it is inverted by `level`, `LevelOfValue`) |
| CliArgs.LevelOf | members/libpt-cli/src/args.rs:155-168 | TRACE exactly from 4 up, and ERROR exactly at 0 |
| CliArgs.VerbosityLevel.Changed | members/libpt-cli/src/args.rs:129-131 | when no flag is given, the level is INFO |
| CliArgs.VerbosityLevel.Value | members/libpt-cli/src/args.rs:134-138 | the value is at most 12; without `-q` it is at least INFO's rank, without `-v` at most |
| CliArgs.VerbosityLevel.Level | members/libpt-cli/src/args.rs:153-170 | without `-q` the level is INFO or more verbose, without `-v` INFO or less |
| CliArgs.Default | members/libpt-cli/src/args.rs:276-280 | the default selects INFO and is not a change |
| CliArgs.ValueFormula | members/libpt-cli/src/args.rs:134-138 | value = max(0, 2 - min(quiet, 10)) + min(verbose, 10), so it lies in 0..12 |
| CliArgs.LevelOfValue | members/libpt-cli/src/args.rs:153-170 | `level` at `level_value(l)` is l for each of the five levels |
| CliArgs.ValueOfLevel | members/libpt-cli/src/args.rs:192-200 | `level_value(level(v))` is v capped at 4: 0 to 4 name ERROR to TRACE, and everything above is TRACE |
| CliArgs.LevelOfMonotone | members/libpt-cli/src/args.rs:153-170 | a higher value never selects a less verbose level |
| CliArgs.VerboseMonotone | members/libpt-cli/src/args.rs:134-138 | more `-v` never lowers the level |
| CliArgs.QuietMonotone | members/libpt-cli/src/args.rs:134-138 | more `-q` never raises the level |
| CliArgs.QuietSaturates | members/libpt-cli/src/args.rs:136 | two or more `-q` without `-v` give ERROR |
| CliArgs.VerboseSaturates | members/libpt-cli/src/args.rs:137 | two or more `-v` without `-q` give TRACE |
| CliArgs.Constants | members/libpt-cli/src/args.rs:211-280 | TRACE, DEBUG, INFO, WARN and ERROR select their own levels; the default is INFO and is not changed |
| CliArgs.ChangedMeansFlagsGiven | members/libpt-cli/src/args.rs:129-131 | `changed` holds exactly when a count is non-zero, i.e. when the counts differ from the default |
| CliArgs.ChangedIffNotInfo | members/libpt-cli/src/args.rs:114-138 | on the flag sets the parser accepts (`-q` conflicts with `-v`), a change from the default holds exactly when the level is not INFO |
| CccTerm.IsIgnore | members/libpt-ccc/src/term.rs:188-193 | the ignored character is neither an operator nor a control character (that it is just the space is `CharacterClasses`) |
| CccTerm.IsAllowedSpecial | members/libpt-ccc/src/term.rs:196-201 | an operator is neither a control character nor alphanumeric, so the filter keeps it |
| CccTerm.GuardIsControl | members/libpt-ccc/src/term.rs:159-168 | whatever `is_alphanumeric` answers, the filter's test rejects exactly the ASCII control characters |
| CccTerm.CharacterClasses | members/libpt-ccc/src/term.rs:188-201 | the allowed special characters are exactly `+ - * / %`, and the only ignored character is the space |
| CccTerm.FirstControl | members/libpt-ccc/src/term.rs:146-174 | the first ASCII control character of a text, or none if there is none |
| CccTerm.RemoveSpaces | members/libpt-ccc/src/term.rs:177-184 | the text with spaces removed is no longer than the text, holds no space, and holds only characters of the text |
| CccTerm.Filtered | members/libpt-ccc/src/term.rs:138-185 | `filter` fails only by naming a control character of the text; its success holds neither spaces nor control characters and is no longer than the text |
| CccTerm.Filter | members/libpt-ccc/src/term.rs:138-185 | `filter` fails on the first control character, naming it; otherwise it returns the text without spaces |
| CccTerm.FirstControlAt | members/libpt-ccc/src/term.rs:146-173 | the first control character is the one at which the loop stops |
| CccTerm.FilterFailsOnControl | members/libpt-ccc/src/term.rs:159-173 | `filter` fails exactly when the text holds an ASCII control character |
| CccTerm.RemoveSpacesAppend | members/libpt-ccc/src/term.rs:177-182 | removing spaces works piecewise on concatenations |
| CccTerm.RemoveSpacesCounts | members/libpt-ccc/src/term.rs:177-184 | no space survives, and every other character keeps its number of occurrences |
| CccTerm.RemoveSpacesIdempotent | members/libpt-ccc/src/term.rs:177-184 | removing spaces twice is removing them once |
| CccTerm.RemoveSpacesKeepsControl | members/libpt-ccc/src/term.rs:159-184 | removing spaces neither adds nor removes a control character |
| CccTerm.FilterIdempotent | members/libpt-ccc/src/term.rs:138-185 | filtering a successful result again gives the same result |
| CccTerm.Term.constructor | members/libpt-ccc/src/term.rs:84-94 | `new` keeps the expression, with the text empty and no result |
| CccTerm.Term.Prepare | members/libpt-ccc/src/term.rs:97-116 | `prepare` returns the filter's error unchanged, or stores the filtered text and then refuses the first character; the result is untouched |
| CccTerm.Prepared | members/libpt-ccc/src/term.rs:97-116 | `prepare` succeeds only on the empty expression and passes a filter error on unchanged |
| CccTerm.PrepareOnlyAcceptsEmpty | members/libpt-ccc/src/term.rs:97-116 | `prepare` succeeds exactly on the empty expression; every failure is a syntax error |
| CccTerm.Term.Process | members/libpt-ccc/src/term.rs:119-125 | `process` stores the integer 19 as the result and succeeds |
| ReplCompletion.Lower | members/libpt-cli/src/repl/default.rs:179 | lower-casing keeps the length, leaves no upper-case ASCII letter, and keeps every other character |
| ReplCompletion.LowerIdempotent | members/libpt-cli/src/repl/default.rs:179 | lower-casing twice is lower-casing once |
| ReplCompletion.SkipSpace | members/libpt-cli/src/repl/default.rs:178 | the suffix of the text from its first non-whitespace character: everything dropped is whitespace, and the rest is empty or starts with a non-whitespace character |
| ReplCompletion.TakeWord | members/libpt-cli/src/repl/default.rs:178-180 | the longest whitespace-free prefix |
| ReplCompletion.FirstWordShape | members/libpt-cli/src/repl/default.rs:177-182 | a text with a word has a non-empty, whitespace-free first word |
| ReplCompletion.CommandList | members/libpt-cli/src/repl/default.rs:169-187 | the command list is "help" and then one name per variant |
| ReplCompletion.Commands | members/libpt-cli/src/repl/default.rs:169-187 | the loop builds exactly "help" followed by each variant's first Debug word, lower-cased, in iteration order |
| ReplCompletion.LowerKeepsWord | members/libpt-cli/src/repl/default.rs:179 | lower-casing a word leaves a word |
| ReplCompletion.CommandNamesAreWords | members/libpt-cli/src/repl/default.rs:172-184 | every command name is a single non-empty word |
| ReplCompletion.MatchesAreMatching | members/libpt-cli/src/repl/default.rs:205-208 | the filtered list holds one entry per command that starts with the input, each being such a command |
| ReplCompletion.MatchIndicesSnoc | members/libpt-cli/src/repl/default.rs:207 | a further command adds its position exactly when it starts with the input |
| ReplCompletion.GetUnique | members/libpt-cli/src/repl/default.rs:204-216 | `get` is `Some(s)` exactly when one command starts with the input, and `s` is that command; zero or several matches give `None` |
| ReplCompletion.Get | members/libpt-cli/src/repl/default.rs:204-216 | a completion is one of the commands and starts with the input (when there is one is `GetUnique`) |
| ReplCompletion.EmptyInputNeverCompletes | members/libpt-cli/src/repl/default.rs:205-215 | with at least one variant, the empty input matches "help" and that variant, so it never completes |
| ReplCompletion.NoMatchNoCompletion | members/libpt-cli/src/repl/default.rs:211-215 | input that no command starts with completes to nothing |

## Left out

- Printing is modelled as returned text. `Dump` returns the printed lines. `LegacyHedu.Dump`, `BytesToBin` and `ByteBitDisplay` return the text they print.
- The header and horizontal rule that `dump` prints before the data (`members/libpt-bintols/src/hedu/mod.rs:77-86`) are not modelled.
- Logging (`trace!`, `debug!`, `warn!`, `error!`) is not modelled, including the warning of `Stdin::skip`.
- `File::skip` is an operating-system seek and is not modelled. The model's only source is standard input, whose `skip` does nothing.
- `dump` takes any `DataSource`. The model passes the class `StdinSource` instead. Its reads follow a script of short reads and errors given as a parameter, and the error cause is abstract.
- `Hedu.Dump`: the counters are unbounded. The `usize` overflow that `data_idx`, `rd_counter` and the skip arithmetic could hit on huge inputs is not modelled.
- The `dump` of `hedu` is split into the methods `RdData`, `FillCurrent`, `ApplyLimit`, `DataLoop`, `DumpLine`, `NextLine`, `Resume`, `ResumeFlipped`, `CollapseRun`, `CollapseRepeats`, `CollapseOnce`, `PrintLine` and `PrintRepeats`. Each is one block of the source's function. The two toggles and the buffer comparison are kept where the source has them.
- The comparison `buf[0] == buf[1]` is written as a byte-by-byte predicate in the specification functions. `SameLinesIsEqual` proves it is equality; the methods compare the arrays directly.
- `LegacyHedu.Dump` takes the results of `data.bytes()` as a sequence. The `BufReader` behind it is not modelled, and a panic is returned as an outcome.
- `Display.BytesToBin` requires non-empty input, because the source panics on `unwrap` of the first byte.
- `Display.ByteBitDisplay` assumes a 64-bit `usize`. It returns `None` where `data * 8` overflows, which panics in a debug build.
- `CccTerm.IsAlphanumeric` knows only ASCII letters and digits. `GuardIsControl` proves the filter's outcome does not depend on it.
- `ReplCompletion.IsWhitespace` and `ReplCompletion.LowerChar` cover only ASCII. `split_whitespace` and `to_lowercase` also handle other Unicode characters.
- `ReplCompletion.Commands` requires every variant's Debug text to hold a word. Otherwise the source's `.next().unwrap()` panics.
- Two rows of the split tests are not encoded: `members/libpt-bintols/tests/split_numbers.rs:9` and `:27` expect `[255, 1]` and `[1, 255]` for 256. They contradict each other and the code, which gives `[1, 0]` (`SmallExamples`).
- `CliArgs.VerbosityLevel` admits both counts non-zero, which the argument parser refuses because `quiet` conflicts with `verbose` (`members/libpt-cli/src/args.rs:119`). The lemmas on levels hold for every pair of counts; `ChangedIffNotInfo` is stated for the accepted ones (`Accepted`).
- These are not modelled: `DefaultRepl::step` (terminal input and argument parsing), `level_for_log_crate`, the `Debug` impl of `VerbosityLevel`, and the completion struct's constructors.
- `Term` is not modelled in full. Its `operator_stack` and `output_queue` fields and `to_tok` are unused placeholders, and `process` stores a constant.
- `Join` and `SplitNumbers` replace the generic integer type `T` with a `Width` (`u8` to `u128`). The `FromStr` bounds play no part in the computation.
