# Keypad, LED and OLED driver logic of an STM32F0 lab program

This project models the parts of `src/main.c` that hold logic rather than
peripheral set-up. The file is the firmware of a microcontroller lab on the
STM32F0. It covers four pieces:

- **Keypad scan tick** (`keypad.dfy`, module `Keypad`). The TIM7 interrupt
  handler advances the 8-bit global `col` as `(col + 1) & 3`. It passes the
  old column to `update_history` and drives the new one. The collaborators
  `read_rows`, `update_history` and `drive_column` are defined elsewhere, so
  each call to them is recorded as an `IoCall` in a ghost trace.
- **Bit-banged LED serialiser** (`bitbang.dfy`, module `BitBang`). PB12 is CS,
  PB13 is SCK and PB15 is SDI on GPIOB. `bb_write_bit`, `bb_write_halfword` and
  one pass of `drive_bb` are methods of class `GpioB`.
  - Field `odr` holds the output register as the three pin levels plus its
    other bits. `Word` turns it into the 16-bit value.
  - Ghost field `pulses` records the register at every rising SCK edge, the moment
    the receiver samples SDI.
  - Each pin update is proved to be the C read-modify-write (`|=`, `&= ~`) on
    the 16-bit value.
- **OLED word encoding** (`oled.dfy`, module `Oled`). SPI1 sends 10-bit frames
  in which bit 9 selects a character (set) or a command (clear). Class `Spi1`
  records, in a ghost field, every value stored into the 16-bit data register. It models
  `spi_cmd`, `spi_data`, `spi1_init_oled`, `spi1_display1` and
  `spi1_display2`. `Decode` is the controller's reading of a frame, and the
  lemmas show that what is sent reads back as the intended commands and text.
- **Constant tables** (`buffers.dfy`, module `Buffers`).
  - The 34-word `display` buffer is proved to be exactly the words the two
    display routines would send for its two lines.
  - The eight-word `msg` table is proved to carry the digit number in bits 8-10.
    Once `main` ORs the font segments in, each word keeps that number in its
    high byte and the segments in its low byte.

C integer widths are explicit:

- `col` is a `bv8`.
- The `int` argument of the serialiser is a `bv32`.
- GPIOB's output register and the LED words are `bv16`.
- `unsigned int` is `UInt32` and the SPI data register is `UInt16`.
- `char` is unsigned and 8 bits wide on this target (`CChar`).

`spi_cmd` stores an `unsigned int` into the 16-bit data register. The
truncation is written out as `DrValue`.

The display routines loop `while (*string != "\0")`, which compares each
character with the *address* of a string literal. The model's display
routines stop at the NUL terminator instead, which is evidently what was
meant. The loop as written is modelled separately and reported under
Findings. A C string is modelled as the memory from the string pointer on,
which must contain a NUL; `CString` is the text before the first NUL.

## Model

| member | source | states |
|---|---|---|
| Keypad.NextColumn | src/main.c:140 | the next column is always below 4; from column 0, 1 or 2 it is the next one, and from 3 it wraps to 0 |
| Keypad.ColumnAfter | src/main.c:140 | after at least one tick, or from a valid column, the column is below 4 |
| Keypad.FourTicksVisitEveryColumn | src/main.c:140 | from a valid column, ticks 1 to 4 drive all four columns, each once, and the fourth tick returns to the start |
| Keypad.ColumnAfterPeriodic | src/main.c:140 | four more ticks lead to the same column |
| Keypad.ColumnAfterMod | src/main.c:140 | the column after n ticks depends only on n modulo 4 |
| Keypad.ReturnsEveryFourTicks | src/main.c:135-142 | the scan is back at its starting column exactly when the number of ticks is a multiple of four |
| Keypad.Scanner.constructor | src/main.c:24 | the global column starts at zero, with no calls made |
| Keypad.Scanner.Tick | src/main.c:135-142 | one interrupt reads the rows, then passes the pre-tick column to update_history, then advances the column and drives the new one; the new column is below 4 |
| BitBang.PinBits | src/main.c:61-63 | the CS (0x1000), SCK (0x2000) and SDI (0x8000) bits follow the three pin levels, and no other bit is set |
| BitBang.Word | src/main.c:61-63 | the register value has each pin bit set exactly when that pin is high, and keeps the other bits |
| BitBang.WordDecode | src/main.c:61-63 | every 16-bit register value is represented: reading its pins back and rebuilding the value gives it again |
| BitBang.SetCs | src/main.c:97 | raising CS is `GPIOB->ODR \|= 0x1000` on the register value |
| BitBang.ClearCs | src/main.c:81 | lowering CS is `GPIOB->ODR &= ~0x1000` on the register value |
| BitBang.SetSck | src/main.c:71 | raising SCK is `GPIOB->ODR \|= 0x2000` on the register value |
| BitBang.ClearSck | src/main.c:73 | lowering SCK is `GPIOB->ODR &= ~0x2000` on the register value |
| BitBang.SetSdi | src/main.c:65 | raising SDI is `GPIOB->ODR \|= 0x8000` on the register value |
| BitBang.ClearSdi | src/main.c:68 | lowering SDI is `GPIOB->ODR &= ~0x8000` on the register value |
| BitBang.WriteBitIsBitwise | src/main.c:64-71 | the register at the clock pulse is the old value with 0x8000 set (bit 1) or cleared (bit 0), and 0x2000 set |
| BitBang.Received | src/main.c:64-73 | what the receiver reads at each pulse is the SDI bit of the register value |
| BitBang.ReceivedPulses | src/main.c:64-73 | the receiver reads back exactly the bits clocked out; every pulse has SCK high and keeps CS and the other register bits |
| BitBang.PulsesAppend | src/main.c:80-98 | the pulses of consecutive transfers concatenate |
| BitBang.AsWrittenArgs | src/main.c:82-96 | the fifteen arguments bb_write_halfword passes to bb_write_bit; every one of them lies within the low nibble of the halfword |
| BitBang.BitTrace | src/main.c:82-96 | fifteen data bits; the first is bit 0 of the halfword and the last is high exactly when the low nibble is non-zero |
| BitBang.BitTraceIsMaskTest | src/main.c:82-96 | the k-th bit sent (k = 1 to 15) is high exactly when `halfword & k` is non-zero |
| BitBang.TraceDeterminesNibble | src/main.c:82-96 | the as-written trace determines the low nibble of the halfword |
| BitBang.TraceOnlyReadsNibble | src/main.c:82-96 | the as-written trace of a halfword equals that of its low nibble |
| BitBang.SameTraceIffSameNibble | src/main.c:82-96 | two halfwords give the same trace if and only if their low nibbles agree |
| BitBang.DigitAddressLost | src/main.c:80-98 | the LED words 0x0100 and 0x0000 are sent as identical pulses |
| BitBang.MsbFirstRoundTrip | src/main.c:78-80 | sending the sixteen bits most significant first lets a 16-bit shift register latch the halfword back exactly |
| BitBang.ConcatSlice | src/main.c:102-108 | in a run of 15-bit frames, frame d occupies bits 15d to 15d+14 |
| BitBang.PassBitsSlice | src/main.c:102-108 | one pass sends 15 bits per LED word, and word d occupies bits 15d to 15d+14 carrying that word's trace |
| BitBang.GpioB.WriteBit | src/main.c:60-74 | SDI follows `val != 0`, one pulse is recorded with SCK high, SCK ends low, and nothing else in the register changes |
| BitBang.GpioB.ClockOut | src/main.c:82-96 | the bb_write_bit calls in order: one pulse per argument, with the last argument's level left on SDI |
| BitBang.GpioB.WriteHalfword | src/main.c:80-98 | CS goes low, fifteen pulses with CS low send the as-written trace, and CS ends high with the other bits unchanged |
| BitBang.GpioB.WriteHalfwordMsbFirst | src/main.c:78-98 | the corrected serialiser: the same framing with the sixteen bits most significant first |
| BitBang.GpioB.DriveOnePass | src/main.c:102-108 | one pass of the inner loop sends the eight words in order, each through bb_write_halfword, all with CS low and the other bits kept |
| Oled.WithSelect | src/main.c:224-226 | `data \| 0x200` sets bit 9 and keeps every other bit |
| Oled.DrValue | src/main.c:220-223 | the data register keeps a value below 2^16 unchanged |
| Oled.DataWord | src/main.c:224-226 | the word sent for a character is 0x200 plus its code |
| Oled.DataWordFits | src/main.c:224-226 | a character word fits the 10-bit frame, has bit 9 set and bit 8 clear, and carries the character in its low byte |
| Oled.Words | src/main.c:240-243 | one word per character, in order, each the character's data word |
| Oled.DecodeEncode | src/main.c:224-226 | a command byte or a character sent this way is read back by the display controller as itself |
| Oled.DecodeAllAppend | src/main.c:237-252 | decoding distributes over consecutive transmissions |
| Oled.WordsDecode | src/main.c:237-252 | a string sent with spi_data is read as exactly that string of characters, none taken for a command |
| Oled.InitSequenceIsCommands | src/main.c:227-236 | the start-up sequence `INIT_SEQUENCE` is read as six commands: 0x38, 0x08, 0x01, 0x06, 0x02, 0x0C |
| Oled.CStringLength | src/main.c:240 | the length of a C string is the index of its first NUL, with no NUL before it |
| Oled.CString | src/main.c:240-243 | the text a display routine walks: it holds no NUL, it is a prefix of memory, and a NUL follows it |
| Oled.CStringOfLayout | src/main.c:237-252 | a text without NUL, followed by NUL and any bytes, reads back as that text |
| Oled.LineDecodes | src/main.c:237-252 | a display line is read as its cursor command followed by the text, character for character |
| Oled.LineWords | src/main.c:237-252 | one line on the wire: the cursor command first, then 0x200 plus the code of each character, in order |
| Oled.GuardAsWritten | src/main.c:240 | the guard as written keeps looping whenever the literal's address is 256 or more, and at a NUL it stops only if that address were 0 |
| Oled.SentAsWritten | src/main.c:240-243 | the loop as written never sends more words than the memory it walks |
| Oled.AsWrittenNeverStops | src/main.c:240 | with the literal's address above 255, the guard as written never fails: every byte of memory is sent |
| Oled.AsWrittenOverruns | src/main.c:237-252 | as written, a string is followed on the wire by 0x200 for its terminator and then by the bytes after it |
| Oled.Spi1.Cmd | src/main.c:220-223 | spi_cmd appends the 16-bit register value of its argument |
| Oled.Spi1.SendData | src/main.c:224-226 | spi_data appends its argument with bit 9 set |
| Oled.Spi1.InitOled | src/main.c:227-236 | the six start-up commands are sent in order |
| Oled.Spi1.SendLine | src/main.c:237-252 | the cursor command, then one data word per character of the string up to its terminator |
| Oled.Spi1.Display1 | src/main.c:237-244 | sends 0x02, then the string's characters as data words |
| Oled.Spi1.Display2 | src/main.c:245-252 | sends 0xC0, then the string's characters as data words |
| Buffers.DisplayWords | src/main.c:260-267 | the table `DISPLAY`, written out as in the source, has 34 words: word 0 is command 0x02, word 17 is command 0xC0, and every other word is the data word of the matching character of its line |
| Buffers.DisplayIsTwoLines | src/main.c:255-267 | the buffer is exactly what spi1_display1 of line 1 followed by spi1_display2 of line 2 would send |
| Buffers.DisplayDecodes | src/main.c:255-267 | the controller reads the buffer as: cursor to line 1, "ECE362 is the   ", cursor to line 2, "class for you!  "; words 0 and 17 are the only commands |
| Buffers.MsgAddressesDigits | src/main.c:37 | the initial table `MSG` has eight words, and word d is d << 8: the digit number in bits 8-10, no segment lit |
| Buffers.LoadedMsg | src/main.c:312-319 | msg as drive_bb sends it, with the font table as a parameter: word d keeps the digit number d in its high byte and carries the segments of its character of "ECE 362 " in its low byte |
| Buffers.MsgTraceIgnoresDigit | src/main.c:80-98 | as written, for every segment byte f, word d with f ORed in is sent as the same fifteen bits as f alone |
| Buffers.LoadedMsgCollides | src/main.c:312-319 | as written, whatever the font holds, digits 0 and 2 (both 'E') and digits 3 and 7 (both ' ') are different words that are sent as identical pulses |
| Buffers.LoadedMsgMsbFirstLatched | src/main.c:312-319 | sent most significant bit first, every loaded msg word is latched back as itself, digit number and segments included |

## Left out

- Register bring-up is not modelled: `enable_ports`, `setup_bb`, the timer set-up, `init_spi1`, `init_spi2` and the DMA set-up routines. They only write configuration registers. The 10-bit SPI1 frame size they select is used as a fact: `DataWordFits` proves every word fits in it.
- The circular DMA replay of `display` and `msg` is hardware behaviour and is not modelled. The DMA channel for `display` is given a transfer count of 8, while the buffer has 34 words.
- Delays and busy-waits are not modelled: `nano_wait`, `small_delay`, the TXE wait in `spi_cmd`, and the two pauses in `spi1_init_oled`.
- `drive_bb` loops forever. `BitBang.GpioB.DriveOnePass` models one pass of its inner loop.
- `BitBang.GpioB.ClockOut` stands for the fifteen (or sixteen) `bb_write_bit` calls. It takes their arguments as a list and calls `WriteBit` on each in turn; `AsWrittenArgs` is that list exactly as written.
- `BitBang.GpioB`: the register's bits other than CS, SCK and SDI are carried as a value, and nothing else writes GPIOB meanwhile.
- Calls into code not shown are not modelled: `read_rows`, `update_history`, `drive_column` (recorded as calls only), the key-event and float routines, the game and the `font` table.
- The variant selection in `main` is not modelled. Its message set-up is `Buffers.LoadedMsg`, with the external `font` table as a parameter.
- The clearing of TIM7's interrupt flag is not modelled.

## Findings

| source | as written | input that shows it | evidently intended | confidence | as-written member | corrected member |
|---|---|---|---|---|---|---|
| src/main.c:80-98 | `bb_write_halfword` makes fifteen calls `bb_write_bit(halfword & k)` for k = 0x1 to 0xF, so only the low nibble reaches the wire | the LED words 0x0100 (digit 1) and 0x0000 (digit 0) send identical pulses; after `main` ORs in the font, `msg[0]` and `msg[2]` (both 'E') go out as identical pulses although they address different digits, and so do `msg[3]` and `msg[7]` (both ' '), whatever the font holds | sixteen bits, one per bit of the halfword, most significant first, as the comment at line 78 says ("write 16 bits") | high that the masks are wrong, medium on the bit order; not executed | Buffers.LoadedMsgCollides | BitBang.GpioB.WriteHalfwordMsbFirst |
| src/main.c:237-252 | `while(*string != "\0")` compares the character with the address of the literal `"\0"` | any string, e.g. "Hello again," followed by its NUL: the terminator's code 0 differs from the literal's flash address, so 0x200 is sent and the loop walks on past the string | `while(*string != '\0')`, stopping at the terminator | high; not executed | Oled.AsWrittenOverruns | Oled.Spi1.SendLine |
