# HiFive1 bare-metal bring-up, modelled in Dafny

A model of `main.c`, the bring-up routine of a SiFive FE310 (HiFive1) board.
It configures the clock controller (PRCI), then routes the UART pins through the
GPIO block, sets the baud divisor and enables the transmitter. After that it
prints a greeting and every byte from 0x20 to 0x7F on the serial line,
inserting a line break after every multiple of 16.

The hardware is a value, `Mmio.Machine`:

- a register file keyed by absolute address (base plus offset, as the
  `_offset` access helpers compute it);
- the words the TXFIFO status read returns, in order, taken as given because
  the hardware decides them;
- an append-only trace of every bus access, reads included;
- a `stalled` flag. The flag is set when the status words run out while the
  FIFO still reads full, which means the processor would spin forever.

Each register access appends one event. So the order of accesses, the
backpressure rule ("no byte is written to TXFIFO unless the read just before it
showed room") and the transmitted byte stream are all facts about the trace.

Bytes are `Mmio.Byte`, the integers 0..255. The `uint8_t` loop counter's `i++`
is written out as an add modulo 256 (`Payload.Inc8`), and the proofs show it
never wraps. 32-bit registers are `bv32`, so the bit masks are exact.

Modules:

- `Mmio`: constants, the bus and the trace predicates;
- `Clock`: `init_osc`;
- `UartSetup`: `init_uart`;
- `CrLf`: the byte translation of `uart_print`;
- `Uart`: `uart_write` and `uart_print`;
- `Payload`: the table loop of `main`;
- `Board`: `main` as a whole.

Four facts about the output stream:

- It is the greeting (42 bytes once translated) followed by the table
  (108 bytes), 150 bytes in all.
- The table holds 96 values and six `LF CR` pairs. The pairs follow 0x20,
  0x30, 0x40, 0x50, 0x60 and 0x70.
- The last value sent is 0x7F (DEL), a control character, even though the
  loop is described as printing printable ASCII.
- The translated greeting is `LF CR`, not `CR LF`: `uart_print` sends the
  carriage return after the line feed, and so does the table loop.

## Model

| member | source | states |
|---|---|---|
| Mmio.RegistersDistinct | main.c:4-26 | The eight registers the code uses are distinct addresses. The clock registers, the serial setup registers and TXFIFO are disjoint groups. |
| Mmio.SetMask | main.c:70 | `v \|= mask` sets every bit of the mask and leaves every other bit as it was. |
| Mmio.ClearMask | main.c:82 | `v &= ~mask` clears every bit of the mask and leaves every other bit as it was. |
| Mmio.SetBitsRmw | main.c:69-71 | A read-modify-write reads the register, then writes it back with the mask's bits set and the rest unchanged. Only that register changes, and exactly one read and one write are appended to the trace. |
| Mmio.Read32 | main.c:45-51 | `read_32_offset`: returns the word the register holds and appends one Read event. Characterized, in use, by `Mmio.SetBitsRmw`, `UartSetup.PinMux` and the traces of `Clock.InitOsc` and `UartSetup.InitUart`. |
| Mmio.Write32At | main.c:33-43 | `write_32_offset`: the register holds the new word and one Write32 event is appended. Characterized by `Mmio.SetBitsRmw`, `UartSetup.WriteSet` and `UartSetup.WriteCleared`. |
| Mmio.Push | main.c:29-39 | `write_8_offset` to TXFIFO: appends one byte write and changes no register. Characterized by `Uart.PushOne` and `Uart.UartWriteSpins`. |
| Mmio.TxAppend | main.c:56 | The byte stream of a concatenated trace is the concatenation of the two streams. |
| Clock.InitOsc | main.c:67-84 | Six accesses in source order. HFROSCEN is set first. REFSEL and BYPASS are set together in one write, then SEL in a second write. Finally HFROSCEN is cleared in the copy kept since the first read. PLLCFG ends with all three bits set, HFROSCCFG ends with HFROSCEN clear, and every other bit and register is unchanged. |
| Clock.SelectBits | main.c:74-79 | Setting PLLSEL on top of the bypass word sets all three PLL bits of the word first read, and nothing else. |
| Clock.DisableBits | main.c:82-83 | Clearing HFROSCEN in the copy with it set gives back the first-read word with that bit clear. |
| UartSetup.InitUart | main.c:86-104 | Nine accesses in source order. Both pin masks are read before either is written. IOF_EN gets the UART pins set and IOF_SEL gets them cleared. DIV is written with 138. TXCTRL gets TXEN and watermark bit 16. IE gets bit 0. Nothing else changes. |
| UartSetup.PinMux | main.c:87-94 | Reads IOF_EN and IOF_SEL, then writes IOF_EN with the UART pins set and IOF_SEL with them clear. The other bits are as read. |
| UartSetup.SerialRegs | main.c:96-104 | Writes the divisor, then does read-modify-writes of TXCTRL (TXEN and bit 16) and of IE (bit 0). |
| UartSetup.WriteSet | main.c:90 | Writing `v \| mask` stores a word equal to `v` except that the mask's bits are set. |
| UartSetup.WriteCleared | main.c:91 | Writing `v & ~mask` stores a word equal to `v` except that the mask's bits are clear. |
| Uart.Poll | main.c:54 | The spin only reads TXFIFO. It ends exactly when some status word shows room, after a run of reads that showed the FIFO full, and it uses up one such word. Otherwise the machine stalls. Which words it reads is stated by `Uart.PollStatus`. |
| Uart.SpinLength | main.c:54 | The number of words the spin reads: all words before it are full, and it is either the first word that shows room or, when none does, every word. |
| Uart.PollStatus | main.c:54 | The spin reads TXFIFO once per turn and gets the hardware's words in order. It consumes exactly the first `SpinLength` words and records one read per word with that word's value. It stalls exactly when every word shows the FIFO full. |
| Uart.PollReads | main.c:54 | Everything the spin appends is a read. When it ends, its last read showed room. |
| Uart.UartWrite | main.c:53-57 | `uart_write`: the spin, then the byte write unless the machine stalled. Characterized by `Uart.UartWriteSpec`, `Uart.UartWriteSpins`, `Uart.UartWriteFrame` and `Uart.UartWriteBytes`. |
| Uart.UartWriteSpec | main.c:53-57 | `uart_write` changes no register and touches only TXFIFO. It sends `data` exactly when a reading shows room, consuming one. It keeps the backpressure rule. |
| Uart.UartWriteFrame | main.c:53-57 | `uart_write` only extends the trace, only with TXFIFO accesses, and changes no register. It stalls exactly when no reading shows room. |
| Uart.UartWriteBytes | main.c:53-57 | The stream gains exactly `data` unless the machine stalls. If every earlier byte write followed a read showing room, so does the new one. |
| Uart.UartWriteSpins | main.c:54-56 | The events of one `uart_write` are full-FIFO reads, then one read showing room, then the byte write of `data`. If no room ever shows, the events are full-FIFO reads only. Exactly: the reads are of the first `SpinLength` status words, in order, and those words are used up. |
| Uart.Emit | main.c:116-121 | `uart_write` of each byte in turn. Characterized by `Uart.EmitFrame`, `Uart.EmitTx` and `Uart.EmitAppend`. |
| Uart.EmitFrame | main.c:53-57 | Sending a byte sequence changes no register, touches only TXFIFO and keeps the backpressure rule. On a stalled machine it does nothing. |
| Uart.EmitTx | main.c:53-57 | Sending `bs` puts on the wire as many leading bytes of `bs` as there are readings that show room. It stalls exactly when there are fewer such readings than bytes. |
| Uart.EmitAppend | main.c:116-121 | Sending `a` and then `b` is the same as sending `a + b`. |
| Uart.PrintStep | main.c:60-63 | One turn of the `uart_print` loop sends the current byte, and also a CR when that byte is a LF. |
| Uart.UartPrint | main.c:59-65 | `uart_print` sends exactly the LF-CR translation of the bytes before the first NUL. |
| CrLf.Translate | main.c:59-65 | The bytes `uart_print` hands to `uart_write`: the LF-CR translation of the text before the NUL. Characterized by `CrLf.CStr`, `CrLf.CrlfRoundTrip`, `CrLf.CrlfLength`, `CrLf.CrlfPlacement` and `CrLf.TranslateNoNul`. |
| CrLf.CStr | main.c:60 | The text of a C string is the prefix before its first NUL. It contains no NUL. |
| CrLf.CrlfLength | main.c:61-62 | Each LF adds exactly one byte to the output. |
| CrLf.CrlfPlacement | main.c:61-62 | Input byte `i` is sent at position `i` plus the number of LFs before it, and each LF is followed by a CR. |
| CrLf.CrlfRoundTrip | main.c:61-62 | Removing the CR after each LF gives back the input, so nothing else is inserted or changed. |
| CrLf.TranslateNoNul | main.c:60 | The terminating NUL is never sent. |
| CrLf.CrlfNoLf | main.c:61-62 | A byte sequence without LF is sent unchanged. |
| CrLf.TranslateExample | main.c:59-65 | "a\n b" followed by NUL goes out as a, LF, CR, space, b. |
| Payload.TableFrom | main.c:118-121 | What the loop sends from counter `i` to the end. Characterized by `Payload.TableFromLength`, `Payload.TableFromAt` and `Payload.TableFromBreaksDropped`. |
| Payload.Table | main.c:118-121 | The whole payload. Characterized in closed form by `Payload.TableLayout`. |
| Payload.Inc8 | main.c:118 | The `uint8_t` increment adds one below 0xFF and wraps 0xFF to 0. |
| Payload.CounterFromValues | main.c:118 | From counter `i`, the loop counter takes the values `i`, `i+1`, … 0x7F, each once and in order. |
| Payload.OffsetStep | main.c:119-120 | A loop turn sends one byte, plus two more when the value is a multiple of 16. |
| Payload.TableFromLength | main.c:118-121 | From counter `i`, the loop sends `Offset(i, 0x80)` bytes. |
| Payload.TableFromAt | main.c:118-121 | From counter `i`, value `v` is sent at `Offset(i, v)`, followed by LF and CR when `v` is a multiple of 16. |
| Payload.TableFromBreaksDropped | main.c:118-121 | Dropping the line breaks from what the loop sends leaves exactly the counter values. |
| Payload.CellBreaksDropped | main.c:119-120 | What one turn sends contains exactly one byte of 0x20 or above: the counter value. |
| Payload.TableLength | main.c:118-121 | The table is 108 bytes. |
| Payload.TableSlots | main.c:118-121 | Each value v from 0x20 to 0x7F is at `Slot(v)`, with LF and CR right after it when v % 0x10 == 0. |
| Payload.TableValues | main.c:118 | The values of the table, in order, are 0x20 … 0x7F. |
| Payload.TableLayout | main.c:118-121 | The whole closed form of the payload: its length, where each value and line break is, and the values in order. |
| Payload.LoopTurn | main.c:119-120 | One turn with counter `i` sends `Cell(i)`, which leaves the turns from `i+1` on. |
| Payload.PrintTable | main.c:118-121 | The loop ends without the 8-bit counter wrapping, and what it sends is the table. |
| Board.Expected | main.c:115-121 | Everything `main` sends when the FIFO never holds it back. Characterized by `Board.ExpectedLayout`. |
| Board.GreetingLines | main.c:115 | The greeting is two printable lines, each ended by a LF, then a NUL. |
| Board.ExpectedLayout | main.c:115-121 | On the wire the greeting is its two lines, each ended by LF CR (42 bytes, no NUL). The table follows, for 150 bytes in all. |
| Board.GreetingText | main.c:60 | A NUL-terminated string with no earlier NUL is all text. |
| Board.OscEvents | main.c:67-84 | From power-on, `init_osc` makes six accesses, all to clock registers, with no byte write. |
| Board.UartEvents | main.c:86-104 | `init_uart` adds nine accesses, all to serial setup registers, with no byte write. |
| Board.BringUp | main.c:112-113 | `init_osc(); init_uart();` gives 15 accesses, six to the clock block and then nine to the serial setup block. It leaves the registers `Configured`. |
| Board.BringUpRegs | main.c:112-113 | After both init routines, only the seven setup registers differ from power-on, each by exactly the bits the routines set or clear. |
| Board.SetupSilent | main.c:112-113 | Bring-up sends nothing on the wire. |
| Board.RunOrder | main.c:111-121 | Every clock access comes before every serial setup access, and every setup access comes before every TXFIFO access. |
| Board.RunEffect | main.c:116-121 | Printing after bring-up sends the longest prefix of the expected stream that the FIFO makes room for. It stalls exactly when the stream is longer than the readings that show room. It keeps the backpressure rule and the block order, and changes no register. |
| Board.Run | main.c:111-123 | `main` from power-on sends a prefix of the 150-byte expected stream, and the whole stream when the FIFO makes room often enough. It never writes a byte without a read showing room first. It touches the clock, setup and data registers in that order, and leaves the registers as the init routines set them. |

## Left out

- The `volatile` and pointer semantics of the access helpers (main.c:29-51) are abstracted: each access is one map read or update plus one trace event (`Mmio.Read32`, `Mmio.Write32At`, `Mmio.Push`). Memory ordering and compiler elision are not modelled.
- The settle delay at the end of `init_uart` (main.c:106-108) touches no register. It is not modelled.
- The final `while (1);` (main.c:123) is the idle end of the run. The model stops there.
- Poll: whether the FIFO ever shows room is up to the hardware. The status words are an input, and "never" is the `stalled` flag. The model cannot state how long each spin takes in real time.
- A byte write to TXFIFO is a FIFO push, not a store, so it does not change the register file. Bits the hardware changes by itself, such as the PLL lock flag or FIFO state, are not modelled.
- The RXFIFO, RXCTRL and IP offsets (main.c:21-25) are defined but never used, so they are left out.
- The electrical meaning of the settings is left out: PLL frequencies, the baud rate that divisor 138 gives, and interrupt delivery.
- The greeting literal (main.c:115) appears as its two lines, `Line1` and `Line2`, each ended by a newline, with the NUL the compiler appends. Its characters are 7-bit, so the signedness of `char` plays no part.
