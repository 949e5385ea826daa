/**
 The register map of the board and the bus it is reached through.

 Memory-mapped I/O is modelled as a value: a register file from absolute
 addresses to 32-bit words, the remaining readings of the transmit-FIFO status
 word (the hardware is an oracle here), and an append-only trace of every bus
 transaction, reads included. Every register access of the bring-up code
 appends exactly one event to the trace.
 */
module Mmio {

  type Addr = int

  /** `addr + offset`, the address the `_offset` access helpers compute. */
  function At(base: Addr, offset: int): Addr
  {
    base + offset
  }

  // Clock controller (PRCI) block
  const PrciMmio: Addr := 0x1000_8000
  const HfroscCfgOffset: int := 0x00
  const PllCfgOffset: int := 0x08
  const HfroscEn: bv32 := 1 << 30
  const PllRefSel: bv32 := 1 << 17
  const PllBypass: bv32 := 1 << 18
  const PllSel: bv32 := 1 << 16

  // Pin controller (GPIO) block
  const GpioMmio: Addr := 0x1001_2000
  const IofEnOffset: int := 0x38
  const IofSelOffset: int := 0x3C
  /** The two pins that carry the serial port's alternate function. */
  const GpioUartMask: bv32 := 0x0003_0000

  // Serial controller (UART) block
  const UartMmio: Addr := 0x1001_3000
  const TxFifoOffset: int := 0x00
  const TxCtrlOffset: int := 0x08
  const IeOffset: int := 0x10
  const DivOffset: int := 0x18
  const TxEn: bv32 := 0x1
  /** Bit 16 of TXCTRL, the transmit watermark count field. */
  const TxWatermark: bv32 := 1 << 16
  /** Bit 0 of IE, the transmit watermark interrupt enable. */
  const TxWatermarkIe: bv32 := 1
  /** The baud-rate divisor programmed into DIV. */
  const UartDivisor: bv32 := 138
  /** Bit 31 of a TXFIFO read: the transmit FIFO is full. */
  const TxFull: bv32 := 0x8000_0000

  const HfroscCfg: Addr := At(PrciMmio, HfroscCfgOffset)
  const PllCfg: Addr := At(PrciMmio, PllCfgOffset)
  const IofEn: Addr := At(GpioMmio, IofEnOffset)
  const IofSel: Addr := At(GpioMmio, IofSelOffset)
  const TxFifo: Addr := At(UartMmio, TxFifoOffset)
  const TxCtrl: Addr := At(UartMmio, TxCtrlOffset)
  const Ie: Addr := At(UartMmio, IeOffset)
  const Div: Addr := At(UartMmio, DivOffset)

  /** The registers the clock bring-up touches. */
  const ClockRegs: set<Addr> := {HfroscCfg, PllCfg}
  /** The registers the serial bring-up touches. */
  const UartSetupRegs: set<Addr> := {IofEn, IofSel, Div, TxCtrl, Ie}

  /** An 8-bit byte, as `uint8_t` holds it; wrap-around is written out where it can happen. */
  newtype Byte = x: int | 0 <= x < 0x100

  // Characters with a role in the transmit path
  const Nul: Byte := 0x00
  const Lf: Byte := 0x0A
  const Cr: Byte := 0x0D

  /** One bus transaction, as it appears on the bus. */
  datatype Event =
    | Read(addr: Addr, value: bv32)
    | Write32(addr: Addr, value: bv32)
    | Write8(addr: Addr, byte: Byte)

  /**
   The observable hardware state.
   - regs: the word held by each register that behaves as storage;
   - status: the words the TXFIFO register will return to the next reads;
   - trace: every bus transaction so far, oldest first;
   - stalled: the processor is spinning forever on a full transmit FIFO.
   */
  datatype Machine = Machine(regs: map<Addr, bv32>, status: seq<bv32>, trace: seq<Event>, stalled: bool)

  /** `read_32_offset` on a storage register: the held word, and a Read event. */
  function Read32(m: Machine, a: Addr): (bv32, Machine)
    requires a in m.regs
  {
    (m.regs[a], m.(trace := m.trace + [Read(a, m.regs[a])]))
  }

  /** `write_32_offset`: the register now holds `v`, and a Write32 event. */
  function Write32At(m: Machine, a: Addr, v: bv32): Machine
  {
    m.(regs := m.regs[a := v], trace := m.trace + [Write32(a, v)])
  }

  /** `write_8_offset` to TXFIFO: a byte pushed into the FIFO; no register changes. */
  function Push(m: Machine, b: Byte): Machine
  {
    m.(trace := m.trace + [Write8(TxFifo, b)])
  }

  /**
   The read-modify-write idiom `v = read_32_offset(..); v |= mask;
   write_32_offset(.., v)`: returns the local `v` after the update, which is
   also the word the register now holds.
   */
  function SetBitsRmw(m: Machine, a: Addr, mask: bv32): (r: (bv32, Machine))
    requires a in m.regs
    ensures r.1.status == m.status && r.1.stalled == m.stalled
    ensures r.1.regs == m.regs[a := r.0]
    ensures r.1.trace == m.trace + [Read(a, m.regs[a]), Write32(a, r.0)]
    ensures SetsBits(m.regs[a], r.0, mask)
  {
    var (v, m1) := Read32(m, a);
    var v1 := v | mask;
    SetMask(v, mask);
    (v1, Write32At(m1, a, v1))
  }

  /** `after` has every bit of `mask` set and agrees with `before` elsewhere. */
  predicate SetsBits(before: bv32, after: bv32, mask: bv32)
  {
    after & mask == mask && after & !mask == before & !mask
  }

  /** `after` has every bit of `mask` clear and agrees with `before` elsewhere. */
  predicate ClearsBits(before: bv32, after: bv32, mask: bv32)
  {
    after & mask == 0 && after & !mask == before & !mask
  }

  /** `v |= mask` sets exactly the bits of `mask`. */
  lemma SetMask(v: bv32, mask: bv32)
    ensures SetsBits(v, v | mask, mask)
  {
    assert (v | mask) & mask == mask;
    assert (v | mask) & !mask == v & !mask;
  }

  /** `v &= ~mask` clears exactly the bits of `mask`. */
  lemma ClearMask(v: bv32, mask: bv32)
    ensures ClearsBits(v, v & !mask, mask)
  {
    assert (v & !mask) & mask == 0;
    assert (v & !mask) & !mask == v & !mask;
  }

  /** The registers of the three blocks are distinct words of memory. */
  lemma RegistersDistinct()
    ensures |{HfroscCfg, PllCfg, IofEn, IofSel, TxFifo, TxCtrl, Ie, Div}| == 8
    ensures ClockRegs !! UartSetupRegs && TxFifo !in ClockRegs + UartSetupRegs
  {
  }

  /** A TXFIFO status word with the full flag set. */
  predicate Full(v: bv32)
  {
    v & TxFull != 0
  }

  /** The bytes pushed into the transmit FIFO, in order: the serial output stream. */
  function Tx(t: seq<Event>): seq<Byte>
  {
    if t == [] then []
    else Tx(t[..|t| - 1]) + TxOf(t[|t| - 1])
  }

  function TxOf(e: Event): seq<Byte>
  {
    if e.Write8? && e.addr == TxFifo then [e.byte] else []
  }

  lemma {:induction false} TxAppend(a: seq<Event>, b: seq<Event>)
    ensures Tx(a + b) == Tx(a) + Tx(b)
    decreases |b|
  {
    if b == [] {
      assert a + b == a;
    } else {
      var b' := b[..|b| - 1];
      assert (a + b)[..|a + b| - 1] == a + b';
      TxAppend(a, b');
    }
  }

  /** A trace with no byte write transmits nothing. */
  lemma {:induction false} TxNoBytes(t: seq<Event>)
    requires forall i | 0 <= i < |t| :: !t[i].Write8?
    ensures Tx(t) == []
    decreases |t|
  {
    if t != [] {
      TxNoBytes(t[..|t| - 1]);
    }
  }

  /**
   The backpressure rule: every byte written to the transmit FIFO is written
   immediately after a TXFIFO read that showed the FIFO not full.
   */
  predicate TxGuarded(t: seq<Event>)
  {
    forall i | 0 <= i < |t| :: GuardedAt(t, i)
  }

  /** Event `i` of `t` is not a byte write, or follows a read that showed room. */
  predicate GuardedAt(t: seq<Event>, i: nat)
    requires i < |t|
  {
    t[i].Write8? ==> 0 < i && t[i - 1].Read? && t[i - 1].addr == TxFifo && !Full(t[i - 1].value)
  }
}
