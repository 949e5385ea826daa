/**
 Serial bring-up (`init_uart`): hand the two UART pins to their alternate
 function, program the baud divisor, enable the transmitter with a watermark
 count, and arm the transmit-watermark interrupt flag. The settle delay that
 ends the routine touches no register and is not part of the model.
 */
module UartSetup {
  import opened Mmio

  function InitUart(m: Machine): (r: Machine)
    requires IofEn in m.regs && IofSel in m.regs && TxCtrl in m.regs && Ie in m.regs
    ensures r.status == m.status && r.stalled == m.stalled
    ensures IofEn in r.regs && IofSel in r.regs && Div in r.regs && TxCtrl in r.regs && Ie in r.regs
    ensures r.regs == m.regs[IofEn := r.regs[IofEn]][IofSel := r.regs[IofSel]]
                            [Div := UartDivisor][TxCtrl := r.regs[TxCtrl]][Ie := r.regs[Ie]]
    ensures var en0, sel0, tx0, ie0 := m.regs[IofEn], m.regs[IofSel], m.regs[TxCtrl], m.regs[Ie];
      // both pin-controller masks are read before either is written, then the
      // serial controller: divisor, transmit control, interrupt enable
      && r.trace == m.trace + [
           Read(IofEn, en0), Read(IofSel, sel0),
           Write32(IofEn, r.regs[IofEn]), Write32(IofSel, r.regs[IofSel]),
           Write32(Div, UartDivisor),
           Read(TxCtrl, tx0), Write32(TxCtrl, r.regs[TxCtrl]),
           Read(Ie, ie0), Write32(Ie, r.regs[Ie])]
      && SetsBits(en0, r.regs[IofEn], GpioUartMask)
      && ClearsBits(sel0, r.regs[IofSel], GpioUartMask)
      && r.regs[Div] == UartDivisor
      && SetsBits(tx0, r.regs[TxCtrl], TxEn | TxWatermark)
      && SetsBits(ie0, r.regs[Ie], TxWatermarkIe)
  {
    var m1 := PinMux(m);
    assert m1.regs[TxCtrl] == m.regs[TxCtrl] && m1.regs[Ie] == m.regs[Ie];
    var r := SerialRegs(m1);
    assert r.regs[IofEn] == m1.regs[IofEn] && r.regs[IofSel] == m1.regs[IofSel];
    assert r.trace == m.trace + [
      Read(IofEn, m.regs[IofEn]), Read(IofSel, m.regs[IofSel]),
      Write32(IofEn, m1.regs[IofEn]), Write32(IofSel, m1.regs[IofSel]),
      Write32(Div, UartDivisor),
      Read(TxCtrl, m.regs[TxCtrl]), Write32(TxCtrl, r.regs[TxCtrl]),
      Read(Ie, m.regs[Ie]), Write32(Ie, r.regs[Ie])];
    r
  }

  /**
   Lines that hand the pins to the serial port: read both pin-controller
   masks, then write IOF_EN with the two pins set and IOF_SEL with them clear.
   */
  function PinMux(m: Machine): (r: Machine)
    requires IofEn in m.regs && IofSel in m.regs
    ensures r.status == m.status && r.stalled == m.stalled
    ensures IofEn in r.regs && IofSel in r.regs
    ensures r.regs == m.regs[IofEn := r.regs[IofEn]][IofSel := r.regs[IofSel]]
    ensures var en0, sel0 := m.regs[IofEn], m.regs[IofSel];
      && r.trace == m.trace + [
           Read(IofEn, en0), Read(IofSel, sel0),
           Write32(IofEn, r.regs[IofEn]), Write32(IofSel, r.regs[IofSel])]
      && SetsBits(en0, r.regs[IofEn], GpioUartMask)
      && ClearsBits(sel0, r.regs[IofSel], GpioUartMask)
  {
    var (iofEn, m1) := Read32(m, IofEn);
    var (iofSel, m2) := Read32(m1, IofSel);
    var m3 := WriteSet(m2, IofEn, iofEn, GpioUartMask);
    var r := WriteCleared(m3, IofSel, iofSel, GpioUartMask);
    assert r.trace == m.trace + [
      Read(IofEn, iofEn), Read(IofSel, iofSel), Write32(IofEn, r.regs[IofEn]), Write32(IofSel, r.regs[IofSel])];
    r
  }

  /** `v |= mask; write_32_offset(.., v)` on a word read earlier. */
  function WriteSet(m: Machine, a: Addr, v: bv32, mask: bv32): (r: Machine)
    ensures r.status == m.status && r.stalled == m.stalled
    ensures a in r.regs && r.regs == m.regs[a := r.regs[a]]
    ensures r.trace == m.trace + [Write32(a, r.regs[a])]
    ensures SetsBits(v, r.regs[a], mask)
  {
    SetMask(v, mask);
    Write32At(m, a, v | mask)
  }

  /** `v &= ~mask; write_32_offset(.., v)` on a word read earlier. */
  function WriteCleared(m: Machine, a: Addr, v: bv32, mask: bv32): (r: Machine)
    ensures r.status == m.status && r.stalled == m.stalled
    ensures a in r.regs && r.regs == m.regs[a := r.regs[a]]
    ensures r.trace == m.trace + [Write32(a, r.regs[a])]
    ensures ClearsBits(v, r.regs[a], mask)
  {
    ClearMask(v, mask);
    Write32At(m, a, v & !mask)
  }

  /**
   Lines that program the serial controller: the divisor, then a
   read-modify-write of TXCTRL, then one of IE.
   */
  function SerialRegs(m: Machine): (r: Machine)
    requires TxCtrl in m.regs && Ie in m.regs
    ensures r.status == m.status && r.stalled == m.stalled
    ensures Div in r.regs && TxCtrl in r.regs && Ie in r.regs
    ensures r.regs == m.regs[Div := UartDivisor][TxCtrl := r.regs[TxCtrl]][Ie := r.regs[Ie]]
    ensures var tx0, ie0 := m.regs[TxCtrl], m.regs[Ie];
      && r.trace == m.trace + [
           Write32(Div, UartDivisor),
           Read(TxCtrl, tx0), Write32(TxCtrl, r.regs[TxCtrl]),
           Read(Ie, ie0), Write32(Ie, r.regs[Ie])]
      && r.regs[Div] == UartDivisor
      && SetsBits(tx0, r.regs[TxCtrl], TxEn | TxWatermark)
      && SetsBits(ie0, r.regs[Ie], TxWatermarkIe)
  {
    var m1 := Write32At(m, Div, UartDivisor);
    assert m1.regs[TxCtrl] == m.regs[TxCtrl] && m1.regs[Ie] == m.regs[Ie];
    var (txctrl, m3) := SetBitsRmw(m1, TxCtrl, TxEn | TxWatermark);
    var (ie, r) := SetBitsRmw(m3, Ie, TxWatermarkIe);
    assert r.trace == m.trace + [
      Write32(Div, UartDivisor), Read(TxCtrl, m.regs[TxCtrl]), Write32(TxCtrl, txctrl),
      Read(Ie, m.regs[Ie]), Write32(Ie, ie)];
    r
  }
}
