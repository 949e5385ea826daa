/**
 The bring-up routine `main`: clocks, then the serial port, then a greeting
 and the printable-ASCII table on the serial line.

 Starting from power-on (an empty bus trace and whatever the storage
 registers hold), the whole run is characterised by three facts: what is on
 the wire, in which order the three register blocks are touched, and what the
 registers hold afterwards.
 */
module Board {
  import opened Mmio
  import opened Clock
  import opened UartSetup
  import opened CrLf
  import opened Uart
  import opened Payload

  /** The bytes a string literal of 7-bit characters is laid down as. */
  function Ascii(s: string): seq<Byte>
  {
    seq(|s|, i requires 0 <= i < |s| => ((s[i] as int) % 256) as Byte)
  }

  const Line1: string := "Hello, UART!"
  const Line2: string := "Have some printable ASCII:"

  /**
   The greeting string of `main`, its two lines each ended by a newline, with
   the terminating NUL the compiler adds.
   */
  function Greeting(): seq<Byte>
  {
    Ascii(Line1 + "\n" + Line2 + "\n") + [Nul]
  }

  /** Everything `main` sends when the transmit FIFO never holds it back. */
  function Expected(): seq<Byte>
  {
    Translate(Greeting()) + Table()
  }

  /** Every character is a printable 7-bit one. */
  predicate PrintableText(s: string)
  {
    forall c | c in s :: ' ' <= c <= '~'
  }

  lemma AsciiAppend(a: string, b: string)
    ensures Ascii(a + b) == Ascii(a) + Ascii(b)
  {
  }

  lemma AsciiPrintable(s: string)
    requires PrintableText(s)
    ensures |Ascii(s)| == |s|
    ensures forall b | b in Ascii(s) :: 0x20 <= b <= 0x7E
  {
    forall b | b in Ascii(s)
      ensures 0x20 <= b <= 0x7E
    {
      var i :| 0 <= i < |s| && Ascii(s)[i] == b;
      assert s[i] in s;
    }
  }

  /** The greeting is two printable lines, each ended by a line feed, then NUL. */
  lemma GreetingLines()
    ensures Greeting() == Ascii(Line1) + [Lf] + Ascii(Line2) + [Lf] + [Nul]
    ensures |Line1| == 12 && |Line2| == 26
    ensures PrintableText(Line1) && PrintableText(Line2)
  {
    AsciiAppend(Line1 + "\n" + Line2, "\n");
    AsciiAppend(Line1 + "\n", Line2);
    AsciiAppend(Line1, "\n");
    assert Ascii("\n") == [Lf];
    LinesPrintable();
  }

  lemma LinesPrintable()
    ensures |Line1| == 12 && |Line2| == 26
    ensures PrintableText(Line1) && PrintableText(Line2)
  {
  }

  /**
   On the wire the greeting is its two lines, each ended by LF then CR, and
   the table follows it: 42 bytes of greeting and 150 bytes in all.
   */
  lemma ExpectedLayout()
    ensures Translate(Greeting()) == Ascii(Line1) + [Lf, Cr] + Ascii(Line2) + [Lf, Cr]
    ensures |Translate(Greeting())| == 42
    ensures Expected()[42..] == Table()
    ensures |Expected()| == 150
    ensures Nul !in Translate(Greeting())
  {
    GreetingLines();
    var a, b := Ascii(Line1), Ascii(Line2);
    AsciiPrintable(Line1);
    AsciiPrintable(Line2);
    var body := a + [Lf] + b + [Lf];
    assert Nul !in body;
    GreetingText(body);
    CrlfAppend(a + [Lf] + b, [Lf]);
    CrlfAppend(a + [Lf], b);
    CrlfAppend(a, [Lf]);
    CrlfNoLf(a);
    CrlfNoLf(b);
    assert Crlf([Lf]) == [Lf, Cr];
    TableLength();
    TranslateNoNul(Greeting());
  }

  /** A NUL-terminated string with no other NUL is all text up to the end. */
  lemma GreetingText(body: seq<Byte>)
    requires Nul !in body
    ensures CStr(body + [Nul]) == body
  {
    var s := body + [Nul];
    var r := CStr(s);
    assert s[|r|] == Nul;
    assert forall i | 0 <= i < |body| :: s[i] == body[i];
    assert r == s[..|body|];
  }

  /** Before `main` runs: nothing on the bus yet, and the registers it reads hold a value. */
  predicate PowerOn(m: Machine)
  {
    && m.trace == [] && !m.stalled
    && HfroscCfg in m.regs && PllCfg in m.regs
    && IofEn in m.regs && IofSel in m.regs && TxCtrl in m.regs && Ie in m.regs
  }

  /** The register block an address belongs to, in bring-up order: clocks, serial setup, data. */
  function Stage(a: Addr): nat
  {
    if a in ClockRegs then 0 else if a in UartSetupRegs then 1 else 2
  }

  /** No access to a block happens after an access to a later block. */
  predicate InOrder(t: seq<Event>)
  {
    forall i, j | 0 <= i < j < |t| :: Stage(t[i].addr) <= Stage(t[j].addr)
  }

  /** Every access goes to a register `main` names. */
  predicate KnownRegs(t: seq<Event>)
  {
    forall i | 0 <= i < |t| :: t[i].addr in ClockRegs + UartSetupRegs + {TxFifo}
  }

  /**
   The first fifteen events of a run are the six accesses of `init_osc` and
   the nine of `init_uart`; none of them is a byte write.
   */
  predicate SetupEvents(t: seq<Event>)
    requires |t| >= 15
  {
    forall i | 0 <= i < 15 ::
      && !t[i].Write8?
      && t[i].addr in ClockRegs + UartSetupRegs
      && Stage(t[i].addr) == (if i < 6 then 0 else 1)
  }

  /**
   What `init_osc` followed by `init_uart` leaves behind, with respect to the
   machine they started on.
   */
  predicate SetUp(m: Machine, b: Machine)
    requires PowerOn(m)
  {
    && b.status == m.status && !b.stalled
    && |b.trace| == 15 && SetupEvents(b.trace)
    && Configured(m.regs, b.regs)
  }

  /**
   The register file `r` after bring-up, against the power-on file `regs`:
   only the seven registers the two init routines write have changed, each
   with exactly the bits the routines set or clear, every other bit as it was.
   */
  predicate Configured(regs: map<Addr, bv32>, r: map<Addr, bv32>)
    requires HfroscCfg in regs && PllCfg in regs
    requires IofEn in regs && IofSel in regs && TxCtrl in regs && Ie in regs
  {
    OnlySetupRegs(regs, r) && SetupBits(regs, r)
  }

  /** `r` is `regs` with the seven bring-up registers overwritten, DIV with the divisor. */
  predicate OnlySetupRegs(regs: map<Addr, bv32>, r: map<Addr, bv32>)
  {
    && HfroscCfg in r && PllCfg in r
    && IofEn in r && IofSel in r && Div in r && TxCtrl in r && Ie in r
    && r == regs[HfroscCfg := r[HfroscCfg]][PllCfg := r[PllCfg]]
                [IofEn := r[IofEn]][IofSel := r[IofSel]]
                [Div := UartDivisor][TxCtrl := r[TxCtrl]][Ie := r[Ie]]
  }

  /** The bits each bring-up register ends with, against its power-on word. */
  predicate SetupBits(regs: map<Addr, bv32>, r: map<Addr, bv32>)
    requires HfroscCfg in regs && PllCfg in regs
    requires IofEn in regs && IofSel in regs && TxCtrl in regs && Ie in regs
    requires HfroscCfg in r && PllCfg in r && IofEn in r && IofSel in r && TxCtrl in r && Ie in r
  {
    && ClearsBits(regs[HfroscCfg], r[HfroscCfg], HfroscEn)
    && SetsBits(regs[PllCfg], r[PllCfg], PllRefSel | PllBypass | PllSel)
    && SetsBits(regs[IofEn], r[IofEn], GpioUartMask)
    && ClearsBits(regs[IofSel], r[IofSel], GpioUartMask)
    && SetsBits(regs[TxCtrl], r[TxCtrl], TxEn | TxWatermark)
    && SetsBits(regs[Ie], r[Ie], TxWatermarkIe)
  }

  /** The clock accesses, in the trace of the clock bring-up from power-on. */
  lemma OscEvents(m: Machine)
    requires PowerOn(m)
    ensures var t := InitOsc(m).trace;
      |t| == 6 && forall i | 0 <= i < 6 :: !t[i].Write8? && t[i].addr in ClockRegs
  {
    var t := InitOsc(m).trace;
    assert t == t[|m.trace|..];
    forall i | 0 <= i < 6
      ensures !t[i].Write8? && t[i].addr in ClockRegs
    {
      assert i == 0 || i == 1 || i == 2 || i == 3 || i == 4 || i == 5;
    }
  }

  /** The serial-setup accesses, appended to whatever trace came before. */
  lemma UartEvents(m: Machine)
    requires IofEn in m.regs && IofSel in m.regs && TxCtrl in m.regs && Ie in m.regs
    ensures var t := InitUart(m).trace;
      && |t| == |m.trace| + 9 && t[..|m.trace|] == m.trace
      && forall i | |m.trace| <= i < |t| :: !t[i].Write8? && t[i].addr in UartSetupRegs
  {
    var t := InitUart(m).trace;
    var e := t[|m.trace|..];
    forall i | |m.trace| <= i < |t|
      ensures !t[i].Write8? && t[i].addr in UartSetupRegs
    {
      var k := i - |m.trace|;
      assert t[i] == e[k];
      assert k == 0 || k == 1 || k == 2 || k == 3 || k == 4 || k == 5 || k == 6 || k == 7 || k == 8;
    }
  }

  /** `init_osc(); init_uart();` from power-on establishes `SetUp`. */
  lemma BringUp(m: Machine)
    requires PowerOn(m)
    ensures SetUp(m, InitUart(InitOsc(m)))
  {
    var m1 := InitOsc(m);
    OscEvents(m);
    UartEvents(m1);
    SetupTrace(m1.trace, InitUart(m1).trace);
    BringUpRegs(m);
  }

  /** Six clock accesses, then nine serial-setup accesses, none of them a byte write. */
  lemma SetupTrace(t6: seq<Event>, t: seq<Event>)
    requires |t6| == 6 && forall i | 0 <= i < 6 :: !t6[i].Write8? && t6[i].addr in ClockRegs
    requires |t| == 15 && t[..6] == t6
    requires forall i | 6 <= i < 15 :: !t[i].Write8? && t[i].addr in UartSetupRegs
    ensures SetupEvents(t)
  {
    forall i | 0 <= i < 6
      ensures !t[i].Write8? && t[i].addr in ClockRegs
    {
      assert t[i] == t6[i];
    }
  }

  /** The register half of `BringUp`. */
  lemma BringUpRegs(m: Machine)
    requires PowerOn(m)
    ensures Configured(m.regs, InitUart(InitOsc(m)).regs)
  {
    var m1 := InitOsc(m);
    var b := InitUart(m1);
    BringUpFrame(m.regs, m1.regs, b.regs);
    BringUpBits(m.regs, m1.regs, b.regs);
  }

  lemma BringUpFrame(regs: map<Addr, bv32>, r1: map<Addr, bv32>, r: map<Addr, bv32>)
    requires HfroscCfg in r1 && PllCfg in r1
    requires r1 == regs[HfroscCfg := r1[HfroscCfg]][PllCfg := r1[PllCfg]]
    requires IofEn in r && IofSel in r && Div in r && TxCtrl in r && Ie in r
    requires r == r1[IofEn := r[IofEn]][IofSel := r[IofSel]]
                    [Div := UartDivisor][TxCtrl := r[TxCtrl]][Ie := r[Ie]]
    ensures OnlySetupRegs(regs, r)
  {
    assert r[HfroscCfg] == r1[HfroscCfg] && r[PllCfg] == r1[PllCfg];
  }

  lemma BringUpBits(regs: map<Addr, bv32>, r1: map<Addr, bv32>, r: map<Addr, bv32>)
    requires HfroscCfg in regs && PllCfg in regs
    requires IofEn in regs && IofSel in regs && TxCtrl in regs && Ie in regs
    requires HfroscCfg in r1 && PllCfg in r1
    requires r1 == regs[HfroscCfg := r1[HfroscCfg]][PllCfg := r1[PllCfg]]
    requires ClearsBits(regs[HfroscCfg], r1[HfroscCfg], HfroscEn)
    requires SetsBits(regs[PllCfg], r1[PllCfg], PllRefSel | PllBypass | PllSel)
    requires IofEn in r && IofSel in r && Div in r && TxCtrl in r && Ie in r
    requires r == r1[IofEn := r[IofEn]][IofSel := r[IofSel]]
                    [Div := UartDivisor][TxCtrl := r[TxCtrl]][Ie := r[Ie]]
    requires SetsBits(r1[IofEn], r[IofEn], GpioUartMask)
    requires ClearsBits(r1[IofSel], r[IofSel], GpioUartMask)
    requires SetsBits(r1[TxCtrl], r[TxCtrl], TxEn | TxWatermark)
    requires SetsBits(r1[Ie], r[Ie], TxWatermarkIe)
    ensures HfroscCfg in r && PllCfg in r
    ensures SetupBits(regs, r)
  {
    assert r[HfroscCfg] == r1[HfroscCfg] && r[PllCfg] == r1[PllCfg];
    assert r1[IofEn] == regs[IofEn] && r1[IofSel] == regs[IofSel];
    assert r1[TxCtrl] == regs[TxCtrl] && r1[Ie] == regs[Ie];
  }

  /** The bring-up trace transmits nothing and breaks no backpressure rule. */
  lemma SetupSilent(t: seq<Event>)
    requires |t| == 15 && SetupEvents(t)
    ensures Tx(t) == [] && TxGuarded(t)
  {
    TxNoBytes(t);
    forall i | 0 <= i < |t|
      ensures GuardedAt(t, i)
    {
    }
  }

  /** Setup accesses followed by TXFIFO accesses only are in block order. */
  lemma RunOrder(t: seq<Event>)
    requires |t| >= 15 && SetupEvents(t) && OnlyTxFifo(t, 15)
    ensures InOrder(t) && KnownRegs(t)
  {
    forall i | 0 <= i < |t|
      ensures Stage(t[i].addr) == (if i < 6 then 0 else if i < 15 then 1 else 2)
      ensures t[i].addr in ClockRegs + UartSetupRegs + {TxFifo}
    {
    }
  }

  /**
   `main` from power-on. The wire carries the longest prefix of `Expected()`
   the FIFO makes room for; the run spins forever exactly when the hardware
   shows room fewer times than there are bytes; every byte is written only
   after a read showed room; the clock registers are all accessed before the
   serial setup registers, and those before TXFIFO; and the registers end as
   the two init routines leave them. The final `while (1);` is the idle end
   of the run.
   */
  method Run(m: Machine) returns (r: Machine)
    requires PowerOn(m)
    ensures Tx(r.trace) == Expected()[..Min(|Expected()|, ClearReads(m.status))]
    ensures r.stalled <==> ClearReads(m.status) < |Expected()|
    ensures TxGuarded(r.trace)
    ensures InOrder(r.trace) && KnownRegs(r.trace)
    ensures Configured(m.regs, r.regs)
  {
    var b := InitOsc(m);
    b := InitUart(b);
    BringUp(m);
    r := UartPrint(b, Greeting());
    r := PrintTable(r);
    EmitAppend(b, Translate(Greeting()), Table());
    RunEffect(m, b);
  }

  /** Sending `Expected()` after the bring-up. */
  lemma RunEffect(m: Machine, b: Machine)
    requires PowerOn(m) && SetUp(m, b)
    ensures var r := Emit(b, Expected());
      && Tx(r.trace) == Expected()[..Min(|Expected()|, ClearReads(m.status))]
      && (r.stalled <==> ClearReads(m.status) < |Expected()|)
      && TxGuarded(r.trace)
      && InOrder(r.trace) && KnownRegs(r.trace)
      && r.regs == b.regs
  {
    var r := Emit(b, Expected());
    SetupSilent(b.trace);
    EmitFrame(b, Expected());
    EmitTx(b, Expected());
    assert r.trace[..15] == b.trace;
    forall i | 0 <= i < 15
      ensures !r.trace[i].Write8?
      ensures r.trace[i].addr in ClockRegs + UartSetupRegs
      ensures Stage(r.trace[i].addr) == (if i < 6 then 0 else 1)
    {
      assert r.trace[i] == b.trace[i];
    }
    RunOrder(r.trace);
  }
}
