/**
 The transmit driver: `uart_write` polls the TXFIFO full flag and pushes one
 byte once a read shows room; `uart_print` sends a C string through it.

 The words TXFIFO returns come from `Machine.status`. If they run out while
 the FIFO still reads full, the processor spins forever: the machine becomes
 stalled and no later write happens.
 */
module Uart {
  import opened Mmio
  import opened CrLf

  /** How many of the status words show room in the FIFO. */
  function ClearReads(s: seq<bv32>): nat
  {
    if s == [] then 0 else (if Full(s[0]) then 0 else 1) + ClearReads(s[1..])
  }

  /** `t'` is `t` with events appended. */
  predicate Extends(t: seq<Event>, t': seq<Event>)
  {
    |t| <= |t'| && t'[..|t|] == t
  }

  /** Events `lo` up to `hi` of `t` are TXFIFO reads that showed the FIFO full. */
  predicate FullReads(t: seq<Event>, lo: nat, hi: nat)
    requires lo <= hi <= |t|
  {
    forall i | lo <= i < hi :: t[i].Read? && t[i].addr == TxFifo && Full(t[i].value)
  }

  /** From `lo` on, `t` is a spin on a full FIFO ended by one read that showed room. */
  predicate SpinsThenClear(t: seq<Event>, lo: nat)
  {
    && lo < |t|
    && FullReads(t, lo, |t| - 1)
    && t[|t| - 1].Read? && t[|t| - 1].addr == TxFifo && !Full(t[|t| - 1].value)
  }

  /**
   The spin `while (read_32_offset(UART_MMIO, TXFIFO) & 0x80000000);`: reads
   TXFIFO until a word with the full flag clear, or stalls when the hardware
   never shows one. Only reads happen, and exactly one reading that showed
   room is used up.
   */
  function Poll(m: Machine): (r: Machine)
    ensures m.stalled ==> r == m
    ensures r.regs == m.regs
    ensures Extends(m.trace, r.trace)
    ensures r.stalled <==> m.stalled || ClearReads(m.status) == 0
    ensures r.stalled ==> FullReads(r.trace, |m.trace|, |r.trace|)
    ensures !r.stalled ==> SpinsThenClear(r.trace, |m.trace|)
    ensures !r.stalled ==> ClearReads(r.status) == ClearReads(m.status) - 1
    decreases |m.status|
  {
    if m.stalled then m
    else if m.status == [] then m.(stalled := true)
    else
      var v := m.status[0];
      var m' := m.(status := m.status[1..], trace := m.trace + [Read(TxFifo, v)]);
      if Full(v) then
        var r := Poll(m');
        assert r.trace[..|m.trace|] == m.trace by {
          assert r.trace[..|m.trace|] == r.trace[..|m'.trace|][..|m.trace|];
        }
        assert r.trace[|m.trace|] == Read(TxFifo, v) by {
          assert r.trace[..|m'.trace|][|m.trace|] == m'.trace[|m.trace|];
        }
        r
      else
        m'
  }

  /** Every status word shows the FIFO full. */
  predicate AllFull(s: seq<bv32>)
  {
    forall j | 0 <= j < |s| :: Full(s[j])
  }

  /**
   How many status words the spin reads: up to and including the first one
   that shows room, or all of them when none does.
   */
  function SpinLength(s: seq<bv32>): (k: nat)
    ensures k <= |s|
    ensures forall j | 0 <= j < k - 1 :: Full(s[j])
    ensures (0 < k && !Full(s[k - 1])) || (k == |s| && AllFull(s))
  {
    if s == [] then 0
    else if !Full(s[0]) then 1
    else
      var k := SpinLength(s[1..]);
      assert forall j | 1 <= j < |s| :: s[j] == s[1..][j - 1];
      1 + k
  }

  /** The TXFIFO reads that return the words `ws`, one read per word, in order. */
  function Reads(ws: seq<bv32>): (t: seq<Event>)
    ensures |t| == |ws|
    ensures forall j | 0 <= j < |ws| :: t[j] == Read(TxFifo, ws[j])
  {
    seq(|ws|, j requires 0 <= j < |ws| => Read(TxFifo, ws[j]))
  }

  /**
   The spin reads TXFIFO once per turn and gets the hardware's words in order:
   it consumes exactly the first `SpinLength` of them, records one read for
   each, and stalls exactly when none of them shows room.
   */
  lemma {:induction false} PollStatus(m: Machine)
    requires !m.stalled
    ensures var p, k := Poll(m), SpinLength(m.status);
      && p.status == m.status[k..]
      && p.trace == m.trace + Reads(m.status[..k])
      && (p.stalled <==> AllFull(m.status))
    decreases |m.status|
  {
    var s := m.status;
    if s == [] {
      assert s[..0] == [];
    } else if Full(s[0]) {
      var m' := m.(status := s[1..], trace := m.trace + [Read(TxFifo, s[0])]);
      PollFull(m);
      PollStatus(m');
      SpinStep(s);
      AllFullStep(s);
      ConsReads(m.trace, Read(TxFifo, s[0]), Reads(s[1..][..SpinLength(s[1..])]));
    } else {
      assert Reads(s[..1]) == [Read(TxFifo, s[0])];
    }
  }

  /** A reading that shows the FIFO full sends the spin round again. */
  lemma PollFull(m: Machine)
    requires !m.stalled && m.status != [] && Full(m.status[0])
    ensures Poll(m) == Poll(m.(status := m.status[1..], trace := m.trace + [Read(TxFifo, m.status[0])]))
  {
  }

  lemma ConsReads(t: seq<Event>, e: Event, rs: seq<Event>)
    ensures (t + [e]) + rs == t + ([e] + rs)
  {
  }

  /** A full first word adds one read in front of the rest of the spin. */
  lemma SpinStep(s: seq<bv32>)
    requires s != [] && Full(s[0])
    ensures var k := SpinLength(s[1..]);
      && SpinLength(s) == 1 + k
      && s[1..][k..] == s[1 + k..]
      && Reads(s[..1 + k]) == [Read(TxFifo, s[0])] + Reads(s[1..][..k])
  {
    var k := SpinLength(s[1..]);
    assert s[..1 + k] == [s[0]] + s[1..][..k];
  }

  lemma AllFullStep(s: seq<bv32>)
    requires s != [] && Full(s[0])
    ensures AllFull(s) <==> AllFull(s[1..])
  {
    assert forall j | 1 <= j < |s| :: s[j] == s[1..][j - 1];
  }

  /** Every event of `t` from `lo` on is an access to TXFIFO. */
  predicate OnlyTxFifo(t: seq<Event>, lo: nat)
  {
    forall i | lo <= i < |t| :: t[i].addr == TxFifo
  }

  /** `uart_write(data)`: spin while TXFIFO reads full, then push `data`. */
  function UartWrite(m: Machine, data: Byte): Machine
  {
    var p := Poll(m);
    if p.stalled then p else Push(p, data)
  }

  /**
   `uart_write` touches nothing but TXFIFO, changes no register, keeps the
   backpressure rule, and sends `data` exactly when some reading shows room,
   using up one such reading.
   */
  lemma UartWriteSpec(m: Machine, data: Byte)
    ensures var r := UartWrite(m, data);
      && (m.stalled ==> r == m)
      && r.regs == m.regs
      && Extends(m.trace, r.trace) && OnlyTxFifo(r.trace, |m.trace|)
      && (r.stalled <==> m.stalled || ClearReads(m.status) == 0)
      && (!r.stalled ==> ClearReads(r.status) == ClearReads(m.status) - 1)
      && Tx(r.trace) == Tx(m.trace) + (if r.stalled then [] else [data])
      && (TxGuarded(m.trace) ==> TxGuarded(r.trace))
  {
    UartWriteFrame(m, data);
    UartWriteBytes(m, data);
  }

  /** The frame half of `UartWriteSpec`: registers, trace shape, status readings. */
  lemma UartWriteFrame(m: Machine, data: Byte)
    ensures var r := UartWrite(m, data);
      && (m.stalled ==> r == m)
      && r.regs == m.regs
      && Extends(m.trace, r.trace) && OnlyTxFifo(r.trace, |m.trace|)
      && (r.stalled <==> m.stalled || ClearReads(m.status) == 0)
      && (!r.stalled ==> ClearReads(r.status) == ClearReads(m.status) - 1)
  {
    var p := Poll(m);
    assert OnlyTxFifo(p.trace, |m.trace|);
    if !p.stalled {
      var r := Push(p, data);
      assert r.trace[..|m.trace|] == m.trace by {
        assert r.trace[..|p.trace|][..|m.trace|] == p.trace[..|m.trace|];
      }
    }
  }

  /** The byte half of `UartWriteSpec`: what reaches the wire, and the backpressure rule. */
  lemma UartWriteBytes(m: Machine, data: Byte)
    ensures var r := UartWrite(m, data);
      && Tx(r.trace) == Tx(m.trace) + (if r.stalled then [] else [data])
      && (TxGuarded(m.trace) ==> TxGuarded(r.trace))
  {
    var p := Poll(m);
    PollReads(m);
    NoBytesAppended(m.trace, p.trace);
    if !p.stalled {
      assert UartWrite(m, data).trace == p.trace + [Write8(TxFifo, data)];
      PushOne(p.trace, data);
    }
  }

  /** The spin only reads; when it ends, its last read showed room. */
  lemma PollReads(m: Machine)
    ensures var p := Poll(m);
      && Extends(m.trace, p.trace)
      && (forall i | |m.trace| <= i < |p.trace| :: p.trace[i].Read?)
      && (!p.stalled ==> 0 < |p.trace| && p.trace[|p.trace| - 1].Read? && p.trace[|p.trace| - 1].addr == TxFifo
                         && !Full(p.trace[|p.trace| - 1].value))
  {
    var p := Poll(m);
    if p.stalled {
      assert FullReads(p.trace, |m.trace|, |p.trace|);
    } else {
      assert SpinsThenClear(p.trace, |m.trace|);
    }
  }

  /**
   The bus events of `uart_write(data)`: TXFIFO reads that showed the FIFO
   full, then (unless the FIFO never shows room) one read that showed room
   and the single write, of `data` to TXFIFO.
   */
  lemma UartWriteSpins(m: Machine, data: Byte)
    requires !m.stalled
    ensures var r := UartWrite(m, data);
      && (r.stalled ==> FullReads(r.trace, |m.trace|, |r.trace|))
      && (!r.stalled ==>
        && |r.trace| > |m.trace| + 1
        && SpinsThenClear(r.trace[..|r.trace| - 1], |m.trace|)
        && r.trace[|r.trace| - 1] == Write8(TxFifo, data))
    ensures var r, k := UartWrite(m, data), SpinLength(m.status);
      && r.status == m.status[k..]
      && r.trace == m.trace + Reads(m.status[..k]) + (if r.stalled then [] else [Write8(TxFifo, data)])
      && (r.stalled <==> AllFull(m.status))
  {
    var p := Poll(m);
    PollStatus(m);
    if !p.stalled {
      assert UartWrite(m, data).trace[..|p.trace|] == p.trace;
    } else {
      assert p.trace + [] == p.trace;
    }
  }

  /** Appending only reads leaves the transmitted bytes and the guard as they were. */
  lemma NoBytesAppended(t: seq<Event>, t': seq<Event>)
    requires Extends(t, t')
    requires forall i | |t| <= i < |t'| :: t'[i].Read?
    ensures Tx(t') == Tx(t)
    ensures TxGuarded(t) ==> TxGuarded(t')
  {
    assert t' == t + t'[|t|..];
    TxAppend(t, t'[|t|..]);
    TxNoBytes(t'[|t|..]);
    if TxGuarded(t) {
      forall i | 0 <= i < |t'|
        ensures GuardedAt(t', i)
      {
        if i < |t| {
          assert GuardedAt(t, i);
          assert t'[i] == t[i];
          assert 0 < i ==> t'[i - 1] == t[i - 1];
        }
      }
    }
  }

  /** Pushing after a read that showed room sends one byte and keeps the guard. */
  lemma PushOne(t: seq<Event>, data: Byte)
    ensures Tx(t + [Write8(TxFifo, data)]) == Tx(t) + [data]
    ensures TxGuarded(t) && 0 < |t| && t[|t| - 1].Read? && t[|t| - 1].addr == TxFifo && !Full(t[|t| - 1].value)
      ==> TxGuarded(t + [Write8(TxFifo, data)])
  {
    var t' := t + [Write8(TxFifo, data)];
    assert t'[..|t'| - 1] == t;
    assert TxOf(t'[|t'| - 1]) == [data];
    if TxGuarded(t) && 0 < |t| && t[|t| - 1].Read? && t[|t| - 1].addr == TxFifo && !Full(t[|t| - 1].value) {
      forall i | 0 <= i < |t'|
        ensures GuardedAt(t', i)
      {
        if i < |t| {
          assert GuardedAt(t, i);
          assert t'[i] == t[i];
          assert 0 < i ==> t'[i - 1] == t[i - 1];
        } else {
          assert t'[i - 1] == t[|t| - 1];
        }
      }
    }
  }

  function Min(a: int, b: int): int
  {
    if a <= b then a else b
  }

  /** The machine after `uart_write` of each byte of `bs` in turn. */
  function Emit(m: Machine, bs: seq<Byte>): Machine
    decreases |bs|
  {
    if bs == [] then m else Emit(UartWrite(m, bs[0]), bs[1..])
  }

  /**
   Sending a byte sequence changes no register, touches only TXFIFO and keeps
   the backpressure rule; on a stalled machine it does nothing at all.
   */
  lemma {:induction false} EmitFrame(m: Machine, bs: seq<Byte>)
    ensures var r := Emit(m, bs);
      && (m.stalled ==> r == m)
      && r.regs == m.regs
      && Extends(m.trace, r.trace) && OnlyTxFifo(r.trace, |m.trace|)
      && (TxGuarded(m.trace) ==> TxGuarded(r.trace))
    decreases |bs|
  {
    if bs != [] {
      var m1 := UartWrite(m, bs[0]);
      UartWriteSpec(m, bs[0]);
      EmitFrame(m1, bs[1..]);
      var r := Emit(m1, bs[1..]);
      assert r.trace[..|m.trace|] == m.trace by {
        assert r.trace[..|m1.trace|][..|m.trace|] == m1.trace[..|m.trace|];
      }
      forall i | |m.trace| <= i < |m1.trace|
        ensures r.trace[i].addr == TxFifo
      {
        assert r.trace[..|m1.trace|][i] == m1.trace[i];
      }
    }
  }

  /**
   Sending `bs` puts on the wire exactly as many leading bytes of `bs` as the
   hardware shows room for, and stalls exactly when there are fewer such
   readings than bytes.
   */
  lemma {:induction false} EmitTx(m: Machine, bs: seq<Byte>)
    requires !m.stalled
    ensures var r := Emit(m, bs);
      && (r.stalled <==> ClearReads(m.status) < |bs|)
      && Tx(r.trace) == Tx(m.trace) + bs[..Min(|bs|, ClearReads(m.status))]
    decreases |bs|
  {
    if bs == [] {
      assert bs[..0] == [];
    } else if UartWriteSpec(m, bs[0]); UartWrite(m, bs[0]).stalled {
      EmitFrame(UartWrite(m, bs[0]), bs[1..]);
      assert bs[..0] == [];
    } else {
      EmitTx(UartWrite(m, bs[0]), bs[1..]);
      EmitTxStep(m, bs);
    }
  }

  /** The inductive step of `EmitTx` when the first byte goes out. */
  lemma EmitTxStep(m: Machine, bs: seq<Byte>)
    requires !m.stalled && bs != []
    requires !UartWrite(m, bs[0]).stalled
    requires var m1 := UartWrite(m, bs[0]); var r := Emit(m1, bs[1..]);
      && (r.stalled <==> ClearReads(m1.status) < |bs| - 1)
      && Tx(r.trace) == Tx(m1.trace) + bs[1..][..Min(|bs| - 1, ClearReads(m1.status))]
    ensures var r := Emit(m, bs);
      && (r.stalled <==> ClearReads(m.status) < |bs|)
      && Tx(r.trace) == Tx(m.trace) + bs[..Min(|bs|, ClearReads(m.status))]
  {
    var m1 := UartWrite(m, bs[0]);
    var r := Emit(m1, bs[1..]);
    assert Emit(m, bs) == r;
    UartWriteSpec(m, bs[0]);
    StepAlgebra(Tx(m.trace), Tx(m1.trace), Tx(r.trace), bs, ClearReads(m.status), ClearReads(m1.status));
  }

  lemma StepAlgebra(a: seq<Byte>, a1: seq<Byte>, ar: seq<Byte>, bs: seq<Byte>, c: nat, c1: nat)
    requires bs != [] && c1 == c - 1
    requires a1 == a + [bs[0]]
    requires ar == a1 + bs[1..][..Min(|bs| - 1, c1)]
    ensures ar == a + bs[..Min(|bs|, c)]
  {
    ConsPrefix(bs, Min(|bs| - 1, c1));
  }

  lemma ConsPrefix(bs: seq<Byte>, n: nat)
    requires n < |bs|
    ensures bs[..n + 1] == [bs[0]] + bs[1..][..n]
  {
  }

  /** Sending `a` then `b` is sending `a + b`. */
  lemma {:induction false} EmitAppend(m: Machine, a: seq<Byte>, b: seq<Byte>)
    ensures Emit(Emit(m, a), b) == Emit(m, a + b)
    decreases |a|
  {
    if a == [] {
      assert a + b == b;
    } else {
      assert (a + b)[1..] == a[1..] + b;
      EmitAppend(UartWrite(m, a[0]), a[1..], b);
    }
  }

  lemma EmitSingle(m: Machine, x: Byte)
    ensures Emit(m, [x]) == UartWrite(m, x)
  {
    assert [x][1..] == [];
  }

  lemma EmitThree(m: Machine, x: Byte, y: Byte, z: Byte)
    ensures Emit(m, [x, y, z]) == UartWrite(UartWrite(UartWrite(m, x), y), z)
  {
    assert [x, y, z][1..] == [y, z];
    assert Emit(m, [x, y, z]) == Emit(UartWrite(m, x), [y, z]);
    assert [y, z][1..] == [z];
    assert Emit(UartWrite(m, x), [y, z]) == Emit(UartWrite(UartWrite(m, x), y), [z]);
    EmitSingle(UartWrite(UartWrite(m, x), y), z);
  }

  lemma EmitOne(m: Machine, bs: seq<Byte>, b: Byte)
    ensures Emit(m, bs + [b]) == UartWrite(Emit(m, bs), b)
  {
    EmitAppend(m, bs, [b]);
    assert [b][1..] == [];
  }

  /** One turn of the `uart_print` loop extends the translated prefix by one byte. */
  lemma PrintStep(m: Machine, s: seq<Byte>, i: nat)
    requires i < |s|
    ensures var before := Emit(m, Crlf(s[..i]));
      Emit(m, Crlf(s[..i + 1]))
        == if s[i] == Lf then UartWrite(UartWrite(before, s[i]), Cr) else UartWrite(before, s[i])
  {
    assert s[..i + 1] == s[..i] + [s[i]];
    CrlfAppend(s[..i], [s[i]]);
    assert Crlf([s[i]]) == Expand(s[i]);
    EmitOne(m, Crlf(s[..i]), s[i]);
    if s[i] == Lf {
      EmitOne(m, Crlf(s[..i]) + [Lf], Cr);
      assert Crlf(s[..i]) + [Lf] + [Cr] == Crlf(s[..i]) + Expand(s[i]);
    } else {
      assert Crlf(s[..i]) + [s[i]] == Crlf(s[..i]) + Expand(s[i]);
    }
  }

  /**
   `uart_print(str)`: while the current byte is not NUL, send it, and send a
   carriage return after a line feed. The bytes sent are `Translate(s)`.
   */
  method UartPrint(m: Machine, s: seq<Byte>) returns (r: Machine)
    requires Nul in s
    ensures r == Emit(m, Translate(s))
  {
    var c := CStr(s);
    r := m;
    var i := 0;
    while s[i] != Nul
      invariant 0 <= i <= |c|
      invariant s[..i] == c[..i]
      invariant r == Emit(m, Crlf(s[..i]))
      decreases |c| - i
    {
      assert i < |c|;
      PrintStep(m, s, i);
      r := UartWrite(r, s[i]);
      if s[i] == Lf {
        r := UartWrite(r, Cr);
      }
      i := i + 1;
    }
    assert i == |c|;
  }
}
