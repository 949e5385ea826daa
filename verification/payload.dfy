/**
 The demonstration payload of `main` after the greeting: every byte from 0x20
 up to 0x7F in ascending order, with a line feed and a carriage return after
 each value that is a multiple of 16.
 */
module Payload {
  import opened Mmio
  import opened Uart

  /** The first value the loop sends, and the value that stops it. */
  const First: Byte := 0x20
  const Limit: Byte := 0x80

  /** `i++` on a `uint8_t`: adds one modulo 256. */
  function Inc8(i: Byte): (r: Byte)
    ensures i < 0xFF ==> r as int == i as int + 1
    ensures i == 0xFF ==> r == 0
  {
    ((i as int + 1) % 0x100) as Byte
  }

  /** The values the 8-bit loop counter takes from `i` on, until the loop stops. */
  function CounterFrom(i: Byte): seq<Byte>
    decreases 0x80 - i as int
  {
    if i >= Limit then []
    else
      [i] + CounterFrom(Inc8(i))
  }

  /** The values the loop counter takes, in order. */
  function Counter(): seq<Byte>
  {
    CounterFrom(First)
  }

  /** What one turn of the loop sends for the counter value `b`. */
  function Cell(b: Byte): seq<Byte>
  {
    [b] + (if b % 0x10 == 0 then [Lf, Cr] else [])
  }

  /** What the loop sends from the turn with counter `i` to the end. */
  function TableFrom(i: Byte): seq<Byte>
    decreases 0x80 - i as int
  {
    if i >= Limit then []
    else
      Cell(i) + TableFrom(Inc8(i))
  }

  /** The whole payload. */
  function Table(): seq<Byte>
  {
    TableFrom(First)
  }

  /**
   Where value `v` sits in what the loop sends from counter `i` on: one byte
   for each value in [i, v), and two more for each multiple of 16 among them.
   */
  function Offset(i: int, v: int): int
  {
    (v - i) + 2 * ((v + 15) / 16 - (i + 15) / 16)
  }

  /** Value `v` is at index `o` of `t`, followed by LF and CR when it is a multiple of 16. */
  predicate PlacedAt(t: seq<Byte>, o: int, v: Byte)
  {
    && 0 <= o < |t| && t[o] == v
    && (v % 0x10 == 0 ==> o + 2 < |t| && t[o + 1] == Lf && t[o + 2] == Cr)
  }

  /** Where value `v` sits in the payload. */
  function Slot(v: Byte): int
  {
    Offset(First as int, v as int)
  }

  /**
   A stream with every byte below 0x20 (space) removed. In the payload the
   only such bytes are the LF and CR of the line breaks, so this drops them.
   */
  function DropLineBreaks(bs: seq<Byte>): seq<Byte>
  {
    if bs == [] then []
    else DropLineBreaks(bs[..|bs| - 1]) + (if bs[|bs| - 1] >= 0x20 then [bs[|bs| - 1]] else [])
  }

  /** Stepping past value `i` moves the offset by the length of `Cell(i)`. */
  lemma OffsetStep(i: int, v: int)
    requires i < v
    ensures Offset(i, v) == 1 + (if i % 16 == 0 then 2 else 0) + Offset(i + 1, v)
  {
    var q, r := i / 16, i % 16;
    assert i == 16 * q + r;
    if r == 0 {
      assert (i + 15) / 16 == q;
      assert (i + 16) / 16 == q + 1;
    } else {
      assert (i + 15) / 16 == q + 1;
      assert (i + 16) / 16 == q + 1;
    }
  }

  lemma CellLength(b: Byte)
    ensures |Cell(b)| == 1 + (if b as int % 16 == 0 then 2 else 0)
  {
  }

  /** From counter `i` on, the loop counts up by one to 0x7F. */
  lemma {:induction false} CounterFromValues(i: Byte)
    requires i <= Limit
    ensures |CounterFrom(i)| == 0x80 - i as int
    ensures forall k | 0 <= k < |CounterFrom(i)| :: CounterFrom(i)[k] as int == i as int + k
    decreases 0x80 - i as int
  {
    if i < Limit {
      CounterFromValues(Inc8(i));
      var c, c' := CounterFrom(i), CounterFrom(Inc8(i));
      assert c == [i] + c';
      forall k | 0 <= k < |c|
        ensures c[k] as int == i as int + k
      {
        if k > 0 {
          assert c[k] == c'[k - 1];
        }
      }
    }
  }

  /** From counter `i` on, the loop sends `Offset(i, 0x80)` bytes. */
  lemma {:induction false} TableFromLength(i: Byte)
    requires i <= Limit
    ensures |TableFrom(i)| == Offset(i as int, 0x80)
    decreases 0x80 - i as int
  {
    if i < Limit {
      var c, t' := Cell(i), TableFrom(Inc8(i));
      assert TableFrom(i) == c + t';
      TableFromLength(Inc8(i));
      CellLength(i);
      OffsetStep(i as int, 0x80);
      assert |t'| == Offset(i as int + 1, 0x80);
    }
  }

  /**
   From counter `i` on, value `v` sits at `Offset(i, v)`, followed by LF and
   CR when it is a multiple of 16.
   */
  lemma {:induction false} TableFromAt(i: Byte, v: Byte)
    requires i <= v < Limit
    ensures PlacedAt(TableFrom(i), Offset(i as int, v as int), v)
    decreases v as int - i as int
  {
    var t, t' := TableFrom(i), TableFrom(Inc8(i));
    assert t == Cell(i) + t';
    if i == v {
      assert Offset(i as int, v as int) == 0;
    } else {
      TableFromAt(Inc8(i), v);
      OffsetStep(i as int, v as int);
      CellLength(i);
      var o' := Offset(i as int + 1, v as int);
      ShiftIndex(Cell(i), t', o');
      if v % 0x10 == 0 {
        ShiftIndex(Cell(i), t', o' + 1);
        ShiftIndex(Cell(i), t', o' + 2);
      }
    }
  }

  lemma ShiftIndex(p: seq<Byte>, q: seq<Byte>, j: int)
    requires 0 <= j < |q|
    ensures |p| + j < |p + q| && (p + q)[|p| + j] == q[j]
  {
  }

  lemma {:induction false} DropLineBreaksAppend(a: seq<Byte>, b: seq<Byte>)
    ensures DropLineBreaks(a + b) == DropLineBreaks(a) + DropLineBreaks(b)
    decreases |b|
  {
    if b == [] {
      assert a + b == a;
    } else {
      var b' := b[..|b| - 1];
      assert (a + b)[..|a + b| - 1] == a + b';
      DropLineBreaksAppend(a, b');
    }
  }

  /** Dropping the line break from one turn's output leaves its counter value. */
  lemma CellBreaksDropped(b: Byte)
    requires b >= 0x20
    ensures DropLineBreaks(Cell(b)) == [b]
  {
    assert DropLineBreaks([b]) == [b] by { assert [b][..0] == []; }
    if b % 0x10 == 0 {
      assert Cell(b) == [b] + [Lf] + [Cr];
      DropLineBreaksAppend([b] + [Lf], [Cr]);
      DropLineBreaksAppend([b], [Lf]);
      assert DropLineBreaks([Cr]) == [] by { assert [Cr][..0] == []; }
      assert DropLineBreaks([Lf]) == [] by { assert [Lf][..0] == []; }
    }
  }

  /** Dropping the line breaks from what the loop sends leaves the counter values. */
  lemma {:induction false} TableFromBreaksDropped(i: Byte)
    requires First <= i
    ensures DropLineBreaks(TableFrom(i)) == CounterFrom(i)
    decreases 0x80 - i as int
  {
    if i < Limit {
      TableFromBreaksDropped(Inc8(i));
      DropLineBreaksAppend(Cell(i), TableFrom(Inc8(i)));
      CellBreaksDropped(i);
    }
  }

  /** The payload is 96 values and six line breaks: 108 bytes. */
  lemma TableLength()
    ensures |Table()| == 108
  {
    TableFromLength(First);
  }

  /** Each value v from 0x20 to 0x7F sits at `Slot(v)`, followed by LF and CR when v is a multiple of 16. */
  lemma TableSlots()
    ensures forall v: Byte | First <= v < Limit :: PlacedAt(Table(), Slot(v), v)
  {
    forall v: Byte | First <= v < Limit
      ensures PlacedAt(Table(), Slot(v), v)
    {
      TableFromAt(First, v);
    }
  }

  /** The values alone, in order, are 0x20 .. 0x7F, each once. */
  lemma TableValues()
    ensures DropLineBreaks(Table()) == Counter()
    ensures |Counter()| == 96
    ensures forall k | 0 <= k < |Counter()| :: Counter()[k] as int == 0x20 + k
  {
    TableFromBreaksDropped(First);
    CounterFromValues(First);
  }

  /**
   The layout of the payload: 108 bytes; each value v from 0x20 to 0x7F at
   `Slot(v)`, followed by LF and CR when v is a multiple of 16; and the values
   alone, in order, are 0x20 .. 0x7F, each once.
   */
  lemma TableLayout()
    ensures |Table()| == 108
    ensures forall v: Byte | First <= v < Limit :: PlacedAt(Table(), Slot(v), v)
    ensures DropLineBreaks(Table()) == Counter()
    ensures |Counter()| == 96
    ensures forall k | 0 <= k < |Counter()| :: Counter()[k] as int == 0x20 + k
  {
    TableLength();
    TableSlots();
    TableValues();
  }

  /** One turn of the loop with the counter at `i` sends `Cell(i)`, leaving the later turns. */
  lemma LoopTurn(r: Machine, i: Byte)
    requires i < Limit
    ensures var turn := if i % 0x10 == 0 then UartWrite(UartWrite(UartWrite(r, i), Lf), Cr)
                        else UartWrite(r, i);
      Emit(r, TableFrom(i)) == Emit(turn, TableFrom(Inc8(i)))
  {
    EmitAppend(r, Cell(i), TableFrom(Inc8(i)));
    if i % 0x10 == 0 {
      assert Cell(i) == [i, Lf, Cr];
      EmitThree(r, i, Lf, Cr);
    } else {
      assert Cell(i) == [i];
      EmitSingle(r, i);
    }
  }

  /**
   `for (uint8_t i = 0x20; i < 0x80; i++)`: the 8-bit counter never wraps,
   the loop ends, and what it sends is `Table()`.
   */
  method PrintTable(m: Machine) returns (r: Machine)
    ensures r == Emit(m, Table())
  {
    r := m;
    var i: Byte := 0x20;
    while i < 0x80
      invariant 0x20 <= i <= 0x80
      invariant Emit(r, TableFrom(i)) == Emit(m, Table())
      decreases 0x80 - i as int
    {
      LoopTurn(r, i);
      r := UartWrite(r, i);
      if i % 0x10 == 0 {
        r := UartWrite(r, Lf);
        r := UartWrite(r, Cr);
      }
      i := Inc8(i);
    }
  }
}
