/**
 The byte stream `uart_print` produces from a C string: the bytes before the
 terminating NUL, each line feed followed by an inserted carriage return.
 */
module CrLf {
  import opened Mmio

  /** The bytes of a NUL-terminated string before its first NUL. */
  function CStr(s: seq<Byte>): (r: seq<Byte>)
    requires Nul in s
    ensures |r| < |s| && r == s[..|r|]
    ensures s[|r|] == Nul && Nul !in r
  {
    if s[0] == Nul then []
    else
      assert Nul in s[1..] by {
        var k :| 0 <= k < |s| && s[k] == Nul;
        assert s[1..][k - 1] == Nul;
      }
      [s[0]] + CStr(s[1..])
  }

  /** What one byte of the string becomes on the wire. */
  function Expand(b: Byte): seq<Byte>
  {
    if b == Lf then [Lf, Cr] else [b]
  }

  /** Line-feed translation of a byte sequence. */
  function Crlf(bs: seq<Byte>): seq<Byte>
  {
    if bs == [] then [] else Expand(bs[0]) + Crlf(bs[1..])
  }

  /** The bytes `uart_print` hands to `uart_write`, in order. */
  function Translate(s: seq<Byte>): seq<Byte>
    requires Nul in s
  {
    Crlf(CStr(s))
  }

  function CountLf(bs: seq<Byte>): nat
  {
    if bs == [] then 0 else (if bs[0] == Lf then 1 else 0) + CountLf(bs[1..])
  }

  /** Drops the carriage return that immediately follows each line feed. */
  function Uncrlf(o: seq<Byte>): seq<Byte>
  {
    if o == [] then []
    else if o[0] == Lf && 2 <= |o| && o[1] == Cr then [Lf] + Uncrlf(o[2..])
    else [o[0]] + Uncrlf(o[1..])
  }

  lemma {:induction false} CrlfAppend(a: seq<Byte>, b: seq<Byte>)
    ensures Crlf(a + b) == Crlf(a) + Crlf(b)
    decreases |a|
  {
    if a == [] {
      assert a + b == b;
    } else {
      assert (a + b)[1..] == a[1..] + b;
      CrlfAppend(a[1..], b);
    }
  }

  /** Each line feed adds exactly one byte to the output. */
  lemma {:induction false} CrlfLength(bs: seq<Byte>)
    ensures |Crlf(bs)| == |bs| + CountLf(bs)
    decreases |bs|
  {
    if bs != [] {
      CrlfLength(bs[1..]);
    }
  }

  /**
   Input byte `i` lands at output index `i` plus the number of line feeds
   before it, and a line feed is followed there by a carriage return.
   */
  lemma {:induction false} CrlfPlacement(bs: seq<Byte>, i: nat)
    requires i < |bs|
    ensures var j := i + CountLf(bs[..i]);
      && j < |Crlf(bs)| && Crlf(bs)[j] == bs[i]
      && (bs[i] == Lf ==> j + 1 < |Crlf(bs)| && Crlf(bs)[j + 1] == Cr)
    decreases i
  {
    CrlfLength(bs);
    if i == 0 {
      assert bs[..0] == [];
    } else {
      CrlfPlacement(bs[1..], i - 1);
      assert bs[..i][1..] == bs[1..][..i - 1];
      assert CountLf(bs[..i]) == (if bs[0] == Lf then 1 else 0) + CountLf(bs[1..][..i - 1]);
    }
  }

  /** Removing the inserted carriage returns gives the input back: nothing else is inserted. */
  lemma {:induction false} CrlfRoundTrip(bs: seq<Byte>)
    ensures Uncrlf(Crlf(bs)) == bs
    decreases |bs|
  {
    if bs != [] {
      CrlfRoundTrip(bs[1..]);
      var o := Crlf(bs);
      if bs[0] == Lf {
        assert o[2..] == Crlf(bs[1..]);
      } else {
        assert o[1..] == Crlf(bs[1..]);
      }
      assert bs == [bs[0]] + bs[1..];
    }
  }

  /** The terminator never reaches the wire. */
  lemma {:induction false} TranslateNoNul(s: seq<Byte>)
    requires Nul in s
    ensures Nul !in Translate(s)
  {
    CrlfNoNul(CStr(s));
  }

  lemma {:induction false} CrlfNoNul(bs: seq<Byte>)
    requires Nul !in bs
    ensures Nul !in Crlf(bs)
    decreases |bs|
  {
    if bs != [] {
      CrlfNoNul(bs[1..]);
    }
  }

  /** A line with no line feed passes through unchanged. */
  lemma {:induction false} CrlfNoLf(bs: seq<Byte>)
    requires Lf !in bs
    ensures Crlf(bs) == bs
    decreases |bs|
  {
    if bs != [] {
      CrlfNoLf(bs[1..]);
      assert bs == [bs[0]] + bs[1..];
    }
  }

  /** "a\n b" goes out as a, LF, CR, space, b. */
  lemma TranslateExample()
    ensures Translate([0x61, Lf, 0x20, 0x62, Nul]) == [0x61, Lf, Cr, 0x20, 0x62]
  {
    var s: seq<Byte> := [0x61, Lf, 0x20, 0x62, Nul];
    assert CStr(s) == s[..4];
    assert s[..4] == [0x61, Lf, 0x20, 0x62];
    assert s[..4][1..] == [Lf, 0x20, 0x62];
    assert Crlf(s[..4]) == [0x61] + Crlf([Lf, 0x20, 0x62]);
    assert Crlf([Lf, 0x20, 0x62]) == [Lf, Cr] + Crlf([0x20, 0x62]);
  }
}
