/** Writing one value (core/src/emit.c:124-306): an iterator over the logical bytes with one byte of
  * pushback, and the loop that escapes what it yields. */
module EmitValue {
  import opened Bytes
  import opened Fields
  import opened Normalize
  import opened EmitWriter
  import opened EmitText
  import opened Records
  import opened Utf8

  class FieldIter {
    const p: seq<byte>
    const esc: bool
    const quote: byte
    var i: nat
    var pending: int

    ghost predicate Valid()
      reads this
    {
      i <= |p| && -1 <= pending < 256
    }

    /** The logical bytes still to come. */
    ghost function Rest(): seq<byte>
      requires Valid()
      reads this
    {
      (if pending >= 0 then [pending] else []) + Logical(p[i..], esc, quote)
    }

    constructor (cell: RawCell, quote: byte)
      ensures Valid() && Rest() == LogicalOf(cell, quote) && pending == -1
    {
      p, esc, this.quote := cell.p, cell.esc, quote;
      i, pending := 0, -1;
      new;
      assert p[0..] == p;
    }

    /** The next logical byte, or -1 when there is none. */
    method Next() returns (c: int)
      requires Valid()
      modifies this
      ensures Valid() && pending == -1
      ensures old(Rest()) == [] ==> c == -1 && Rest() == []
      ensures old(Rest()) != [] ==> c == old(Rest())[0] && Rest() == old(Rest())[1..]
    {
      if pending >= 0 {
        c := pending;
        pending := -1;
        return;
      }
      if i >= |p| { return -1; }
      IterStep(p, esc, quote, i);
      c := p[i];
      if esc && c == quote && i + 1 < |p| && p[i + 1] == quote { i := i + 1; }
      i := i + 1;
    }

    /** Hands one byte back. */
    method Push(c: byte)
      requires Valid() && pending == -1
      modifies this
      ensures Valid() && Rest() == [c] + old(Rest())
    {
      pending := c;
    }
  }

  lemma IterStep(p: seq<byte>, esc: bool, quote: byte, i: nat)
    requires i < |p|
    ensures var step := if esc && p[i] == quote && i + 1 < |p| && p[i + 1] == quote then 2 else 1;
            i + step <= |p| && Logical(p[i..], esc, quote) == [p[i]] + Logical(p[i + step..], esc, quote)
  {
    if esc {
      var q := p[i..];
      assert q[1..] == p[i + 1..] && (|q| > 1 ==> q[2..] == p[i + 2..]);
    }
  }

  /** Takes the sequence at the front of the value: its first byte and the bytes that continue it. A
    * byte that cannot goes back. */
  method TakeUnit(it: FieldIter, buf: array<byte>) returns (got: nat, valid: bool)
    requires it.Valid() && buf.Length == 4
    modifies it, buf
    ensures it.Valid() && got <= 4 && (got == 0 <==> old(it.Rest()) == [])
    ensures got == 0 ==> it.Rest() == []
    ensures got > 0 ==> got == Extent(old(it.Rest())) && valid == Whole(old(it.Rest()))
    ensures got > 0 ==> buf[..got] == old(it.Rest())[..got] && it.Rest() == old(it.Rest())[got..]
  {
    hide TailOk, Tails, Logical;
    ghost var v := it.Rest();
    var c := it.Next();
    if c < 0 { return 0, false; }
    buf[0] := c;
    var n := Utf8Len(c);
    got := 1;
    while n > 1 && got < n
      invariant 1 <= got <= |v| && (n > 1 ==> got <= n) && (n <= 1 ==> got == 1) && n <= 4
      invariant it.Valid() && it.pending == -1 && it.Rest() == v[got..] && buf[..got] == v[..got]
      invariant forall i :: 1 <= i < got ==> Continues(v[i])
      decreases n - got
    {
      var k := it.Next();
      if k < 0 { break; }
      assert k == v[got];
      if !(0x80 <= k < 0xC0) {
        it.Push(k);
        assert it.Rest() == v[got..];
        break;
      }
      buf[got] := k;
      got := got + 1;
      assert it.Rest() == v[got..];
    }
    ExtentIs(v, n, got);
    valid := n > 0 && got == n && TailOk(buf[..got]);
  }

  /** A run of continuation bytes that is full, or ends the value, or is followed by something else,
    * is the extent. */
  lemma ExtentIs(v: seq<byte>, n: nat, got: nat)
    requires v != [] && n == Utf8Len(v[0]) && 1 <= got <= |v| && (n > 1 ==> got <= n) && (n <= 1 ==> got == 1)
    requires forall i :: 1 <= i < got ==> Continues(v[i])
    requires n > 1 && got < n && got < |v| ==> !Continues(v[got])
    ensures Extent(v) == got
  {
    if n > 1 {
      assert forall i :: 0 <= i < |v| - 1 ==> v[1..][i] == v[i + 1];
      var t := Tails(v[1..], n - 1);
      assert t < n - 1 && t < |v| - 1 ==> !Continues(v[t + 1]);
    }
  }

  /** `wr_escaped_byte` for the two formats. */
  method WriteEscaped(w: Writer, c: byte, mode: Mode)
    requires w.Valid() && (mode.Json? ==> c < 0x80)
    modifies w, w.sink, w.buf
    ensures w.Valid() && (old(w.err) ==> w.err)
    ensures w.stream == old(w.stream) + match mode case Json => JsonByte(c) case Csv => Doubled([c], QUOTE)
  {
    DoubledOne(c);
    if mode.Csv? {
      if c == QUOTE { w.Write([QUOTE, QUOTE]); } else { w.Put(c); }
      return;
    }
    if c == QUOTE { w.Write([BACKSLASH, QUOTE]); }
    else if c == BACKSLASH { w.Write([BACKSLASH, BACKSLASH]); }
    else if c == LF { w.Write([BACKSLASH, 0x6E]); }
    else if c == CR { w.Write([BACKSLASH, 0x72]); }
    else if c == TAB { w.Write([BACKSLASH, 0x74]); }
    else if c == 0x08 { w.Write([BACKSLASH, 0x62]); }
    else if c == 0x0C { w.Write([BACKSLASH, 0x66]); }
    else if c < 0x20 {
      ghost var base := w.stream;
      w.Write([BACKSLASH, 0x75, 0x30, 0x30]);
      w.Put(Hex(c / 16));
      w.Put(Hex(c % 16));
      assert w.stream == base + [BACKSLASH, 0x75, 0x30, 0x30, Hex(c / 16), Hex(c % 16)];
    }
    else { w.Put(c); }
  }

  lemma DoubledOne(c: byte)
    ensures Doubled([c], QUOTE) == if c == QUOTE then [QUOTE, QUOTE] else [c]
  {
    assert [c][1..] == [];
  }

  /** The bytes of one sequence, escaped one by one. */
  method WriteBytes(w: Writer, buf: array<byte>, got: nat)
    requires w.Valid() && got <= buf.Length && buf != w.buf
    modifies w, w.sink, w.buf
    ensures w.Valid() && (old(w.err) ==> w.err) && w.stream == old(w.stream) + Doubled(buf[..got], QUOTE)
  {
    hide Doubled;
    ghost var base, u: seq<byte> := w.stream, buf[..got];
    var i: nat := 0;
    NoneDoubled();
    while i < got
      invariant i <= got && w.Valid() && (old(w.err) ==> w.err) && buf[..got] == u
      invariant w.stream == base + Doubled(u[..i], QUOTE)
    {
      DoubledJoin(u[..i], [u[i]], QUOTE);
      assert u[..i + 1] == u[..i] + [u[i]];
      WriteEscaped(w, buf[i], Csv);
      i := i + 1;
    }
    assert u[..i] == u;
  }

  /** One sequence, escaped for the format. */
  method WriteUnit(w: Writer, buf: array<byte>, got: nat, valid: bool, mode: Mode, ghost v: seq<byte>)
    requires w.Valid() && buf.Length == 4 && buf != w.buf && v != [] && got == Extent(v) && valid == Whole(v)
    requires buf[..got] == v[..got]
    modifies w, w.sink, w.buf
    ensures w.Valid() && (old(w.err) ==> w.err) && w.stream == old(w.stream) + Unit(mode, v)
  {
    hide Extent, Whole, JsonByte;
    if !valid {
      if mode.Csv? { WriteBytes(w, buf, got); } else { w.Write(FFFD_ESCAPE); }
      return;
    }
    FirstLength(v);
    assert buf[0] == buf[..got][0] == v[0];
    if got == 1 {
      assert v[..1] == [v[0]];
      WriteEscaped(w, buf[0], mode);
    } else {
      NoQuotes(v[..got]);
      w.Write(buf[..got]);
    }
  }

  lemma FirstLength(v: seq<byte>)
    requires v != [] && Whole(v)
    ensures Extent(v) == 1 ==> v[0] < 0x80
    ensures Extent(v) > 1 ==> forall i :: 0 <= i < Extent(v) ==> v[..Extent(v)][i] >= 0x80
  {
  }

  lemma {:induction false} NoQuotes(u: seq<byte>)
    requires forall i :: 0 <= i < |u| ==> u[i] >= 0x80
    ensures Doubled(u, QUOTE) == u
  {
    if u != [] {
      NoQuotes(u[1..]);
      assert u == [u[0]] + u[1..];
    }
  }

  lemma OutStep(mode: Mode, v: seq<byte>, cap: nat, written: nat)
    requires v != [] && !Over(v, cap, written)
    ensures var e := Extent(v);
            && Out(mode, v, cap, written) == Unit(mode, v) + Out(mode, v[e..], cap, written + e)
            && Cut(v, cap, written) == e + Cut(v[e..], cap, written + e)
            && (WellFormed(v[..Cut(v, cap, written)]) <==> Whole(v) && WellFormed(v[e..][..Cut(v[e..], cap, written + e)]))
  {
    hide Whole, Extent, Unit;
    UnitPrefix(mode, v, Cut(v, cap, written));
  }

  lemma OutStops(mode: Mode, v: seq<byte>, cap: nat, written: nat)
    requires v == [] || Over(v, cap, written)
    ensures Out(mode, v, cap, written) == [] && Cut(v, cap, written) == 0 && WellFormed(v[..0])
  {
  }

  /** So much of the value is written and accounted for; what remains is due in the same way. */
  ghost predicate Due(mode: Mode, v: seq<byte>, cap: nat, written: nat, base: seq<byte>, stream: seq<byte>,
      invalid: bool) {
    && written <= |v|
    && stream + Out(mode, v[written..], cap, written) == base + Out(mode, v, cap, 0)
    && written + Cut(v[written..], cap, written) == Cut(v, cap, 0)
    && (invalid || !WellFormed(v[written..][..Cut(v[written..], cap, written)]) <==> !WellFormed(v[..Cut(v, cap, 0)]))
  }

  lemma DueAtFirst(mode: Mode, v: seq<byte>, cap: nat, base: seq<byte>)
    ensures Due(mode, v, cap, 0, base, base, false)
  {
    assert v[0..] == v;
  }

  lemma DueStep(mode: Mode, v: seq<byte>, cap: nat, written: nat, base: seq<byte>, stream: seq<byte>, invalid: bool)
    requires Due(mode, v, cap, written, base, stream, invalid) && written < |v| && !Over(v[written..], cap, written)
    ensures var rest := v[written..]; var e := Extent(rest);
            written + e <= |v| && rest[e..] == v[written + e..]
            && Due(mode, v, cap, written + e, base, stream + Unit(mode, rest), invalid || !Whole(rest))
  {
    hide Out, Cut, WellFormed, Extent, Whole, Unit;
    var rest := v[written..];
    OutStep(mode, rest, cap, written);
    assert rest[Extent(rest)..] == v[written + Extent(rest)..];
  }

  lemma DueAtLast(mode: Mode, v: seq<byte>, cap: nat, written: nat, base: seq<byte>, stream: seq<byte>, invalid: bool)
    requires Due(mode, v, cap, written, base, stream, invalid) && (written == |v| || Over(v[written..], cap, written))
    ensures stream == base + Out(mode, v, cap, 0) && written == Cut(v, cap, 0)
    ensures (invalid <==> !WellFormed(v[..written]))
  {
    hide Extent, Whole, Unit;
    OutStops(mode, v[written..], cap, written);
  }

  /** `wr_value` in its JSON and CSV forms: the value's sequences escaped in order up to the cap, and
    * whether anything was cut off or ill formed. */
  method WriteValue(w: Writer, cell: RawCell, quote: byte, mode: Mode, cap: nat)
    returns (truncated: bool, invalid: bool)
    requires w.Valid()
    modifies w, w.sink, w.buf
    ensures w.Valid() && (old(w.err) ==> w.err)
    ensures var v := LogicalOf(cell, quote);
            && w.stream == old(w.stream) + Out(mode, v, cap, 0)
            && (truncated <==> Cut(v, cap, 0) < |v|)
            && (invalid <==> !WellFormed(v[..Cut(v, cap, 0)]))
  {
    hide Logical, Extent, Whole, Unit, Out, Cut, WellFormed, Due;
    var it := new FieldIter(cell, quote);
    var buf := new byte[4](_ => 0);
    ghost var v, base := it.Rest(), w.stream;
    var written: nat := 0;
    truncated, invalid := false, false;
    DueAtFirst(mode, v, cap, base);
    assert v[0..] == v;
    while true
      invariant written <= |v| && it.Valid() && fresh(it) && fresh(buf) && it.Rest() == v[written..]
      invariant w.Valid() && (old(w.err) ==> w.err) && buf != w.buf && !truncated
      invariant Due(mode, v, cap, written, base, w.stream, invalid)
      decreases |v| - written
    {
      ghost var rest := v[written..];
      var got, valid := TakeUnit(it, buf);
      if got == 0 { break; }
      if cap > 0 && written + got > cap {
        truncated := true;
        break;
      }
      DueStep(mode, v, cap, written, base, w.stream, invalid);
      if !valid { invalid := true; }
      WriteUnit(w, buf, got, valid, mode, rest);
      written := written + got;
    }
    DueAtLast(mode, v, cap, written, base, w.stream, invalid);
  }
}
