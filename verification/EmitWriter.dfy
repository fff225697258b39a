/** The emitters' output (core/src/emit.c:57-112): bytes gather in a fixed buffer that is handed to a
  * sink whenever it is full. */
module EmitWriter {
  import opened Bytes

  const EMIT_BUF: nat := 8192

  /** A sink that takes a number of writes and then refuses. */
  class Sink {
    var taken: seq<byte>
    var patience: nat
    /** A write was refused at some time. */
    ghost var refused: bool

    constructor (patience: nat)
      ensures taken == [] && this.patience == patience && !refused
    {
      taken, this.patience, refused := [], patience, false;
    }

    method Write(bytes: seq<byte>) returns (ok: bool)
      modifies this
      ensures ok == (old(patience) > 0)
      ensures taken == if ok then old(taken) + bytes else old(taken)
      ensures refused == (old(refused) || !ok)
    {
      if patience == 0 {
        refused := true;
        return false;
      }
      taken, patience := taken + bytes, patience - 1;
      ok := true;
    }
  }

  class Writer {
    const sink: Sink
    const buf: array<byte>
    var len: nat
    var err: bool
    /** Everything written so far, whether it has reached the sink or not. */
    ghost var stream: seq<byte>

    /** An error means that the sink refused a write, and nothing else does. Until then the sink and the
      * buffer together hold the stream; afterwards the sink keeps the prefix it had taken. */
    ghost predicate Valid()
      reads this, sink, buf
    {
      && buf.Length == EMIT_BUF && len <= EMIT_BUF && (!err ==> len < EMIT_BUF) && (err <==> sink.refused)
      && if err then sink.taken <= stream else sink.taken + buf[..len] == stream
    }

    constructor (sink: Sink)
      requires sink.taken == [] && !sink.refused
      ensures Valid() && fresh(buf) && this.sink == sink && stream == [] && !err && len == 0
    {
      this.sink := sink;
      buf := new byte[EMIT_BUF](_ => 0);
      len, err, stream := 0, false, [];
    }

    method Flush()
      requires buf.Length == EMIT_BUF && len <= EMIT_BUF && (err <==> sink.refused)
      requires if err then sink.taken <= stream else sink.taken + buf[..len] == stream
      modifies this`len, this`err, sink
      ensures Valid() && (old(err) ==> err) && (!err ==> len == 0 && sink.taken == stream)
    {
      if err || len == 0 { return; }
      var ok := sink.Write(buf[..len]);
      if !ok { err := true; }
      len := 0;
    }

    method Put(c: byte)
      requires Valid()
      modifies this`len, this`err, this`stream, sink, buf
      ensures Valid() && stream == old(stream) + [c] && (old(err) ==> err)
    {
      stream := stream + [c];
      if err { return; }
      ghost var before: seq<byte> := buf[..len];
      buf[len] := c;
      len := len + 1;
      assert buf[..len] == before + [c];
      if len == EMIT_BUF { Flush(); }
    }

    /** Copies the bytes into the buffer, room by room. */
    method Write(bytes: seq<byte>)
      requires Valid()
      modifies this`len, this`err, this`stream, sink, buf
      ensures Valid() && stream == old(stream) + bytes && (old(err) ==> err)
    {
      ghost var base := stream;
      var at: nat := 0;
      while at < |bytes| && !err
        invariant at <= |bytes| && Valid() && stream == base + bytes[..at] && (old(err) ==> err)
        decreases |bytes| - at
      {
        var take: nat := Min(|bytes| - at, EMIT_BUF - len);
        Fill(bytes[at..at + take]);
        assert bytes[..at + take] == bytes[..at] + bytes[at..at + take];
        at := at + take;
        if len == EMIT_BUF { Flush(); }
      }
      ghost var rest := bytes[at..];
      assert bytes == bytes[..at] + rest;
      stream := stream + rest;
    }

    /** Appends bytes for which there is room. */
    method Fill(bytes: seq<byte>)
      requires Valid() && !err && len + |bytes| <= EMIT_BUF
      modifies this`len, this`stream, buf
      ensures len == old(len) + |bytes| <= buf.Length && stream == old(stream) + bytes
      ensures sink.taken + buf[..len] == stream
    {
      ghost var before: seq<byte> := buf[..len];
      var i: nat := 0;
      while i < |bytes|
        invariant i <= |bytes| && len == old(len) && stream == old(stream) && buf[..len] == before
        invariant forall k :: 0 <= k < i ==> buf[len + k] == bytes[k]
      {
        buf[len + i] := bytes[i];
        i := i + 1;
      }
      len := len + |bytes|;
      assert buf[..len] == before + bytes;
      stream := stream + bytes;
    }

    /** A number in decimal, its digits collected from the low end and written from the high end. */
    method PutNumber(v: nat)
      requires Valid() && v < 0x1_0000_0000_0000_0000
      modifies this`len, this`err, this`stream, sink, buf
      ensures Valid() && stream == old(stream) + Numeral(v) && (old(err) ==> err)
    {
      hide Numeral, Reversed;
      if v == 0 {
        NumeralZero();
        Put(0x30);
        return;
      }
      var tmp, n := DigitsLowFirst(v);
      ghost var base, digits: seq<byte> := stream, tmp[..n];
      while n > 0
        invariant n <= |digits| <= 20 == tmp.Length && tmp[..n] == digits[..n] && fresh(tmp) && Valid()
        invariant (old(err) ==> err)
        invariant stream + Reversed(digits[..n]) == base + Reversed(digits)
      {
        n := n - 1;
        LastFirst(digits[..n + 1]);
        assert digits[..n + 1][..n] == digits[..n];
        assert tmp[n] == tmp[..n + 1][n] == digits[n];
        Put(tmp[n]);
      }
      assert digits[..0] == [];
      NoWidth();
    }

    method PutSigned(v: int)
      requires Valid() && -0x8000_0000 <= v < 0x8000_0000
      modifies this`len, this`err, this`stream, sink, buf
      ensures Valid() && stream == old(stream) + SignedNumeral(v) && (old(err) ==> err)
    {
      if v < 0 {
        Put(0x2D);
        PutNumber(0 - v);
      } else {
        PutNumber(v);
      }
    }
  }

  /** The digits of a number, lowest first. */
  method DigitsLowFirst(v: nat) returns (tmp: array<byte>, n: nat)
    requires 0 < v < 0x1_0000_0000_0000_0000
    ensures fresh(tmp) && n <= 20 == tmp.Length && Reversed(tmp[..n]) == Numeral(v)
  {
    hide Numeral, Reversed, Width;
    tmp := new byte[20](_ => 0);
    var rest: nat := v;
    n := 0;
    DigitsBound(v);
    NoWidth();
    assert tmp[..0] == [];
    while rest > 0
      invariant n + Width(rest) == Width(v) <= 20 && fresh(tmp)
      invariant Numeral(v) == (if rest > 0 then Numeral(rest) else []) + Reversed(tmp[..n])
      decreases rest
    {
      WidthStep(rest);
      ghost var t0: seq<byte> := tmp[..n];
      tmp[n] := 0x30 + rest % 10;
      assert tmp[..n + 1] == t0 + [0x30 + rest % 10];
      NumeralStep(rest, t0);
      n := n + 1;
      rest := rest / 10;
    }
  }

  function Numeral(v: nat): (d: seq<byte>)
    ensures d != [] && forall i :: 0 <= i < |d| ==> 0x30 <= d[i] <= 0x39
  {
    if v < 10 then [0x30 + v] else Numeral(v / 10) + [0x30 + v % 10]
  }

  function SignedNumeral(v: int): seq<byte> {
    if v < 0 then [0x2D] + Numeral(0 - v) else Numeral(v)
  }

  /** The number a row of digits spells. */
  function Spelled(d: seq<byte>): nat
    requires forall i :: 0 <= i < |d| ==> 0x30 <= d[i] <= 0x39
  {
    if d == [] then 0 else Spelled(d[..|d| - 1]) * 10 + Digit(d[|d| - 1])
  }

  lemma NumeralZero()
    ensures Numeral(0) == [0x30]
  {
  }

  lemma NoWidth()
    ensures Width(0) == 0 && Reversed([]) == []
  {
  }

  function Digit(c: byte): nat
    requires 0x30 <= c
  {
    c - 0x30
  }

  /** Reading the digits back gives the number, and there is no leading zero. */
  lemma {:induction false} NumeralSpells(v: nat)
    ensures Spelled(Numeral(v)) == v
    ensures |Numeral(v)| > 1 || v >= 10 ==> Numeral(v)[0] != 0x30
    ensures v > 0 ==> Numeral(v)[0] != 0x30
  {
    if v >= 10 {
      NumeralSpells(v / 10);
      assert Numeral(v)[..|Numeral(v)| - 1] == Numeral(v / 10);
    } else {
      assert Numeral(v)[..0] == [];
    }
  }

  function Width(v: nat): nat {
    if v == 0 then 0 else 1 + Width(v / 10)
  }

  function Pow10(k: nat): (p: nat)
    ensures p > 0
  {
    if k == 0 then 1 else 10 * Pow10(k - 1)
  }

  lemma {:induction false} WidthBound(v: nat, k: nat)
    requires v < Pow10(k)
    ensures Width(v) <= k
    decreases k
  {
    if v > 0 { WidthBound(v / 10, k - 1); }
  }

  lemma PowFive(k: nat)
    ensures Pow10(k + 5) == 100_000 * Pow10(k)
  {
    assert Pow10(k + 2) == 100 * Pow10(k);
    assert Pow10(k + 4) == 100 * Pow10(k + 2);
  }

  /** Twenty digits hold every 64-bit number. */
  lemma DigitsBound(v: nat)
    requires v < 0x1_0000_0000_0000_0000
    ensures Width(v) <= 20
  {
    hide Pow10;
    PowFive(0);
    PowFive(5);
    PowFive(10);
    PowFive(15);
    PowNone();
    WidthBound(v, 20);
  }

  lemma PowNone()
    ensures Pow10(0) == 1
  {
  }

  lemma WidthStep(rest: nat)
    requires rest > 0
    ensures Width(rest) == 1 + Width(rest / 10)
  {
  }

  function Reversed(d: seq<byte>): (r: seq<byte>)
    ensures |r| == |d|
  {
    if d == [] then [] else Reversed(d[1..]) + [d[0]]
  }

  lemma {:induction false} LastFirst(d: seq<byte>)
    requires d != []
    ensures Reversed(d) == [d[|d| - 1]] + Reversed(d[..|d| - 1])
  {
    if |d| > 1 {
      LastFirst(d[1..]);
      assert d[1..][..|d| - 2] == d[..|d| - 1][1..];
    } else {
      assert d[..0] == [] && d[1..] == [];
    }
  }

  lemma NumeralStep(rest: nat, low: seq<byte>)
    requires rest > 0
    ensures Numeral(rest) + Reversed(low)
         == (if rest / 10 > 0 then Numeral(rest / 10) else []) + Reversed(low + [0x30 + rest % 10])
  {
    var d: byte := 0x30 + rest % 10;
    NumeralLast(rest);
    ReversedPush(low, d);
  }

  lemma NumeralLast(rest: nat)
    requires rest > 0
    ensures Numeral(rest) == (if rest / 10 > 0 then Numeral(rest / 10) else []) + [0x30 + rest % 10]
  {
  }

  lemma ReversedPush(low: seq<byte>, d: byte)
    ensures Reversed(low + [d]) == [d] + Reversed(low)
  {
    hide Reversed;
    LastFirst(low + [d]);
    assert (low + [d])[..|low|] == low;
  }
}
