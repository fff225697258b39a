/** What `wr_value` writes for a value (core/src/emit.c:189-306): sequence by sequence, escaped for
  * the format, up to a cap; and that the result reads back. */
module EmitText {
  import opened Bytes
  import opened Records
  import opened Utf8

  datatype Mode = Json | Csv

  const BACKSLASH: byte := 0x5C

  function Hex(d: nat): (c: byte)
    requires d < 16
  {
    if d < 10 then 0x30 + d else 0x57 + d
  }

  /** One ASCII byte inside a JSON string. */
  function JsonByte(c: byte): seq<byte>
    requires c < 0x80
  {
    if c == QUOTE then [BACKSLASH, QUOTE]
    else if c == BACKSLASH then [BACKSLASH, BACKSLASH]
    else if c == LF then [BACKSLASH, 0x6E]
    else if c == CR then [BACKSLASH, 0x72]
    else if c == TAB then [BACKSLASH, 0x74]
    else if c == 0x08 then [BACKSLASH, 0x62]
    else if c == 0x0C then [BACKSLASH, 0x66]
    else if c < 0x20 then [BACKSLASH, 0x75, 0x30, 0x30, Hex(c / 16), Hex(c % 16)]
    else [c]
  }

  /** U+FFFD as an escape, and as octets. */
  const FFFD_ESCAPE: seq<byte> := [BACKSLASH, 0x75, 0x66, 0x66, 0x66, 0x64]
  const FFFD: seq<byte> := [0xEF, 0xBF, 0xBD]

  /** What is written for the sequence at the front. */
  function Unit(mode: Mode, v: seq<byte>): seq<byte>
    requires v != []
  {
    var u := v[..Extent(v)];
    match mode
    case Csv => Doubled(u, QUOTE)
    case Json =>
      if !Whole(v) then FFFD_ESCAPE else if |u| == 1 then JsonByte(u[0]) else u
  }

  predicate Over(v: seq<byte>, cap: nat, written: nat)
    requires v != []
  {
    cap > 0 && written + Extent(v) > cap
  }

  /** The whole output, stopping before the first sequence that would pass the cap. */
  function Out(mode: Mode, v: seq<byte>, cap: nat, written: nat): seq<byte>
    decreases |v|
  {
    if v == [] || Over(v, cap, written) then []
    else Unit(mode, v) + Out(mode, v[Extent(v)..], cap, written + Extent(v))
  }

  /** How many bytes of the value the output covers. */
  function Cut(v: seq<byte>, cap: nat, written: nat): (k: nat)
    ensures k <= |v| && (cap > 0 && written <= cap ==> written + k <= cap) && (cap == 0 ==> k == |v|)
    decreases |v|
  {
    if v == [] || Over(v, cap, written) then 0
    else Extent(v) + Cut(v[Extent(v)..], cap, written + Extent(v))
  }

  /** The uncapped output. */
  function Full(mode: Mode, v: seq<byte>): seq<byte>
    decreases |v|
  {
    if v == [] then [] else Unit(mode, v) + Full(mode, v[Extent(v)..])
  }

  lemma UnitPrefix(mode: Mode, v: seq<byte>, m: nat)
    requires v != [] && Extent(v) <= m <= |v|
    ensures v[..m] != [] && Extent(v[..m]) == Extent(v) && Whole(v[..m]) == Whole(v)
    ensures Unit(mode, v[..m]) == Unit(mode, v)
    ensures v[..m][Extent(v)..] == v[Extent(v)..][..m - Extent(v)]
  {
    hide Whole, Extent;
    ExtentPrefix(v, m);
    assert v[..m][..Extent(v)] == v[..Extent(v)];
  }

  /** A cap yields exactly the output of a prefix: the longest that ends with a whole sequence and
    * stays within the cap. */
  lemma {:induction false} OutIsPrefix(mode: Mode, v: seq<byte>, cap: nat, written: nat)
    ensures var k := Cut(v, cap, written);
            && Out(mode, v, cap, written) == Full(mode, v[..k])
            && (k < |v| ==> written + k + Extent(v[k..]) > cap > 0)
            && (WellFormed(v) ==> WellFormed(v[..k]))
    decreases |v|
  {
    hide Whole, Extent, Unit;
    var k := Cut(v, cap, written);
    if v == [] || Over(v, cap, written) {
      assert v[..k] == [] && v[0..] == v;
    } else {
      var e := Extent(v);
      OutIsPrefix(mode, v[e..], cap, written + e);
      UnitPrefix(mode, v, k);
      assert v[e..][k - e..] == v[k..];
    }
  }

  // ---------------------------------------------------------------------- JSON strings

  function HexValue(c: byte): Option<nat> {
    if 0x30 <= c <= 0x39 then Some(Bits(c, 0x30))
    else if 0x41 <= c <= 0x46 then Some(Bits(c, 0x37))
    else if 0x61 <= c <= 0x66 then Some(Bits(c, 0x57))
    else None
  }

  function Hex4(b: seq<byte>): (h: Option<nat>)
    ensures h.Some? ==> h.value < 0x1_0000
  {
    if |b| < 4 || HexValue(b[0]).None? || HexValue(b[1]).None? || HexValue(b[2]).None? || HexValue(b[3]).None? then None
    else Some(Nibbles(HexValue(b[0]).value, HexValue(b[1]).value, HexValue(b[2]).value, HexValue(b[3]).value))
  }

  function Nibbles(a: nat, b: nat, c: nat, d: nat): (n: nat)
    ensures a < 16 && b < 16 && c < 16 && d < 16 ==> n < 0x1_0000
  {
    ((a * 16 + b) * 16 + c) * 16 + d
  }

  function Then(u: seq<byte>, rest: Option<seq<byte>>): Option<seq<byte>> {
    if rest.Some? then Some(u + rest.value) else None
  }

  /** A reader for the body of a JSON string (section 7 of RFC 8259): None when it is not a legal
    * body, otherwise the octets of the characters it denotes. Unpaired surrogate escapes, which
    * denote no character, are declined. */
  function ReadString(b: seq<byte>): Option<seq<byte>>
    decreases |b|
  {
    if b == [] then Some([])
    else if b[0] == BACKSLASH then ReadEscape(b)
    else if b[0] < 0x20 || b[0] == QUOTE || !Whole(b) then None
    else Then(b[..Extent(b)], ReadString(b[Extent(b)..]))
  }

  function ReadEscape(b: seq<byte>): Option<seq<byte>>
    requires b != []
    decreases |b|, 0
  {
    if |b| < 2 then None
    else if b[1] == 0x75 then
      var h := Hex4(b[2..]);
      if h.None? then None
      else if Scalar(h.value) then Then(Encode(h.value), ReadString(b[6..]))
      else if h.value < 0xDC00 && |b| >= 12 && b[6] == BACKSLASH && b[7] == 0x75 then
        var l := Hex4(b[8..]);
        if l.Some? && 0xDC00 <= l.value < 0xE000 then
          Then(Encode(0x1_0000 + (h.value - 0xD800) * 0x400 + (l.value - 0xDC00)), ReadString(b[12..]))
        else None
      else None
    else if ShortEscape(b[1]).Some? then Then([ShortEscape(b[1]).value], ReadString(b[2..]))
    else None
  }

  /** The two-character escapes. */
  function ShortEscape(c: byte): Option<byte> {
    if c == QUOTE || c == BACKSLASH || c == 0x2F then Some(c)
    else if c == 0x62 then Some(0x08)
    else if c == 0x66 then Some(0x0C)
    else if c == 0x6E then Some(LF)
    else if c == 0x72 then Some(CR)
    else if c == 0x74 then Some(TAB)
    else None
  }

  /** A value with every ill-formed sequence replaced by U+FFFD. */
  function Repaired(v: seq<byte>): seq<byte>
    decreases |v|
  {
    if v == [] then []
    else (if Whole(v) then v[..Extent(v)] else FFFD) + Repaired(v[Extent(v)..])
  }

  lemma {:induction false} RepairedWellFormed(v: seq<byte>)
    ensures WellFormed(v) ==> Repaired(v) == v
    ensures WellFormed(Repaired(v))
    decreases |v|
  {
    hide Whole, Extent;
    if v != [] {
      RepairedWellFormed(v[Extent(v)..]);
      assert v == v[..Extent(v)] + v[Extent(v)..];
      if Whole(v) {
        FirstIsWhole(v);
        WellFormedStep(v[..Extent(v)], Repaired(v[Extent(v)..]));
      } else {
        ReplacementWhole();
        WellFormedStep(FFFD, Repaired(v[Extent(v)..]));
      }
    }
  }

  lemma ReplacementWhole()
    ensures Whole(FFFD) && Extent(FFFD) == 3 && Encode(0xFFFD) == FFFD
  {
    EncodedPasses(0xFFFD);
    TailsAll(FFFD[1..], 2);
    assert FFFD[..3] == FFFD;
  }

  lemma AsciiWhole(c: byte, rest: seq<byte>)
    requires c < 0x80
    ensures Whole([c] + rest) && Extent([c] + rest) == 1 && ([c] + rest)[1..] == rest && ([c] + rest)[..1] == [c]
  {
  }

  /** What is written for one sequence reads back as that sequence, or as U+FFFD. */
  lemma UnitReads(v: seq<byte>, rest: seq<byte>)
    requires v != []
    ensures ReadString(Unit(Json, v) + rest) == Then(if Whole(v) then v[..Extent(v)] else FFFD, ReadString(rest))
  {
    var u := v[..Extent(v)];
    if !Whole(v) {
      FffdReads(rest);
    } else if |u| == 1 {
      assert u == [u[0]];
      JsonByteReads(u[0], rest);
    } else {
      FirstIsWhole(v);
      WholeStands(u, rest);
      assert (u + rest)[|u|..] == rest && (u + rest)[..|u|] == u;
      assert u[0] >= 0x80;
    }
  }

  lemma FffdReads(rest: seq<byte>)
    ensures ReadString(FFFD_ESCAPE + rest) == Then(FFFD, ReadString(rest))
  {
    ReplacementWhole();
    var b := FFFD_ESCAPE + rest;
    assert b[2..][0] == 0x66 && b[2..][1] == 0x66 && b[2..][2] == 0x66 && b[2..][3] == 0x64;
    assert b[6..] == rest;
  }

  lemma JsonByteReads(c: byte, rest: seq<byte>)
    requires c < 0x80
    ensures ReadString(JsonByte(c) + rest) == Then([c], ReadString(rest))
  {
    var b := JsonByte(c) + rest;
    if |JsonByte(c)| == 2 {
      assert b[2..] == rest;
    } else if |JsonByte(c)| == 6 {
      ControlReads(c, rest);
    } else {
      AsciiWhole(c, rest);
    }
  }

  lemma HexBack(d: nat)
    requires d < 16
    ensures HexValue(Hex(d)) == Some(d)
  {
  }

  lemma ControlReads(c: byte, rest: seq<byte>)
    requires c < 0x20 && |JsonByte(c)| == 6
    ensures ReadString(JsonByte(c) + rest) == Then([c], ReadString(rest))
  {
    hide ReadString;
    var b := JsonByte(c) + rest;
    HexBack(c / 16);
    HexBack(c % 16);
    HexBack(0);
    assert b[2..][0] == 0x30 && b[2..][1] == 0x30 && b[2..][2] == Hex(c / 16) && b[2..][3] == Hex(c % 16);
    assert Hex4(b[2..]) == Some(c);
    assert b[6..] == rest;
    EscapeReads(b);
  }

  lemma EscapeReads(b: seq<byte>)
    requires b != [] && b[0] == BACKSLASH
    ensures ReadString(b) == ReadEscape(b)
  {
  }

  /** Whatever the bytes, the JSON output is a legal string body that reads as the value with its
    * ill-formed sequences replaced; a well-formed value reads back exactly. */
  lemma {:induction false} JsonReadsBack(v: seq<byte>)
    ensures ReadString(Full(Json, v)) == Some(Repaired(v))
    ensures WellFormed(v) ==> ReadString(Full(Json, v)) == Some(v)
    decreases |v|
  {
    hide Whole, Extent, Unit;
    RepairedWellFormed(v);
    if v != [] {
      JsonReadsBack(v[Extent(v)..]);
      UnitReads(v, Full(Json, v[Extent(v)..]));
    }
  }

  /** The output is itself well-formed UTF-8 (section 4 of RFC 3629). */
  lemma {:induction false} JsonIsWellFormed(v: seq<byte>)
    ensures WellFormed(Full(Json, v))
    decreases |v|
  {
    hide Whole, Extent;
    if v != [] {
      JsonIsWellFormed(v[Extent(v)..]);
      UnitWellFormed(v);
      WellFormedJoin(Unit(Json, v), Full(Json, v[Extent(v)..]));
    }
  }

  lemma {:induction false} AsciiWellFormed(b: seq<byte>)
    requires forall i :: 0 <= i < |b| ==> b[i] < 0x80
    ensures WellFormed(b)
  {
    if b != [] {
      AsciiWhole(b[0], b[1..]);
      assert b == [b[0]] + b[1..];
      AsciiWellFormed(b[1..]);
    }
  }

  lemma UnitWellFormed(v: seq<byte>)
    requires v != []
    ensures WellFormed(Unit(Json, v))
  {
    var u := v[..Extent(v)];
    if !Whole(v) || |u| == 1 {
      AsciiWellFormed(Unit(Json, v));
    } else {
      FirstIsWhole(v);
      WellFormedStep(u, []);
      assert u + [] == u;
    }
  }

  /** A capped JSON value: legal, well-formed, and for well-formed text exactly its longest prefix of
    * whole characters within the cap. */
  lemma CappedJsonReadsBack(v: seq<byte>, cap: nat)
    ensures var k := Cut(v, cap, 0);
            && ReadString(Out(Json, v, cap, 0)) == Some(Repaired(v[..k])) && WellFormed(Out(Json, v, cap, 0))
            && (cap > 0 ==> k <= cap) && (k < |v| ==> k + Extent(v[k..]) > cap)
            && (WellFormed(v) ==> WellFormed(v[..k]) && ReadString(Out(Json, v, cap, 0)) == Some(v[..k]))
  {
    hide ReadString, WellFormed, Repaired, Full;
    OutIsPrefix(Json, v, cap, 0);
    JsonReadsBack(v[..Cut(v, cap, 0)]);
    JsonIsWellFormed(v[..Cut(v, cap, 0)]);
  }

  // -------------------------------------------------------------------------------- CSV

  lemma {:induction false} DoubledJoin(a: seq<byte>, b: seq<byte>, quote: byte)
    ensures Doubled(a + b, quote) == Doubled(a, quote) + Doubled(b, quote)
  {
    if a == [] {
      assert a + b == b;
    } else {
      DoubledJoin(a[1..], b, quote);
      assert (a + b)[1..] == a[1..] + b && (a + b)[0] == a[0];
      JoinThree(if a[0] == quote then [quote, quote] else [a[0]], Doubled(a[1..], quote), Doubled(b, quote));
    }
  }

  lemma JoinThree(a: seq<byte>, b: seq<byte>, c: seq<byte>)
    ensures a + (b + c) == (a + b) + c
  {
  }

  /** The CSV output is the value with its quotes doubled, well formed or not. */
  lemma {:induction false} CsvIsDoubled(v: seq<byte>)
    ensures Full(Csv, v) == Doubled(v, QUOTE)
    decreases |v|
  {
    hide Whole, Extent, Doubled;
    if v == [] {
      assert Doubled(v, QUOTE) == [] by { NoneDoubled(); }
    } else {
      CsvIsDoubled(v[Extent(v)..]);
      DoubledJoin(v[..Extent(v)], v[Extent(v)..], QUOTE);
      assert v == v[..Extent(v)] + v[Extent(v)..];
    }
  }

  lemma NoneDoubled()
    ensures Doubled([], QUOTE) == []
  {
  }
}
