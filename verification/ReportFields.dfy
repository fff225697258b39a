/** Reading the CSV report by its header (core/src/emit.c:528-586): the field under each of the nine fixed
  * names is that datum of the row, and the values of a line are those of the side it names. */
module ReportFields {
  import opened Bytes
  import opened Automaton
  import opened Normalize
  import opened Records
  import opened Lines
  import opened EmitWriter
  import opened CsvReport
  import opened CsvDocument

  /** The nine fixed names. */
  function Name(j: nat): (s: string)
    requires j < 9
    ensures IsAscii(s)
  {
    if j == 0 then "schemaVersion" else if j == 1 then "kind" else if j == 2 then "side"
    else if j == 3 then "moved" else if j == 4 then "moveDistance" else if j == 5 then "sourceRow"
    else if j == 6 then "targetRow" else if j == 7 then "changedCells" else "findings"
  }

  lemma HeaderNames(j: nat)
    requires j < 9
    ensures HeaderTexts()[j] == Ascii(Name(j))
  {
  }

  lemma NamesApart(i: nat, j: nat)
    requires i < 9 && j < 9 && i != j
    ensures Ascii(Name(i)) != Ascii(Name(j))
  {
    var x, y := Ascii(Name(i)), Ascii(Name(j));
    assert |x| != |y| || x[0] != y[0];
  }

  /** The field holds this word. */
  predicate Says(t: seq<byte>, word: string) {
    IsAscii(word) && t == Ascii(word)
  }

  /** Column i stands under this name. */
  predicate Headed(i: nat, name: string) {
    i < 9 && Says(HeaderTexts()[i], name)
  }

  lemma HeadedOnce(i: nat, j: nat)
    requires j < 9
    ensures Headed(i, Name(j)) <==> i == j
  {
    hide HeaderTexts, Ascii, Name, IsAscii;
    if i < 9 {
      HeaderNames(i);
      if i != j { NamesApart(i, j); }
    }
  }

  // ------------------------------------------------------------------------- the fields

  predicate DigitText(t: seq<byte>) {
    forall i :: 0 <= i < |t| ==> 0x30 <= t[i] <= 0x39
  }

  /** A decimal number as a reader takes it. */
  function ReadNumber(t: seq<byte>): int {
    if t != [] && t[0] == 0x2D && DigitText(t[1..]) then 0 - Spelled(t[1..])
    else if DigitText(t) then Spelled(t)
    else 0
  }

  /** A row number, counted from one; an empty field is no row. */
  function ReadRow(t: seq<byte>): int {
    if t == [] then NO_ROW else ReadNumber(t) - 1
  }

  lemma NumeralReads(v: nat)
    ensures ReadNumber(Numeral(v)) == v && Numeral(v) != []
  {
    NumeralSpells(v);
    hide Numeral, Spelled;
  }

  lemma SignedReads(v: int)
    ensures ReadNumber(SignedNumeral(v)) == v
  {
    if v < 0 { NegativeReads(0 - v); } else { NumeralReads(v); }
    hide ReadNumber, Numeral;
  }

  lemma NegativeReads(n: nat)
    ensures ReadNumber([0x2D] + Numeral(n)) == 0 - n
  {
    NumeralSpells(n);
    hide Numeral, Spelled;
    assert ([0x2D] + Numeral(n))[1..] == Numeral(n);
  }

  lemma WordsApart()
    ensures Ascii("source") != Ascii("target") && Ascii("true") != Ascii("false")
    ensures Ascii("unchanged") != Ascii("modified") && Ascii("unchanged") != Ascii("added")
          && Ascii("unchanged") != Ascii("deleted")
    ensures Ascii("modified") != Ascii("added") && Ascii("modified") != Ascii("deleted") && Ascii("added") != Ascii("deleted")
  {
    assert Ascii("source")[0] != Ascii("target")[0];
    assert |Ascii("true")| != |Ascii("false")|;
    assert |Ascii("unchanged")| == 9 && |Ascii("modified")| == 8 && |Ascii("added")| == 5 && |Ascii("deleted")| == 7;
  }

  /** The words of the fields that hold one. */
  lemma WordsRead(r: RowInfo, sourceSide: bool)
    requires ValidInfo(r)
    ensures var ts := MetaTexts(r, sourceSide);
            && (Says(ts[1], "unchanged") <==> r.kind == 0) && (Says(ts[1], "modified") <==> r.kind == 1)
            && (Says(ts[1], "added") <==> r.kind == 2) && (Says(ts[1], "deleted") <==> r.kind == 3)
            && (Says(ts[2], "source") <==> sourceSide) && (Says(ts[2], "target") <==> !sourceSide)
            && (Says(ts[3], "true") <==> r.moved) && (Says(ts[3], "false") <==> !r.moved)
  {
    hide Numeral, SignedNumeral, Ascii;
    WordsApart();
  }

  lemma NumbersRead(r: RowInfo, sourceSide: bool)
    requires ValidInfo(r)
    ensures var ts := MetaTexts(r, sourceSide);
            && ReadNumber(ts[0]) == SCHEMA_VERSION && ReadNumber(ts[4]) == r.distance
            && ReadRow(ts[5]) == r.source && ReadRow(ts[6]) == r.target
            && ReadNumber(ts[7]) == r.changed && ReadNumber(ts[8]) == r.findings
  {
    hide Numeral, SignedNumeral, ReadNumber, Ascii;
    NumeralReads(SCHEMA_VERSION);
    SignedReads(r.distance);
    NumeralReads(r.source + 1);
    NumeralReads(r.target + 1);
    NumeralReads(r.changed);
    NumeralReads(r.findings);
  }

  /** The nine names, each over its own column and no other. */
  lemma EachHeadsItsColumn(i: nat)
    ensures (Headed(i, "schemaVersion") <==> i == 0) && (Headed(i, "kind") <==> i == 1) && (Headed(i, "side") <==> i == 2)
    ensures (Headed(i, "moved") <==> i == 3) && (Headed(i, "moveDistance") <==> i == 4) && (Headed(i, "sourceRow") <==> i == 5)
    ensures (Headed(i, "targetRow") <==> i == 6) && (Headed(i, "changedCells") <==> i == 7)
          && (Headed(i, "findings") <==> i == 8)
  {
    hide Headed;
    HeadedOnce(i, 0);
    HeadedOnce(i, 1);
    HeadedOnce(i, 2);
    HeadedOnce(i, 3);
    HeadedOnce(i, 4);
    HeadedOnce(i, 5);
    HeadedOnce(i, 6);
    HeadedOnce(i, 7);
    HeadedOnce(i, 8);
  }

  /** The field under each name reads back as that datum. */
  lemma MetadataReadsBack(r: RowInfo, sourceSide: bool, i: nat)
    requires ValidInfo(r) && i < 9
    ensures var t := MetaTexts(r, sourceSide)[i];
            && (Headed(i, "schemaVersion") ==> ReadNumber(t) == SCHEMA_VERSION)
            && (Headed(i, "kind") ==> (Says(t, "unchanged") <==> r.kind == 0) && (Says(t, "modified") <==> r.kind == 1)
                                      && (Says(t, "added") <==> r.kind == 2) && (Says(t, "deleted") <==> r.kind == 3))
            && (Headed(i, "side") ==> (Says(t, "source") <==> sourceSide) && (Says(t, "target") <==> !sourceSide))
            && (Headed(i, "moved") ==> (Says(t, "true") <==> r.moved) && (Says(t, "false") <==> !r.moved))
            && (Headed(i, "moveDistance") ==> ReadNumber(t) == r.distance)
            && (Headed(i, "sourceRow") ==> ReadRow(t) == r.source)
            && (Headed(i, "targetRow") ==> ReadRow(t) == r.target)
            && (Headed(i, "changedCells") ==> ReadNumber(t) == r.changed)
            && (Headed(i, "findings") ==> ReadNumber(t) == r.findings)
  {
    hide Headed, ReadNumber, ReadRow, Says, MetaTexts;
    EachHeadsItsColumn(i);
    WordsRead(r, sourceSide);
    NumbersRead(r, sourceSide);
  }

  /** A column without a name is headed by one made from its number, counted from one. */
  lemma MadeName(column: nat, quote: byte)
    ensures var n := ColumnName(None, column, quote);
            |n| > 7 && Says(n[..7], "column_") && ReadNumber(n[7..]) == column + 1
  {
    hide Numeral, ReadNumber;
    var n := ColumnName(None, column, quote);
    NumeralReads(column + 1);
    assert n[..7] == Ascii("column_") && n[7..] == Numeral(column + 1);
  }

  // --------------------------------------------------------------------------- the sides

  /** The line shows these cells behind its metadata. */
  ghost predicate Shows(line: seq<Cell>, cells: seq<Option<RawCell>>, quote: byte, o: CellOpts) {
    && |line| == 9 + (if o.values then |cells| else 0)
    && (o.values ==> forall c :: 0 <= c < |cells| ==>
          line[9 + c].v == if cells[c].None? then [] else Shown(LogicalOf(cells[c].value, quote), o))
  }

  /** The line of one side: its `side` field says which, and its values are those of that side. */
  ghost predicate SideLine(line: seq<Cell>, r: ReportRow, sourceSide: bool, quote: byte, o: CellOpts)
    requires ValidInfo(r.info)
  {
    && |line| >= 9 && Written(line)[..9] == MetaTexts(r.info, sourceSide)
    && Shows(line, if sourceSide then r.source else r.target, quote, o)
  }

  lemma LineIsOfSide(r: ReportRow, sourceSide: bool, quote: byte, d: Dialect, o: CellOpts)
    requires ValidInfo(r.info)
    ensures SideLine(LineCells(r.info, sourceSide, if sourceSide then r.source else r.target, quote, d, o), r,
          sourceSide, quote, o)
  {
    hide MetaTexts, Written, Bare, Shows, ValueCells;
    var cells := if sourceSide then r.source else r.target;
    HeadWritten(MetaTexts(r.info, sourceSide), if o.values then ValueCells(cells, quote, d, o) else []);
    ValuesShow(Bare(MetaTexts(r.info, sourceSide)), cells, quote, d, o);
  }

  lemma ValuesShow(head: seq<Cell>, cells: seq<Option<RawCell>>, quote: byte, d: Dialect, o: CellOpts)
    requires |head| == 9
    ensures Shows(head + if o.values then ValueCells(cells, quote, d, o) else [], cells, quote, o)
  {
    hide Shown, LogicalOf, ValueCells, ValueCell;
    if o.values {
      var line := head + ValueCells(cells, quote, d, o);
      forall c | 0 <= c < |cells|
        ensures line[9 + c].v == if cells[c].None? then [] else Shown(LogicalOf(cells[c].value, quote), o)
      {
        assert line[9 + c] == ValueCells(cells, quote, d, o)[c];
        ValueShows(cells[c], quote, d, o);
      }
    }
  }

  lemma ValueShows(cell: Option<RawCell>, quote: byte, d: Dialect, o: CellOpts)
    ensures ValueCell(cell, quote, d, o).v == if cell.None? then [] else Shown(LogicalOf(cell.value, quote), o)
  {
    hide Shown, LogicalOf;
  }

  lemma HeadWritten(ts: seq<seq<byte>>, rest: seq<Cell>)
    ensures |Bare(ts) + rest| >= |ts| && Written(Bare(ts) + rest)[..|ts|] == ts
  {
    var line := Bare(ts) + rest;
    var w := Written(line)[..|ts|];
    assert forall i :: 0 <= i < |ts| ==> w[i] == line[i].v == ts[i];
    assert w == ts;
  }

  /** A modified row has a line of what it was and then one of what it became, a deleted row only the first,
    * any other row only the second. */
  lemma LinesOfRow(r: ReportRow, quote: byte, d: Dialect, o: CellOpts)
    requires ValidInfo(r.info)
    ensures var ls := RowLines(r, quote, d, o);
            if r.info.kind == 1 then |ls| == 2 && SideLine(ls[0], r, true, quote, o) && SideLine(ls[1], r, false, quote, o)
            else |ls| == 1 && SideLine(ls[0], r, r.info.kind == 3, quote, o)
  {
    hide SideLine, LineCells;
    LineIsOfSide(r, true, quote, d, o);
    LineIsOfSide(r, false, quote, d, o);
  }
}
