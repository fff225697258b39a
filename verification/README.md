# ibha-csv-diff: a verified model of the diff engine

This project models the C engine that compares two CSV files (`core/src`), the Java row feed that
prints its input and the push source of its JavaScript binding, and proves what they are for. XXH3
and its two combiners are parameters: only that equal inputs hash equal is used, except where a
statement names a hash without collisions.

Code that works step by step in the original is written step by step here: classes and methods over
arrays, each proved against a specification function, with the theorems stated as lemmas on those
functions. `dafny verify dfyconfig.toml` checks the whole project.

## How the parts compose

- **Cell segments.** `Tokens`, `Myers` and `MyersPass`, `Segments`, `CellReport`, `CellSegments`: the
  capped shortest edit script between two cells, and the report built from it. `CellEdges` and
  `CellCuts` say where its ranges begin and end, `CellMinimal` that it marks no more as changed than any
  script must, `CellRefined` what refining words by characters adds.
- **Parser and row feed.** `Automaton` and `Feed` say what a byte sequence parses to; `Parser` is the
  resumable parser; `IndexShape` is what any accepted input leaves in the index and `Tallies` what its
  counters count. `Records`, `Lines` and `LineEnds` step written lines through the automaton, `Refusals`
  says what it turns down and where; `CsvWriter` is the printer, `RoundTrip` says when printing and
  parsing cancel out.
- **Values and digests.** `Fields`, `Decimals` and `DecimalPass`, `Normalize` and `NormalizeTwice`,
  `Digests`, `RowKeys`, `Mul128`: comparison, canonical forms and hashes that must agree. `Numerals` and
  `Timestamps` say what the values compared are numbers and instants of; `Collisions` says what equal
  digests mean under a hash without collisions.
- **Matching.** `Pairing`, `Probing`, `KeyedMatch`, `ExactMatch`, `Signatures`, `Similarity`,
  `SimilarPairs`, `Moves`.
- **Report.** `Columns` and `Projection` decide what is compared; `ReportOrder` and `Cursor` give the
  rows in order, `ReportRows` says what each of them says; `DiffRun` chains matching, moves and
  anchoring; `TableDiff` carries two parsed inputs through cells, keys and digests to it.
- **Emitters.** `Utf8`, `EmitWriter`, `EmitText`, `EmitValue`, `CsvScan`, `CsvReport`, `CsvDocument`;
  `ReportFields` reads a line of the report by the names in its header.
- **Push source.** `PushProtocol` is the protocol as interleaved atomic steps, `PushSource` the class.

The parser's shape and escape-flag invariants are what normalisation assumes; the agreement of
comparison and digests is what keyed matching assumes; the inverse pairing every matcher leaves is
what move detection, anchoring and the cursor assume; and the document theorem of `LineEnds` serves
both the row feed and the CSV report.

## Where the code differs from what one would expect

Each of these is proved, with its exact condition.

- Field hashing folds a window of 4096 logical bytes on the escaped path and not on the other, so
  equal values of exactly that length hash differently when one side alone carries escapes and the
  hash tells a folded window from an unfolded one (`Fields.EqualValuesHashEqual`). The parser can
  file such a pair (`TableDiff.EdgeCellsSplit`). The digest theorems carry this one exception.
- Where marks are stripped, the output of the row feed loses a byte order mark it opens with, and a
  row of one empty value is read as a blank line; in every other case printing and parsing cancel out
  (`RoundTrip.RoundTripExactly`, for all dialects but those named under "Left out"). The output opens
  with the mark exactly when the first value is written bare and opens with it, unless the delimiter
  is itself a byte of the mark.
- How a cell was quoted shows in its normal value exactly when it holds doubled quotes and its type
  would rewrite the trimmed value (`Normalize.NormalValueIsLogical`, `Normalize.QuotingShows`). For
  parsed cells and a quote byte that can stand neither in a numeral nor in padding, only TIMESTAMP
  values with a fraction that ends in 0 and BOOLEAN values listed as true or false come into
  question (`Normalize.QuotingIsHidden`): `x".0` as a TIMESTAMP and `x"` as a listed BOOLEAN do show
  it (`Normalize.TimestampSeesQuoting`, `Normalize.BooleanSeesQuoting`), while a TIMESTAMP such as
  `a"b` is the same bare and quoted.
- Normalising a second time changes a cell exactly when it holds no doubled quotes and either its
  zero fraction was cut off and leaves padding or one more such fraction behind, or its truth value
  was written as a `1` or `0` that is itself listed for the other truth value
  (`NormalizeTwice.NormalizedTwice`, with an input for each).
- Prefix and suffix stripping never cut a word of the source, but as long as the source goes on only
  its bytes decide, so a word of the target can be cut: `foo bar` against `foob bar`
  (`CellCuts.PrefixCutsTargetWord`, `CellCuts.SuffixCutsTargetWord` and an input for each). The
  comment in the source promises that no word is cut.
- A byte that may not stand behind a closing quote is refused with the number of its field, but behind
  padding with the number of the next one; a second quote behind padding is refused, too
  (`Refusals.JunkAfterQuotes`).
- With a high-water mark of zero, and only then, reader and writer can both be suspended
  (`PushProtocol.NeverBothBlocked`); a suspended write stays so, whatever is read and even after
  `cancel`, until a truthy failure (`PushProtocol.ZeroMarkHoldsWriter`). A falsy error passed to
  `fail` ends the stream instead of failing it, and takes an earlier failure back
  (`PushProtocol.ReadAfterRun`, `PushProtocol.LaterFalsyFailHides`).

## Model

| member | source | states |
|---|---|---|
| Tokens.Tokenize | core/src/segment.c:169-186 | the element table it fills tiles the value from first to last byte with non-empty elements: whole words, whole UTF-8 characters or single bytes |
| Tokens.TokenizedTile | core/src/segment.c:169-186 | elements lie end to end over the whole value, so no byte is skipped or counted twice |
| Tokens.ElementsAreWhole | core/src/segment.c:153-186 | a word element is a maximal run of word bytes or one byte that is none; a character element is one byte and every continuation byte behind it |
| Myers.GivesUpExactly | core/src/segment.c:209-273 | no script is returned exactly when every insert and delete script needs more than 64 edits |
| Myers.ShortestIsShortest | core/src/segment.c:209-273 | otherwise the result rewrites one element sequence into the other, within 64 edits, and no script whatsoever has fewer |
| Myers.ShortestIsScript | core/src/segment.c:244-272 | the path read back from the round that hits pairs only equal elements, uses up both sides and has as many edits as that round |
| Myers.Dominates | core/src/segment.c:209-239 | a script that continues from a point the furthest-reaching path has passed ends at one it has passed: why the greedy pass is optimal |
| Myers.ClampBehind | core/src/segment.c:222-239 | a path that stepped outside the box is never ahead of one that stayed inside: the excess costs edits |
| Myers.FirstHitIsCorner | core/src/segment.c:235-244 | the test "at or past both ends" first succeeds at the corner itself |
| MyersPass.MyersDiff | core/src/segment.c:209-273 | the in-place pass over the diagonal array with a snapshot per round and the backtrack through them computes exactly the shortest script, or -1 |
| MyersPass.Round | core/src/segment.c:222-239 | one round updates every other diagonal in place and leaves the furthest-reaching points of that round, stopping at the first hit |
| MyersPass.Forward | core/src/segment.c:214-242 | the saved snapshots are the furthest-reaching points of every round before the hit |
| MyersPass.Backtrack | core/src/segment.c:244-272 | walking the snapshots backwards from the corner yields the script in reverse |
| Segments.PushCovers | core/src/segment.c:131-149 | merging a new range into the last segment keeps both values tiled by ranges whose neighbours differ in kind |
| Segments.MergeCovers | core/src/segment.c:131-149 | a range that goes on where the last one of its kind ended becomes part of it |
| Segments.CoversRebuilds | core/src/segment.c:131-149 | a tiling report read off gives the source, and applied as a patch gives the target |
| CellReport.CellSegsCover | core/src/segment.c:401-477 | for every mode and limit, the report of two different values tiles both completely, equal ranges holding the same bytes on both sides and no two neighbours being of one kind |
| CellReport.SegmentsRebuildBoth | core/src/segment.c:401-477 | reading equal and delete ranges off the source gives the source; equal ranges and insert ranges give the target |
| CellMinimal.MiddleIsMinimal | core/src/segment.c:456-475 | by words and by characters, the elements of the middle parts that lie in delete and insert ranges are no more than the edits of any script over these elements with at most 64 edits |
| CellRefined.ReplacementsInOrder | core/src/segment.c:329-365 | by words and by characters, no delete range stands right behind an insert range: what was comes before what it became |
| CellRefined.CharactersRefineWords | core/src/segment.c:279-365 | words refined by characters: no byte is marked that the word report leaves alone; inside each replaced run no script over its characters with at most 64 edits changes fewer; and when the words themselves take more than 64 edits it is the word report |
| CellCuts.SegmentsAreWholeCharacters | core/src/segment.c:423-454 | for two well-formed UTF-8 values every range of the report is well formed by itself: no highlight starts or ends mid character, on either side |
| CellCuts.SegmentsAreWholeElements | core/src/segment.c:456-475 | by words and by characters, every range begins and ends at an element of the middle part of its own side or at an end of what was stripped |
| CellCuts.PrefixIsLongest | core/src/segment.c:423-440 | a longer common start than the one stripped would split a character or a word of the source |
| CellCuts.SuffixIsLongest | core/src/segment.c:442-454 | a longer common end than the one stripped would split a character or a word of the source |
| CellCuts.SourceWordsStayWhole | core/src/segment.c:423-454 | when words are compared neither stripping cuts a word of the source |
| CellCuts.PrefixCutsTargetWord | core/src/segment.c:423-440 | prefix stripping cuts a word of the target if and only if the first difference sets a word byte of the target against another byte of the source, both behind a word byte |
| CellCuts.SuffixCutsTargetWord | core/src/segment.c:442-454 | suffix stripping cuts a word of the target if and only if the common end opens with a word byte that starts a character, the target has a word byte before it and the middle of the source ends in none |
| CellCuts.TargetWordCut | core/src/segment.c:423-440 | an input for the first: `foo bar` and `foob bar` |
| CellCuts.TargetWordCutBehind | core/src/segment.c:442-454 | an input for the second: `bar` and `foobar` |
| CellSegments.SegOut.Push | core/src/segment.c:131-149 | the mutable output holds the prefix that fits and goes on counting |
| CellSegments.Refine | core/src/segment.c:279-310 | character refinement of one replacement run, or a plain replacement when it gives up |
| CellSegments.Walk | core/src/segment.c:329-365 | walking the script merges runs of edits and refines them, as the specification of the walk says |
| CellSegments.PrefixLength | core/src/segment.c:423-440 | the common prefix cut back to a boundary of the source |
| CellSegments.EmitMiddle | core/src/segment.c:456-475 | the middle parts are tokenised, compared and walked, or replaced whole |
| CellSegments.CellDiff | core/src/segment.c:401-477 | the whole report for two values; the returned count does not depend on the room in the output |
| Parser.CsvParser.RowEnd | core/src/parse.c:356-430 | the width rule over the columnar index: the first row sets the width, empty excess fields are cut, any other width is an error |
| Parser.CsvParser.Scan | core/src/parse.c:472-547 | skip loops and table steps over a chunk equal stepping the table byte by byte |
| Parser.CsvParser.SkipRun | core/src/parse.c:473-477 | what the two skip loops pass over is what single steps would pass over |
| Feed.SkipIsStep | core/src/parse.c:473-477 | a skipped byte has no effect beyond the cursor |
| Feed.FedMore | core/src/parse.c:445-552 | continuing with one more chunk gives the state of the concatenated input, unless an error already ended the parse |
| Feed.BomDecided | core/src/parse.c:451-470 | once the byte order mark is decided no later byte changes the decision |
| Parser.CsvParser.ParseChunk | core/src/parse.c:641-684 | within the size limit the state depends on the bytes offered and not on how they were cut |
| Parser.CsvParser.ParseFinish | core/src/parse.c:756-794 | finishing gives the parse of all bytes offered as one input |
| Parser.ParseInChunks | core/src/parse.c:641-794 | for every way of cutting an input within the limit: same fields, flags, row boundaries, counts and error as in one piece, cuts inside a mark, a CRLF or a quote pair included |
| IndexShape.ParsedIsShaped | core/src/parse.c:296-430 | for every accepted input all rows have one width and the fields lie in the input, in order, without overlap |
| IndexShape.RowsAreMultiples | core/src/parse.c:356-430 | row r starts at field r times the width and the fields number rows times width |
| IndexShape.ParsedEscapesMeanQuotes | core/src/parse.c:445-552 | the escape flag is only ever set on a field whose value holds a quote: what normalisation relies on |
| Tallies.ParsedCounts | core/src/parse.c:296-312 | for every input the three counters are the numbers of fields filed in quotes, with a doubled quote and with a line end, unless excess fields were cut |
| Records.CellFieldHolds | core/src/parse.c:296-312 | the index entry of a written cell reads back as its value, quoted or not |
| Records.QuotedSteps | core/src/parse.c:72-121 | inside quotes a value with doubled quotes only moves the cursor and sets the flags its bytes call for |
| LineEnds.MixedParses | core/src/parse.c:445-552 | every rectangular document of cells, bare or quoted, any padding behind a closing quote included, under any mixture of LF, CRLF and CR and with or without a last line end, parses to exactly those values, blank lines apart; a quote inside a bare cell is data |
| LineEnds.CrIsLikeLf | core/src/parse.c:477-485 | a bare CR ends a record as an LF does, padding before it included, and an LF right after it belongs to it |
| LineEnds.FinishIsLikeLf | core/src/parse.c:713-754 | the end of input closes an open record as a line end would, behind padding too |
| LineEnds.DocumentParses | core/src/parse.c:445-552 | the same for documents as the two printers write them |
| Refusals.PaddedCell | core/src/parse.c:60-120 | any padding between a closing quote and the delimiter is dropped and the cell filed as without it |
| Refusals.PaddedLast | core/src/parse.c:60-121 | a quoted last cell, then any padding, then LF, CRLF, CR or the end of input leaves the fields, rows and status it leaves without the padding |
| Refusals.JunkAfterQuotes | core/src/parse.c:434-439 | any other byte behind a closing quote, or behind the padding after it, a quote there included, is refused with that byte, its record and a field number: its own, or one more behind padding |
| Refusals.OpenQuoteIsRefused | core/src/parse.c:713-754 | input that ends inside quotes is refused at the record and field where the quote opened |
| Refusals.WidthIsEnforced | core/src/parse.c:356-430 | after any rows one more line is accepted if and only if it is as wide as the first or its excess cells are empty, and then keeps that width; otherwise it is refused with record number and both widths |
| Refusals.LimitsAreEnforced | core/src/parse.c:356-385 | a first line over the column limit is refused with its width, and a line that fits is refused once the row limit is reached |
| CsvWriter.Writer.WriteValue | java/src/main/java/com/ibhatech/csvdiff/CsvWriter.java:60-77 | a value is written quoted exactly when it holds the delimiter, the quote, CR or LF, its quotes doubled |
| CsvWriter.Writer.WriteRows | java/src/main/java/com/ibhatech/csvdiff/CsvWriter.java:39-49 | the bytes fed are the printed form of the rows |
| CsvWriter.PrintThenParse | java/src/main/java/com/ibhatech/csvdiff/CsvWriter.java:43-84 | parsing what was printed gives the rows and cells back, lone empty values apart, when the output does not open with what reads as a byte order mark |
| CsvWriter.BareBomIsLost | core/src/parse.c:451-470 | with an unquoted first value that opens with a byte order mark the parser reads the table without it |
| RoundTrip.RoundTripExactly | java/src/main/java/com/ibhatech/csvdiff/CsvWriter.java:43-84 | printing then parsing is the identity if and only if no row is a lone empty value and the output does not open with a byte order mark that the parser strips, which is so exactly when the first value is bare and opens with the mark, unless the delimiter is a byte of the mark; where marks are stripped, for a quote that is not the first byte of the mark, nor another byte of it next to such a delimiter |
| RoundTrip.SplitMarkIsLost | core/src/parse.c:451-470 | when values and a delimiter print as the mark, the parser never reads the table back: the first row has lost a column, or is read as blank |
| Fields.FieldCmp | core/src/hash.c:305-330 | the fast and the escaped comparison both order fields lexicographically by logical value |
| Fields.LexCmpIsFirstDifference | core/src/hash.c:305-330 | a value comes first if and only if at the first difference it has the smaller byte or has ended |
| Fields.LexCmpTransitive | core/src/hash.c:305-330 | the order is transitive, with equality only when both steps are equal |
| Fields.LexCmpFlip | core/src/hash.c:305-330 | swapping the sides turns the result around, so with the above it is a total order |
| Fields.CmpIsLogicalEquality | core/src/hash.c:305-330 | comparing as equal is having the same logical value |
| Fields.LogicalLen | core/src/hash.c:332-339 | the length of the logical value |
| Fields.FieldCopy | core/src/hash.c:341-356 | the logical value is written, or nothing at all when it does not fit |
| Fields.FieldHash | core/src/hash.c:367-400 | windowed and whole hashing compute a function of the logical value and, at one length, of the escape flag |
| Fields.EqualValuesHashEqual | core/src/hash.c:358-400 | equal logical values hash equal if and only if it is not the case that the value is exactly 4096 bytes long, one side alone carries escapes and the hash tells a folded window from an unfolded one |
| TableDiff.EdgeCellsSplit | core/src/hash.c:367-400 | the exception is in reach: one parsed line files the same 4096-byte value with and without escapes, and the two hash equal only if the hash cannot tell the windows apart |
| Mul128.HalvesAreTheProduct | core/src/hash.c:82-91 | the two words formed from four half products are the high and low word of the true 128-bit product; nothing wraps |
| DecimalPass.CanonicalDecimal | core/src/normalize.c:378-478 | the digit loops over fixed buffers accept and write exactly what the specification accepts and writes, so by `Numerals` the number that was spelled; every output fits the scratch buffer |
| DecimalPass.ReadExponent | core/src/normalize.c:421-436 | the exponent with the sign it was spelled with; one without digits, with junk behind it or past the limit is declined |
| Decimals.CanonicalIsNumberEquality | core/src/normalize.c:378-478 | for any two accepted texts: same canonical bytes if and only if the numerals denote the same number, as exact arithmetic on the sign, digits and exponent read; `Numerals.CanonicalIsNumber` says the same of the text |
| Numerals.SpelledScans | core/src/normalize.c:378-436 | a text spelled from an optional sign, whole digits, optional point and fraction, and an optional e or E with sign and digits is read as exactly these parts, the sign of the exponent included |
| Numerals.ScansIffSpelled | core/src/normalize.c:378-436 | nothing else is read as a numeral |
| Numerals.AcceptedExactly | core/src/normalize.c:378-478 | a spelling is accepted if and only if its significant digits and its result fit the scratch buffer and the exponent stays within its limit |
| Numerals.CanonicalIsNumber | core/src/normalize.c:378-478 | two accepted spellings have the same canonical bytes if and only if they spell the same number, stated without the scanner |
| Numerals.CanonicalSpellsTheNumber | core/src/normalize.c:450-477 | the canonical text is itself a spelling of that number, without plus and without exponent |
| Numerals.ExponentSigns | core/src/normalize.c:421-436 | `1E+1` spells 10 and `1E-1` spells 0.1 |
| Decimals.NormalUnique | core/src/normalize.c:438-448 | one number has one normal form |
| Decimals.RenderReadsBack | core/src/normalize.c:450-477 | reading a canonical text gives the normal form it was written from |
| Decimals.CanonicalIsFixed | core/src/normalize.c:378-478 | a canonical text is its own canonical text |
| Decimals.DeclinedNeverCanonical | core/src/normalize.c:378-478 | a declined text never equals the canonical text of an accepted one |
| Normalize.NormalizeCell | core/src/normalize.c:554-628 | trimming, canonical forms and their order of precedence, and whether the bytes changed |
| Normalize.TrimmedIs | core/src/normalize.c:554-580 | trimming takes off padding alone, at each end only where the settings or a CHAR type ask for it, and there all of it |
| Normalize.UnalteredIsRaw | core/src/normalize.c:554-628 | a cell reported as unaltered is its own normal form, so one hash serves for both digests |
| Normalize.NormalValueIsLogical | core/src/normalize.c:554-628 | for a quote byte that is not padding the normal value depends on the logical value alone if and only if the cell holds no doubled quotes or its type leaves the trimmed value as it is |
| Normalize.QuotingShows | core/src/normalize.c:554-628 | two cells of one logical value have one normal value if and only if both or neither hold doubled quotes, or their type leaves the trimmed value as it is |
| Normalize.QuotingIsHidden | core/src/normalize.c:583-619 | for parsed cells quoting never shows under a type other than TIMESTAMP and BOOLEAN, nor in a value without a quote |
| Normalize.TimestampSeesQuoting | core/src/normalize.c:595-606 | an input: one logical TIMESTAMP value with two normal values |
| Normalize.BooleanSeesQuoting | core/src/normalize.c:607-617 | an input: one logical BOOLEAN value with two normal values |
| NormalizeTwice.NormalizedTwice | core/src/normalize.c:506-628 | normalisation is idempotent on a cell, for every type and setting, if and only if the cell holds doubled quotes or its canonical form neither uncovers padding or one more fraction to cut nor stands in the list of the other truth value |
| NormalizeTwice.ShortenedTwice | core/src/normalize.c:506-533 | an input: `1.0.0` as a TIMESTAMP is shortened twice |
| NormalizeTwice.PaddingComesToLight | core/src/normalize.c:506-576 | an input: `x .0` as a TIMESTAMP loses its fraction and then its padding |
| NormalizeTwice.TruthFlips | core/src/normalize.c:607-617 | an input: with `0` listed as true and `1` as false each is written as the other |
| Normalize.NumericEquality | core/src/normalize.c:554-628 | under a numeric type two cells are equal exactly when both are numerals of the same number, or both are declined with the same trimmed bytes, for a quote byte that can stand neither in a numeral nor in padding |
| Numerals.NumericCellsEqual | core/src/normalize.c:554-628 | two cells that spell accepted numerals are equal under a numeric type if and only if they spell the same number |
| Timestamps.StampsEqual | core/src/normalize.c:506-533 | two timestamps with fractions are shortened to the same bytes if and only if what stands before the point is the same and the fractions are the same number |
| Timestamps.WholeSecondsEqual | core/src/normalize.c:506-533 | a timestamp without fraction equals one with a fraction if and only if that fraction is zero |
| Timestamps.TimestampCellsEqual | core/src/normalize.c:595-606 | the same of two cells under the TIMESTAMP type, neither of which holds doubled quotes |
| Normalize.EqualNormalFormsHashEqual | core/src/normalize.c:346-352 | normal forms that compare equal hash equal, the 4096-byte exception aside |
| Normalize.IsInSet | core/src/normalize.c:536-550 | membership in a comma separated list, ignoring case |
| Normalize.ListedIsEntry | core/src/normalize.c:536-550 | a value is in the list if and only if it is one of its entries up to the case of letters |
| Digests.HashRow | core/src/normalize.c:310-342 | the three digests of a row are the order dependent folds over its columns, and no other row changes; `Collisions` says what each depends on |
| Digests.EqualCellsEqualDigests | core/src/normalize.c:310-342 | rows equal cell by cell under the comparator have equal full and key digests, the 4096-byte exception aside |
| Digests.EqualBytesEqualRawDigest | core/src/normalize.c:310-342 | rows with the same logical values have the same raw digest, the 4096-byte exception aside |
| Collisions.FullDigestDecides | core/src/normalize.c:310-342 | under a hash without collisions two rows have equal full digests if and only if every column compares equal, the 4096-byte exception aside |
| Collisions.KeyDigestDecides | core/src/normalize.c:310-342 | equal key digests if and only if every key column does, or every column when no key is declared |
| Collisions.RawDigestDecides | core/src/normalize.c:310-342 | equal raw digests if and only if every column has the same logical value on both sides, with the same exception |
| Collisions.EqualDigestsEqualCells | core/src/normalize.c:324-342 | equal full digests mean that every cell compares equal: what calling a row unchanged rests on |
| Collisions.CollisionFreeExists | core/src/hash.c:358-400 | there is a hash without collisions, so the four above speak of something |
| Digests.FillCells | core/src/diff.c:536-563 | the cell flags and their counts |
| Digests.CellsEqual | core/src/match.c:50-65 | normalised equality of one column of two rows |
| Digests.ModifiedHasChangedCell | core/src/diff.c:536-590 | a row reported modified has a changed cell, the 4096-byte exception aside |
| Digests.UnchangedHasSuppressedCell | core/src/diff.c:536-590 | an unchanged row whose raw digests differ has a suppressed cell, the 4096-byte exception aside |
| RowKeys.KeysEqual | core/src/match.c:79-86 | two rows have equal keys exactly when every key column has equal normal values |
| RowKeys.DigestsRespectKeys | core/src/normalize.c:310-342 | equal keys have equal key digests, the 4096-byte exception aside, which is all keyed matching assumes of a hash |
| TableDiff.ParsedTablesSuit | core/src/parse.c:332-338 | the rows of two accepted inputs and the digests folded from them meet everything a keyed run asks for, the 4096-byte exception aside |
| TableDiff.ParsedRowsAreHonest | core/src/parse.c:296-312 | every cell of a parsed row meets what normalisation assumes of the escape flag |
| TableDiff.RowsAreTable | core/src/parse.c:296-312 | cell c of data row r has the value in row r, column c of the parsed table |
| TableDiff.ReportedByKey | core/src/match.c:199-228 | after a keyed run a source and a target row are partners if and only if they agree in every key column under its type; partners reported modified differ in a cell, and under a hash without collisions partners reported unchanged agree in every cell |
| Probing.PowerAtLeast | core/src/match.c:38-45 | a power of two at least as large as asked, up to 2 to the 31 |
| Probing.SomeEmpty | core/src/match.c:153-158 | with fewer rows than slots an empty slot exists, so every probe loop ends |
| Probing.InsertKeepsTable | core/src/match.c:176-195 | inserting at the first empty slot keeps every probe path unbroken and rows of one home in insertion order |
| Probing.EmptyEndsPath | core/src/match.c:206-224 | every row of a home sits before the first empty slot of its path |
| KeyedMatch.BuildKeyMap | core/src/match.c:171-197 | indexes distinct keys, or reports the first row whose key an earlier row has |
| KeyedMatch.MatchKeyed | core/src/match.c:199-228 | fails exactly when one side holds a key twice; otherwise pairs are exactly the equal keys, both arrays inverse |
| KeyedMatch.PairedIffEqualKeys | core/src/match.c:199-228 | source row s and target row t are paired if and only if their keys are equal: hash collisions never show |
| ExactMatch.MatchExact | core/src/match.c:234-266 | each target row gets the source row of its digest with its rank, or none when there are no more |
| ExactMatch.FirstFreeHasRank | core/src/match.c:250-262 | the first unconsumed row met on a probe path is the lowest one left |
| ExactMatch.PairedIffSameRank | core/src/match.c:234-266 | the k-th target row of a digest is paired with the k-th source row of it, and with no other |
| ExactMatch.PairsPerDigest | core/src/match.c:234-266 | for every digest exactly min(source count, target count) pairs form |
| Signatures.FitColumns | core/src/match.c:290-298 | the signature is as wide as the entry budget allows; pairing is given up only when one column is too many |
| Signatures.IndexLeftovers | core/src/match.c:308-323 | every free source row is entered under each of its first non-empty cells, and nothing else is |
| Signatures.SigIsFirstFilled | core/src/match.c:308-323 | the signature of a row is the hashes of its first k non-empty cells, or of all when there are fewer |
| Similarity.GatherRow | core/src/match.c:334-353 | the candidates are distinct free rows that share a cell, at most the limit, and all such rows when the limit is not reached |
| Similarity.PickBest | core/src/match.c:355-371 | the highest score wins, ties go to the lowest source row, and each candidate costs one unit of work per column |
| Similarity.ScoreIsShare | core/src/match.c:355-365 | the score is the percentage of columns with equal cells, rounded down |
| SimilarPairs.PairInTurn | core/src/match.c:325-380 | every leftover target row, in order, is settled with its candidates; only pairs are added and the matching stays one to one |
| SimilarPairs.PairSimilar | core/src/match.c:283-381 | total work never exceeds the budget plus one row of candidates, and the pair count is what was added |
| SimilarPairs.AddedPairIsSound | core/src/match.c:283-381 | an added pair shares a cell, scores at least the threshold and is the best of its at most k candidates |
| SimilarPairs.UnpairedHasNoGoodPartner | core/src/match.c:283-381 | below the candidate limit, a row left unpaired has no free partner that shares a cell and reaches the threshold |
| SimilarPairs.MatchAllKeys | core/src/match.c:383-392 | the pairing is the exact stage plus what the second stage adds: no pair of the first is touched, exactly the rows of its pairs are taken, every leftover is settled in turn unless cut short; with the number of pairs added and the bound on the work |
| SimilarPairs.EveryPairIsEarned | core/src/match.c:383-392 | a pair of the result is one of the exact stage, or joins two rows that stage left over which share a cell and score at least the threshold |
| SimilarPairs.NoGoodPairIsMissed | core/src/match.c:383-392 | with nothing cut short, two rows that both stay alone share no cell, score below the threshold, or the target row had its fill of candidates |
| Moves.RankDistances | core/src/match.c:410-421 | over any matching each distance is target rank minus source rank among matched rows, and the distances sum to zero |
| Moves.NoDriftIffInOrder | core/src/match.c:410-421 | all distances are zero if and only if the matched rows are in source order |
| Moves.Patience | core/src/match.c:438-456 | the pile ends are the smallest values that can end an increasing run of each length, and ranks rise along every increasing pair |
| Moves.ClearRun | core/src/match.c:458-462 | following the links clears a rising run as long as the highest rank |
| Moves.KeepingTheMost | core/src/match.c:433-462 | no set of rows whose removal leaves the others in order is smaller than the rows called moved |
| Moves.DetectMoves | core/src/match.c:396-464 | rows not called moved are in order and the called ones as few as possible; unmatched rows are never called moved |
| ReportOrder.AnchorDeletions | core/src/diff.c:330-347 | after the backward pass every list holds exactly its deleted rows in source order, although links and anchors share one array |
| ReportOrder.AnchorIsNearest | core/src/diff.c:330-347 | a deletion is anchored to the target of the nearest earlier matched source row, and before all targets if and only if there is none |
| ReportOrder.ReportIsCompleteAndOrdered | core/src/diff.c:616-640 | the report holds each target row and each unmatched source row once and nothing else, targets in order, deletions behind their anchor and in source order |
| ReportOrder.DeletionsInPlace | core/src/diff.c:330-347 | a target row stands before a deleted source row if and only if deletions go last, or it is no later than the partner of the last matched source row before the deleted one |
| ReportOrder.ReportLength | core/src/diff.c:453-456 | the report has one row per target row and one per deleted row |
| Cursor.Diff.CountRows | core/src/diff.c:440-456 | unchanged, modified and deleted rows add up to the source, added, unchanged and modified ones to the target, and report_rows is the length of the report |
| Cursor.ReportCursor.Next | core/src/diff.c:616-640 | each pull yields the next row of the report, then stops for good: an added or removed row names a row without partner; any other names two partners, is unchanged exactly when their full digests are equal, and has the move of its target row |
| Cursor.ReportCursor.Reset | core/src/diff.c:518-524 | a reset cursor has the whole report before it again |
| Cursor.ReportCursor.Drain | core/src/diff.c:616-640 | draining yields one row per entry of the report: every row says the truth about what it names, every source and target row is named exactly once, and the rows of each kind and the moves are as many as `CountRows` counts |
| DiffRun.Run | core/src/diff.c:392-433 | the run fails exactly on duplicate keys; otherwise the pairing is the one its plan asks for, by key or in two stages, moves and anchors hold together, only matched rows are called moved and only when moves are looked for, and the cursor may open |
| Columns.NameEq | core/src/schema.c:26-49 | column names are equal when their trimmed logical values are |
| Columns.NameIsTrimmed | core/src/schema.c:26-49 | a column name is the logical value of its cell without the padding at its ends |
| Columns.Merge | core/src/schema.c:114-162 | the two-pointer merge maps equal names in rising order and gives up only when the policy forbids what the names show |
| Columns.MatchNames | core/src/schema.c:103-190 | for distinct names it succeeds if and only if a name is shared, the shared names stand in one order and the flags permit the rest |
| Columns.CoversPairsSharedNames | core/src/schema.c:103-190 | a returned map pairs exactly the columns of equal name |
| Projection.PlanColumns | core/src/diff.c:199-313 | compare as is, project, refuse an order or refuse a lost key column: for distinct names each exactly when it should |
| Projection.RemovedColumns | core/src/diff.c:266-274 | the removed columns are exactly those not compared, found in one pass |
| Projection.ProjectSide | core/src/diff.c:110-148 | projected cell (r, c) is parsed cell (r, cols[c]), with shared and with copied index arrays |
| Utf8.WholeIffEncoded | core/src/emit.c:166-187 | the byte tests accept a sequence if and only if it is the encoding of a Unicode scalar value (section 3 of RFC 3629) |
| Utf8.WellFormedIffText | core/src/emit.c:166-187 | a value passes sequence by sequence if and only if it encodes some list of characters |
| EmitWriter.Writer.Write | core/src/emit.c:66-83 | the fixed buffer and the sink together hold everything written, in order; an error means that the sink refused a write, and then it holds a prefix |
| EmitWriter.Writer.PutNumber | core/src/emit.c:93-105 | the decimal digits of any 64-bit number |
| EmitWriter.NumeralSpells | core/src/emit.c:93-105 | the digits written read back as the number, without a leading zero |
| EmitValue.FieldIter.Next | core/src/emit.c:147-160 | the iterator with pushback yields the logical value byte by byte |
| EmitValue.TakeUnit | core/src/emit.c:254-272 | one sequence is taken whole, and a byte that cannot continue it is left for the next |
| EmitValue.WriteValue | core/src/emit.c:245-306 | the output is the escaped value up to the cap; the truncated and invalid marks say exactly whether bytes were cut off or ill formed |
| EmitText.OutIsPrefix | core/src/emit.c:280-284 | a cap yields the output of the longest prefix that ends with a whole sequence and fits |
| EmitText.JsonReadsBack | core/src/emit.c:189-211 | for every byte string the JSON output is a legal string body (section 7 of RFC 8259) and reads as the value with ill-formed sequences replaced; a well-formed value reads back exactly |
| EmitText.JsonIsWellFormed | core/src/emit.c:245-306 | the JSON output is well-formed UTF-8 whatever the input bytes |
| EmitText.CappedJsonReadsBack | core/src/emit.c:245-306 | under a cap the JSON output reads as a whole-character prefix of at most that many bytes, the longest there is |
| EmitText.CsvIsDoubled | core/src/emit.c:226-234 | the CSV output is the value with its quotes doubled, ill-formed bytes untouched |
| CsvScan.Scan | core/src/emit.c:471-507 | one walk decides exactly whether quotes are needed and whether a spreadsheet would read a formula |
| CsvReport.WriteField | core/src/emit.c:509-520 | a field is written as a cell that shows its value, behind an apostrophe when guarded, quoted whenever it must be |
| CsvReport.GuardedIsSafe | core/src/emit.c:495-520 | under the guard nothing shown opens with a formula byte but a plain negative number, and a value that does not open with one is shown as it is |
| CsvReport.WriteLine | core/src/emit.c:555-586 | a line is nine metadata fields and the cells of one side |
| CsvDocument.WriteQuotedName | core/src/emit.c:322-332 | a column name, or one made from its number, is written as a quoted cell |
| CsvDocument.WriteHeader | core/src/emit.c:528-549 | the header line: nine fixed names and every column name quoted |
| CsvDocument.WriteReport | core/src/emit.c:1026-1052 | it fails if and only if the sink refused a write, and then the sink holds a prefix of the report; otherwise exactly the header and the lines of the selected rows reached it |
| CsvDocument.SelectedAreFirst | core/src/emit.c:1029-1032 | the selected rows are the first ones, up to the limit, of those that are not quiet when only changes are asked for |
| CsvDocument.ReportParsesBack | core/src/emit.c:528-586 | every report parses back to its header, metadata and shown cells, whatever the cells hold, when the delimiter cannot occur in the metadata and is no quote or line end |
| CsvDocument.LineHoldsValues | core/src/emit.c:555-586 | with the guard off and no cap the cells read back are exactly the logical values |
| ReportFields.MetadataReadsBack | core/src/emit.c:528-586 | the field under each of the nine names in the header reads back as that datum of the row |
| ReportFields.MadeName | core/src/emit.c:322-332 | a column without a name is headed by `column_` and its number, counted from one |
| ReportFields.LinesOfRow | core/src/emit.c:1034-1048 | a modified row has a line of what it was and then one of what it became, a deleted row only the first, any other only the second; the side field of each says which, and its cells are those of that side |
| PushProtocol.StepConserves | js/packages/core/src/push.ts:45-104 | every atomic step keeps delivered plus queued bytes equal to the written bytes, or drops the queue for good on a cancel |
| PushProtocol.StepWakes | js/packages/core/src/push.ts:45-104 | every step keeps a suspended caller's reason true and its callback in place |
| PushProtocol.NothingLostNothingHoarded | js/packages/core/src/push.ts:45-104 | over every run delivered bytes are a prefix of written bytes and the buffer stays below the mark plus one chunk |
| PushProtocol.NeverBothBlocked | js/packages/core/src/push.ts:39-104 | reader and writer are never both suspended, in any run, if and only if the high-water mark is positive |
| PushProtocol.EndMeansAll | js/packages/core/src/push.ts:79-96 | an end of stream means all bytes were delivered or cancelled and no failure stands; while one stands every read throws |
| PushProtocol.ReadAfterRun | js/packages/core/src/push.ts:45-104 | after any run a read throws if and only if the last `fail` carried a truthy error, and reports the end if and only if it does not throw, the source was ended in some way, and everything was delivered or a cancel dropped the rest |
| PushProtocol.LaterFalsyFailHides | js/packages/core/src/push.ts:70-96 | a failure followed by a falsy one never surfaces on a drained source |
| PushProtocol.ZeroMarkHoldsWriter | js/packages/core/src/push.ts:45-104 | with a mark of zero a writer once suspended stays in its write through every run, reads and a cancel included, until a truthy failure |
| PushProtocol.FalsyErrorEndsStream | js/packages/core/src/push.ts:70-96 | a truthy error surfaces on the next read, a falsy one passes for the end of the stream |
| PushProtocol.WriteResolvesBelowMark | js/packages/core/src/push.ts:45-60 | a write resolves only below the mark |
| PushProtocol.WriterIsReleased | js/packages/core/src/push.ts:79-96 | a suspended writer is released after at most as many reads as chunks are queued, none of which waits |
| PushProtocol.ReaderIsReleased | js/packages/core/src/push.ts:45-104 | a suspended reader is resumed by the next byte, end, failure or cancel |
| PushSource.ByteQueue.Write | js/packages/core/src/push.ts:45-60 | the code up to its first await is the write step of the protocol |
| PushSource.ByteQueue.Turn | js/packages/core/src/push.ts:79-96 | one turn of the read loop is the read step of the protocol |
| PushSource.ByteQueue.Fail | js/packages/core/src/push.ts:70-77 | the fail step: both callers are resumed |
| PushSource.ByteQueue.Cancel | js/packages/core/src/push.ts:98-104 | the cancel step: the queue is dropped and both callers are resumed |

## Left out

- Parser.CsvParser.ParseFinish: does not resolve the header model, and rows are not digested as they end; `Digests.HashRow` is that step on its own.
- Parser.CsvParser.ParseChunk: the borrow mode, growing of the index arrays, size hints and out-of-memory errors are not modelled.
- CsvWriter.Writer.WriteValue: works on the bytes of a value; a null is written like an empty value and character encoding happens before.
- CellSegments.CellDiff: takes the two logical values; the lookup of the row, the column and the missing side is not modelled.
- RoundTrip.RoundTripExactly: where marks are stripped, leaves out a quote that is the first byte of the mark, and a quote and a delimiter that are both bytes of it; then `CsvWriter.PrintThenParse` says what holds whenever the output does not open with the mark.
- Normalize.NormalValueIsLogical: leaves out a quote byte that is a space or a tab, whose doubled pairs trimming could split.
- KeyedMatch.MatchKeyed: reports the two rows of a duplicate key but not the rendered message.
- Projection.ProjectSide: does not restate the digests that are folded again over the projected columns.
- Columns.MatchNames: the call without a map, which only locates a header row and skips the reordering test, is not modelled.
- Cursor.ReportCursor.Next: cell flags are the separate method `Digests.FillCells`, finding counts and a failed context are not modelled.
- EmitValue.WriteValue: the HTML form and the skip and take of a part of a value, which only HTML uses, are not modelled.
- EmitText.ReadString: declines escaped surrogates that do not pair up, which no output contains.
- XXH3 itself and its secret table: a parameter of the model.
- Row and byte counts are bounded by preconditions instead of wrapping at 32 bits.
- Arena, buffers, context lifecycle and error texts: status values and Dafny arrays stand for them.
- JSONL row objects, the HTML and summary emitters, class names and themes: field by field output.
- Header auto-detection, type name tables, schema validation findings and option checks.
- Command line, JNI, WebAssembly loading, file readers and sinks, the worker's message pump.
