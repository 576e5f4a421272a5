/** `IOUtility`: the CSV writer as a function producing the written characters,
    and the stop decision of `readAll` as a loop over abstract read events. */
module IoUtility {
  import opened Text
  import opened CsvFormats

  /** U+FEFF, the character the UTF-8 byte-order mark EF BB BF encodes. */
  const ByteOrderMark: char := '\U{FEFF}'

  // ---------------------------------------------------------------- writeCSV

  /** What one row becomes: its cells joined by the separator, then a line feed. */
  function Line(row: seq<string>, separator: char): string {
    Join(row, separator) + "\n"
  }

  /** The rows' lines, in order. */
  function Lines(rows: seq<seq<string>>, separator: char): string
    decreases |rows|
  {
    if |rows| == 0 then "" else Lines(rows[..|rows| - 1], separator) + Line(rows[|rows| - 1], separator)
  }

  /** Everything `writeCSV` hands to the writer: an optional byte-order mark,
      then the lines. */
  function Serialized(rows: seq<seq<string>>, format: CsvFormat): string {
    (if format.withBom then [ByteOrderMark] else []) + Lines(rows, format.separator)
  }

  /** `writeCSV` with the file replaced by the returned character sequence: the
      same loops, the same first-cell flag. */
  method WriteCsv(rows: seq<seq<string>>, format: CsvFormat) returns (written: string)
    ensures written == Serialized(rows, format)
  {
    written := "";
    if format.withBom {
      written := written + [ByteOrderMark];
    }
    ghost var header := written;
    for i := 0 to |rows|
      invariant written == header + Lines(rows[..i], format.separator)
    {
      var cells := WriteCells(rows[i], format.separator);
      written := written + cells + "\n";
      assert rows[..i + 1][..i] == rows[..i];
    }
    assert rows[..|rows|] == rows;
  }

  /** The inner loop of `writeCSV`: a separator before every cell but the first. */
  method WriteCells(row: seq<string>, separator: char) returns (written: string)
    ensures written == Join(row, separator)
  {
    written := "";
    var isFirstCell := true;
    for j := 0 to |row|
      invariant isFirstCell <==> j == 0
      invariant written == Join(row[..j], separator)
    {
      if !isFirstCell {
        written := written + [separator];
        JoinSnoc(row[..j], row[j], separator);
      }
      written := written + row[j];
      isFirstCell := false;
      assert row[..j + 1] == row[..j] + [row[j]];
    }
    assert row[..|row|] == row;
  }

  /** The output starts with U+FEFF exactly when the format asks for a
      byte-order mark, unless the data itself begins with U+FEFF. */
  lemma BomIffFormat(rows: seq<seq<string>>, format: CsvFormat)
    requires |rows| == 0 || !StartsWith(Line(rows[0], format.separator), [ByteOrderMark])
    ensures StartsWith(Serialized(rows, format), [ByteOrderMark]) <==> format.withBom
  {
    if |rows| > 0 && !format.withBom {
      LinesStartWithFirstLine(rows, format.separator);
      var s := Lines(rows, format.separator);
      assert s[..1] == Line(rows[0], format.separator)[..1];
    }
  }

  lemma {:induction false} LinesStartWithFirstLine(rows: seq<seq<string>>, separator: char)
    requires |rows| > 0
    ensures StartsWith(Lines(rows, separator), Line(rows[0], separator))
    decreases |rows|
  {
    if |rows| > 1 {
      LinesStartWithFirstLine(rows[..|rows| - 1], separator);
    } else {
      assert rows[..0] == [];
    }
  }

  /** Lines of a non-empty row list are the joined rows, joined by line feeds,
      plus one final line feed: no blank line between rows, no line feed
      missing. */
  lemma {:induction false} LinesAsJoin(rows: seq<seq<string>>, separator: char)
    requires |rows| > 0
    ensures Lines(rows, separator) == Join(JoinedRows(rows, separator), '\n') + "\n"
    decreases |rows|
  {
    if |rows| > 1 {
      var init := rows[..|rows| - 1];
      LinesAsJoin(init, separator);
      assert JoinedRows(rows, separator) == JoinedRows(init, separator) + [Join(rows[|rows| - 1], separator)];
      JoinSnoc(JoinedRows(init, separator), Join(rows[|rows| - 1], separator), '\n');
    } else {
      assert rows[..0] == [];
    }
  }

  /** Each row's cells joined by the separator, without line feeds. */
  function JoinedRows(rows: seq<seq<string>>, separator: char): (lines: seq<string>)
    ensures |lines| == |rows|
    ensures forall i :: 0 <= i < |rows| ==> lines[i] == Join(rows[i], separator)
  {
    seq(|rows|, i requires 0 <= i < |rows| => Join(rows[i], separator))
  }

  /** Reads back what `writeCSV` writes: drop the byte-order mark the format
      announces, cut at line feeds, then at separators. */
  function ParseCsv(text: string, format: CsvFormat): seq<seq<string>> {
    ParseLines(if format.withBom && |text| > 0 then text[1..] else text, format.separator)
  }

  /** Cuts text ending in a line feed into lines, and each line into cells. */
  function ParseLines(body: string, separator: char): (rows: seq<seq<string>>) {
    if |body| == 0 then []
    else
      var lines := Split(body[..|body| - 1], '\n');
      seq(|lines|, i requires 0 <= i < |lines| => Split(lines[i], separator))
  }

  /** A character that is neither the separator nor in any cell is not in the
      joined row. */
  lemma {:induction false} JoinAvoids(parts: seq<string>, separator: char, c: char)
    requires c != separator
    requires forall i :: 0 <= i < |parts| ==> c !in parts[i]
    ensures c !in Join(parts, separator)
    decreases |parts|
  {
    if |parts| > 1 {
      JoinAvoids(parts[1..], separator, c);
    }
  }

  /** Round trip: the written text parses back into the rows, provided no cell
      holds the separator or a line feed, the separator is not a line feed, and
      no row is empty (an empty row and a row of one empty cell are both
      written as a bare line feed). Cells are never quoted, so these conditions
      are needed. */
  lemma CsvRoundTrip(rows: seq<seq<string>>, format: CsvFormat)
    requires format.separator != '\n'
    requires forall i :: 0 <= i < |rows| ==> |rows[i]| > 0
    requires forall i, j :: 0 <= i < |rows| && 0 <= j < |rows[i]| ==>
               format.separator !in rows[i][j] && '\n' !in rows[i][j]
    ensures ParseCsv(Serialized(rows, format), format) == rows
  {
    var text := Serialized(rows, format);
    var body := Lines(rows, format.separator);
    assert (if format.withBom && |text| > 0 then text[1..] else text) == body;
    LinesParseBack(rows, format.separator);
  }

  /** Without the byte-order mark, the lines parse back into the rows. */
  lemma LinesParseBack(rows: seq<seq<string>>, sep: char)
    requires sep != '\n'
    requires forall i :: 0 <= i < |rows| ==> |rows[i]| > 0
    requires forall i, j :: 0 <= i < |rows| && 0 <= j < |rows[i]| ==> sep !in rows[i][j] && '\n' !in rows[i][j]
    ensures ParseLines(Lines(rows, sep), sep) == rows
  {
    if |rows| > 0 {
      var body := Lines(rows, sep);
      var lines := JoinedRows(rows, sep);
      LinesSplitBack(rows, sep);
      CellsSplitBack(rows, sep);
      var parsed := ParseLines(body, sep);
      assert |parsed| == |rows|;
      assert forall i :: 0 <= i < |rows| ==> parsed[i] == Split(lines[i], sep) == rows[i];
    }
  }

  /** Cutting the written lines at line feeds gives each row's joined cells. */
  lemma LinesSplitBack(rows: seq<seq<string>>, sep: char)
    requires sep != '\n' && |rows| > 0
    requires forall i, j :: 0 <= i < |rows| && 0 <= j < |rows[i]| ==> '\n' !in rows[i][j]
    ensures var body := Lines(rows, sep);
      |body| > 0 && Split(body[..|body| - 1], '\n') == JoinedRows(rows, sep)
  {
    var body := Lines(rows, sep);
    var lines := JoinedRows(rows, sep);
    LinesAsJoin(rows, sep);
    assert body[..|body| - 1] == Join(lines, '\n');
    forall i | 0 <= i < |lines| ensures '\n' !in lines[i] {
      JoinAvoids(rows[i], sep, '\n');
    }
    SplitJoin(lines, '\n');
  }

  /** Cutting each row's joined cells at the separator gives the cells back. */
  lemma CellsSplitBack(rows: seq<seq<string>>, sep: char)
    requires forall i :: 0 <= i < |rows| ==> |rows[i]| > 0
    requires forall i, j :: 0 <= i < |rows| && 0 <= j < |rows[i]| ==> sep !in rows[i][j]
    ensures forall i :: 0 <= i < |rows| ==> Split(JoinedRows(rows, sep)[i], sep) == rows[i]
  {
    forall i | 0 <= i < |rows| ensures Split(JoinedRows(rows, sep)[i], sep) == rows[i] {
      SplitJoin(rows[i], sep);
    }
  }

  /** Why empty rows are excluded above: they read back as one empty cell. */
  lemma EmptyRowIsBareLineFeed(format: CsvFormat)
    ensures Serialized([[]], format) == Serialized([[""]], format)
    ensures Line([], format.separator) == "\n"
  {
    var empty: seq<seq<string>> := [[]];
    var blank: seq<seq<string>> := [[""]];
    assert empty[..0] == [] && blank[..0] == [];
  }

  // ----------------------------------------------------------------- readAll

  /** What one iteration of the `readAll` loop observes: a decoded chunk, the
      end of the stream, the 3-second wait running out, or the read being
      interrupted or failing. */
  datatype ReadEvent = Data(chunk: string) | EndOfStream | Timeout | Failure

  /** Event `i` ends the loop: the stream ended, the read failed, or it is a
      timeout directly after another timeout. */
  predicate StopsAt(events: seq<ReadEvent>, i: nat)
    requires i < |events|
  {
    || events[i].EndOfStream?
    || events[i].Failure?
    || (events[i].Timeout? && i > 0 && events[i - 1].Timeout?)
  }

  /** Event `k` is the first that ends the loop. */
  predicate IsFirstStop(events: seq<ReadEvent>, k: nat) {
    && k < |events|
    && StopsAt(events, k)
    && forall j :: 0 <= j < k ==> !StopsAt(events, j)
  }

  /** A reading of `StopsAt`, the stop condition `ReadAll`'s contract is
      stated with: one timeout alone never ends the loop; a timeout right after
      a timeout always does. */
  lemma TimeoutStopsOnlyWhenRepeated(events: seq<ReadEvent>, i: nat)
    requires i < |events| && events[i].Timeout?
    ensures StopsAt(events, i) <==> i > 0 && events[i - 1].Timeout?
  {
  }

  /** A reading of `StopsAt`: a data chunk clears the timeout flag, so timeout,
      data, timeout ends the loop at neither the data nor the second timeout. */
  lemma DataResetsTimeout(events: seq<ReadEvent>, i: nat)
    requires i + 2 < |events|
    requires events[i].Timeout? && events[i + 1].Data? && events[i + 2].Timeout?
    ensures !StopsAt(events, i + 1) && !StopsAt(events, i + 2)
    ensures StopsAt(events, i) <==> i > 0 && events[i - 1].Timeout?
  {
  }

  /** The chunks of the data events, concatenated in order. */
  function Received(events: seq<ReadEvent>): string
    decreases |events|
  {
    if |events| == 0 then ""
    else Received(events[..|events| - 1])
         + (match events[|events| - 1] case Data(c) => c case _ => "")
  }

  /** The decision loop of `readAll` over a finite prefix of the events the
      stream produces. `finished` tells whether the loop ended within the
      prefix; `consumed` counts its iterations.
      If it finished, the event that ended it is the first stopping event and
      the output is all data received before it. If not, no event of the
      prefix stops the loop and the output is all data received. */
  method ReadAll(events: seq<ReadEvent>) returns (output: string, finished: bool, consumed: nat)
    ensures consumed <= |events|
    ensures finished ==> consumed > 0 && IsFirstStop(events, consumed - 1)
                         && output == Received(events[..consumed - 1])
    ensures !finished ==> && consumed == |events|
                          && (forall i :: 0 <= i < |events| ==> !StopsAt(events, i))
                          && output == Received(events)
  {
    output := "";
    var isSecondTimeoutInARow := false;
    var retrievingData := true;
    consumed := 0;
    while retrievingData && consumed < |events|
      invariant consumed <= |events|
      invariant retrievingData ==> && (forall j :: 0 <= j < consumed ==> !StopsAt(events, j))
                                   && output == Received(events[..consumed])
                                   && (isSecondTimeoutInARow <==> consumed > 0 && events[consumed - 1].Timeout?)
      invariant !retrievingData ==> consumed > 0 && IsFirstStop(events, consumed - 1)
                                    && output == Received(events[..consumed - 1])
    {
      assert events[..consumed + 1][..consumed] == events[..consumed];
      match events[consumed] {
        case Data(chunk) =>
          output := output + chunk;
          isSecondTimeoutInARow := false;
        case EndOfStream =>
          retrievingData := false;
        case Failure =>
          retrievingData := false;
        case Timeout =>
          if isSecondTimeoutInARow {
            retrievingData := false;
          } else {
            isSecondTimeoutInARow := true;
          }
      }
      consumed := consumed + 1;
    }
    finished := !retrievingData;
    assert events[..|events|] == events;
  }
}
