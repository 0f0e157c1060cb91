/**
 * The CSV export of `transform.ts`, and a reader of CSV (section 2 of RFC 4180, with LF as
 * the record separator) that gives its cells back. The text of a number is a parameter.
 */
module Csv {
  import opened Wrappers

  datatype ExportedObject = ExportedObject(
    provider: string,
    target: string,
    targetType: Option<string>,
    accounting: Option<string>,
    start: string,
    end: string,
    energy: Option<real>,
    energyUnit: Option<string>,
    carbon: Option<real>,
    carbonUnit: Option<string>)

  /** A body that is a single object, or several in an array. */
  datatype Document = One(single: ExportedObject) | Many(objects: seq<ExportedObject>)

  /** The URL of the final response, its origin when it has one, and the signature status of each object when checked. */
  datatype Source = Source(url: string, origin: Option<string>, signatures: Option<seq<string>>)

  const COLUMNS: seq<string> := [
    "source-url", "claimed-by", "signature", "provider", "target", "target-type", "carbon-accounting",
    "period-start", "period-end", "energy-consumption", "energy-unit", "carbon-footprint", "carbon-unit"]

  function AsArray(doc: Document): seq<ExportedObject> {
    if doc.One? then [doc.single] else doc.objects
  }

  function SignatureStatus(source: Source, index: nat): string {
    if source.signatures.Some? && index < |source.signatures.value| then source.signatures.value[index] else ""
  }

  function NumberText(value: Option<real>, show: real -> string): string {
    if value.Some? then show(value.value) else ""
  }

  /** The cells of an object, in the order of the columns; an absent member is an empty cell. */
  function Cells(d: ExportedObject, source: Source, index: nat, show: real -> string): (cells: seq<string>)
    ensures |cells| == |COLUMNS|
  {
    [source.url, source.origin.GetOr(""), SignatureStatus(source, index), d.provider, d.target, d.targetType.GetOr(""),
     d.accounting.GetOr(""), d.start, d.end, NumberText(d.energy, show), d.energyUnit.GetOr(""),
     NumberText(d.carbon, show), d.carbonUnit.GetOr("")]
  }

  /** What the column of a name holds: the member, as text, or nothing where it is absent. */
  function ColumnOf(d: ExportedObject, source: Source, index: nat, show: real -> string, column: string): string {
    match column
    case "source-url" => source.url
    case "claimed-by" => source.origin.GetOr("")
    case "signature" => SignatureStatus(source, index)
    case "provider" => d.provider
    case "target" => d.target
    case "target-type" => d.targetType.GetOr("")
    case "carbon-accounting" => d.accounting.GetOr("")
    case "period-start" => d.start
    case "period-end" => d.end
    case "energy-consumption" => NumberText(d.energy, show)
    case "energy-unit" => d.energyUnit.GetOr("")
    case "carbon-footprint" => NumberText(d.carbon, show)
    case "carbon-unit" => d.carbonUnit.GetOr("")
    case _ => ""
  }

  /** Every cell stands under the column of its name. */
  lemma CellsStandUnderTheirColumns(d: ExportedObject, source: Source, index: nat, show: real -> string, i: nat)
    requires i < |COLUMNS|
    ensures Cells(d, source, index, show)[i] == ColumnOf(d, source, index, show, COLUMNS[i])
  {
    hide NumberText;
    hide SignatureStatus;
    if i < 4 {
    } else if i < 9 {
    } else {
    }
  }

  // ---- Writing ----

  predicate IsSpecial(c: char) {
    c == ',' || c == '"' || c == '\r' || c == '\n'
  }

  function Doubled(s: string): string {
    if s == "" then "" else (if s[0] == '"' then "\"\"" else [s[0]]) + Doubled(s[1..])
  }

  /** A cell as it is written: in quotes, with its quotes doubled, when it holds a comma, a quote or a line break. */
  function Quoted(s: string): string {
    if !IsPlain(s) then "\"" + Doubled(s) + "\"" else s
  }

  function Join(parts: seq<string>, separator: string): string {
    if parts == [] then "" else if |parts| == 1 then parts[0] else parts[0] + separator + Join(parts[1..], separator)
  }

  function QuotedCells(cells: seq<string>): (r: seq<string>)
    ensures |r| == |cells| && forall i :: 0 <= i < |cells| ==> r[i] == Quoted(cells[i])
  {
    if cells == [] then [] else [Quoted(cells[0])] + QuotedCells(cells[1..])
  }

  function Row(cells: seq<string>): string {
    Join(QuotedCells(cells), ",")
  }

  /** The header and the cells of the first `n` objects. */
  function Records(objects: seq<ExportedObject>, n: nat, source: Source, show: real -> string): (r: seq<seq<string>>)
    requires n <= |objects|
    ensures |r| == n + 1 && r[0] == COLUMNS
    ensures forall i :: 0 <= i < n ==> r[i + 1] == Cells(objects[i], source, i, show)
    ensures forall i :: 0 <= i <= n ==> |r[i]| == 13
  {
    if n == 0 then [COLUMNS] else Records(objects, n - 1, source, show) + [Cells(objects[n - 1], source, n - 1, show)]
  }

  function RowsOf(records: seq<seq<string>>): (rows: seq<string>)
    ensures |rows| == |records| && forall i :: 0 <= i < |rows| ==> rows[i] == Row(records[i])
  {
    if records == [] then [] else [Row(records[0])] + RowsOf(records[1..])
  }

  method ToCsvRows(doc: Document, source: Source, show: real -> string) returns (rows: seq<string>)
    ensures rows == RowsOf(Records(AsArray(doc), |AsArray(doc)|, source, show))
  {
    hide Row;
    hide Cells;
    hide Join;
    var objects := AsArray(doc);
    rows := [Join(COLUMNS, ",")];
    HeaderNeedsNoQuotes();
    for i := 0 to |objects|
      invariant |rows| == i + 1
      invariant forall k :: 0 <= k <= i ==> rows[k] == Row(Records(objects, i, source, show)[k])
    {
      var cells := Cells(objects[i], source, i, show);
      RowsAreSettled(objects, i, source, show);
      rows := rows + [Row(cells)];
    }
    assert rows == RowsOf(Records(objects, |objects|, source, show));
  }

  lemma RowsAreSettled(objects: seq<ExportedObject>, n: nat, source: Source, show: real -> string)
    requires n < |objects|
    ensures Records(objects, n + 1, source, show)
      == Records(objects, n, source, show) + [Cells(objects[n], source, n, show)]
  {
  }

  predicate IsPlain(s: string) {
    forall i :: 0 <= i < |s| ==> !IsSpecial(s[i])
  }

  lemma ClaimColumnsArePlain()
    ensures IsPlain("source-url") && IsPlain("claimed-by") && IsPlain("signature") && IsPlain("provider") && IsPlain("target")
  {
  }

  lemma SubjectColumnsArePlain()
    ensures IsPlain("target-type") && IsPlain("carbon-accounting") && IsPlain("period-start") && IsPlain("period-end")
  {
  }

  lemma FigureColumnsArePlain()
    ensures IsPlain("energy-consumption") && IsPlain("energy-unit") && IsPlain("carbon-footprint") && IsPlain("carbon-unit")
  {
  }

  lemma ColumnsArePlain()
    ensures forall i :: 0 <= i < |COLUMNS| ==> IsPlain(COLUMNS[i])
  {
    hide IsPlain;
    ClaimColumnsArePlain();
    SubjectColumnsArePlain();
    FigureColumnsArePlain();
  }

  lemma HeaderNeedsNoQuotes()
    ensures Row(COLUMNS) == Join(COLUMNS, ",")
  {
    hide Join;
    hide IsSpecial;
    ColumnsArePlain();
    PlainNeedsNoQuotes(COLUMNS);
  }

  lemma PlainNeedsNoQuotes(cells: seq<string>)
    requires forall i :: 0 <= i < |cells| ==> IsPlain(cells[i])
    ensures QuotedCells(cells) == cells
  {
    hide IsSpecial;
    forall i | 0 <= i < |cells| ensures Quoted(cells[i]) == cells[i] {
      assert IsPlain(cells[i]);
    }
  }

  // ---- Reading ----

  /** The value of a quoted cell, from after its opening quote, and what follows its closing quote. */
  function ReadQuoted(text: string): (r: Option<(string, string)>)
    ensures r.Some? ==> |r.value.1| < |text|
  {
    if text == "" then None
    else if text[0] != '"' then
      var rest := ReadQuoted(text[1..]);
      if rest.None? then None else Some(([text[0]] + rest.value.0, rest.value.1))
    else if |text| > 1 && text[1] == '"' then
      var rest := ReadQuoted(text[2..]);
      if rest.None? then None else Some((['"'] + rest.value.0, rest.value.1))
    else Some(("", text[1..]))
  }

  function PlainLength(text: string): (n: nat)
    ensures n <= |text|
    ensures forall i :: 0 <= i < n ==> !IsSpecial(text[i])
    ensures n < |text| ==> IsSpecial(text[n])
  {
    if text == "" || IsSpecial(text[0]) then 0 else 1 + PlainLength(text[1..])
  }

  /** One cell and what follows it. */
  function ReadCell(text: string): (r: Option<(string, string)>)
    ensures r.Some? ==> |r.value.1| <= |text|
  {
    if text != "" && text[0] == '"' then ReadQuoted(text[1..])
    else Some((text[..PlainLength(text)], text[PlainLength(text)..]))
  }

  /** The cells up to the end of the record, and what is left from its line feed on. */
  function ReadRecord(text: string): (r: Option<(seq<string>, string)>)
    ensures r.Some? ==> |r.value.1| <= |text|
    decreases |text|
  {
    var cell := ReadCell(text);
    if cell.None? then None else
    var rest := cell.value.1;
    if rest == "" || rest[0] == '\n' then Some(([cell.value.0], rest))
    else if rest[0] == ',' then
      var others := ReadRecord(rest[1..]);
      if others.None? then None else Some(([cell.value.0] + others.value.0, others.value.1))
    else None
  }

  function ReadRecords(text: string): Option<seq<seq<string>>>
    decreases |text|
  {
    var record := ReadRecord(text);
    if record.None? then None
    else if record.value.1 == "" then Some([record.value.0])
    else
      var others := ReadRecords(record.value.1[1..]);
      if others.None? then None else Some([record.value.0] + others.value)
  }

  // ---- What is written reads back ----

  lemma {:induction false} DoubledReadsBack(s: string, tail: string)
    requires tail == "" || tail[0] != '"'
    ensures ReadQuoted(Doubled(s) + "\"" + tail) == Some((s, tail))
  {
    var text := Doubled(s) + "\"" + tail;
    if s == "" {
      assert text == "\"" + tail;
      assert text[1..] == tail;
    } else {
      DoubledReadsBack(s[1..], tail);
      var rest := Doubled(s[1..]) + "\"" + tail;
      if s[0] == '"' {
        assert text == "\"\"" + rest;
        assert text[2..] == rest;
      } else {
        assert text == [s[0]] + rest;
        assert text[1..] == rest;
      }
      assert s == [s[0]] + s[1..];
    }
  }

  predicate EndsCell(tail: string) {
    tail == "" || tail[0] == ',' || tail[0] == '\n'
  }

  lemma PlainEndsAt(s: string, tail: string)
    requires IsPlain(s) && EndsCell(tail)
    ensures PlainLength(s + tail) == |s|
  {
    var text := s + tail;
    assert forall i :: 0 <= i < |s| ==> text[i] == s[i];
    assert tail != "" ==> text[|s|] == tail[0];
  }

  lemma CellReadsBack(s: string, tail: string)
    requires EndsCell(tail)
    ensures ReadCell(Quoted(s) + tail) == Some((s, tail))
  {
    hide ReadQuoted;
    hide Doubled;
    hide PlainLength;
    var text := Quoted(s) + tail;
    if IsPlain(s) {
      PlainEndsAt(s, tail);
      assert text != "" ==> !IsSpecial(text[0]) || text[0] == ',' || text[0] == '\n';
      assert text[..|s|] == s && text[|s|..] == tail;
    } else {
      DoubledReadsBack(s, tail);
      var rest := Doubled(s) + "\"" + tail;
      assert text == "\"" + rest && text[1..] == rest;
    }
  }

  lemma RowOfMore(cells: seq<string>)
    requires |cells| > 1
    ensures Row(cells) == Quoted(cells[0]) + "," + Row(cells[1..])
  {
    hide Quoted;
    assert QuotedCells(cells)[1..] == QuotedCells(cells[1..]);
  }

  lemma ReadRecordStep(s: string, cells: seq<string>, tail: string, rest: string)
    requires ReadRecord(rest) == Some((cells, tail)) && ReadCell(Quoted(s) + ("," + rest)) == Some((s, "," + rest))
    ensures ReadRecord(Quoted(s) + ("," + rest)) == Some(([s] + cells, tail))
  {
    hide Quoted;
    hide ReadCell;
    assert ("," + rest)[1..] == rest;
  }

  lemma {:induction false} RecordReadsBack(cells: seq<string>, tail: string)
    requires cells != [] && (tail == "" || tail[0] == '\n')
    ensures ReadRecord(Row(cells) + tail) == Some((cells, tail))
  {
    hide Quoted;
    hide ReadCell;
    if |cells| == 1 {
      CellReadsBack(cells[0], tail);
      assert cells == [cells[0]];
    } else {
      hide ReadRecord;
      hide Row;
      var rest := Row(cells[1..]) + tail;
      RecordReadsBack(cells[1..], tail);
      CellReadsBack(cells[0], "," + rest);
      RowOfMore(cells);
      assert Row(cells) + tail == Quoted(cells[0]) + ("," + rest);
      ReadRecordStep(cells[0], cells[1..], tail, rest);
      assert cells == [cells[0]] + cells[1..];
    }
  }

  /** Reading the rows, joined by line feeds, gives back every cell of every record. */
  lemma {:induction false} RowsReadBack(records: seq<seq<string>>)
    requires records != [] && forall i :: 0 <= i < |records| ==> records[i] != []
    ensures ReadRecords(Join(RowsOf(records), "\n")) == Some(records)
  {
    hide Row;
    hide ReadRecord;
    var first := records[0];
    assert RowsOf(records)[1..] == RowsOf(records[1..]);
    if |records| == 1 {
      RecordReadsBack(first, "");
      assert Row(first) + "" == Row(first);
      assert records == [first];
    } else {
      var rest := Join(RowsOf(records[1..]), "\n");
      RowsReadBack(records[1..]);
      RecordReadsBack(first, "\n" + rest);
      assert Join(RowsOf(records), "\n") == Row(first) + ("\n" + rest);
      assert ("\n" + rest)[1..] == rest;
      assert records == [first] + records[1..];
    }
  }

  /**
   * The exported text reads back as the header and the thirteen cells of each object, in order,
   * whatever commas, quotes and line breaks the cells hold.
   */
  lemma ExportReadsBack(doc: Document, source: Source, show: real -> string)
    ensures var objects := AsArray(doc); var records := Records(objects, |objects|, source, show);
      && ReadRecords(Join(RowsOf(records), "\n")) == Some(records)
      && |records| == |objects| + 1 && records[0] == COLUMNS
      && forall i :: 0 <= i < |objects| ==> records[i + 1] == Cells(objects[i], source, i, show)
  {
    hide ReadRecords;
    hide Join;
    RowsReadBack(Records(AsArray(doc), |AsArray(doc)|, source, show));
  }
}
