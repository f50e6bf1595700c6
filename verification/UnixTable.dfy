/**
 The text of the kernel's Unix socket table: one row per line, seven fields separated by blanks, the
 first an address with a colon, all but the last hexadecimal, and then a path that may hold blanks.
 */
module UnixTable {
  import opened Base
  import opened Sockets

  // ---------------------------------------------------------------- fields

  predicate Blank(c: char) { c == ' ' || c == '\t' }

  predicate AllBlank(s: string) { forall i :: 0 <= i < |s| ==> Blank(s[i]) }

  predicate NoBlank(s: string) { forall i :: 0 <= i < |s| ==> !Blank(s[i]) }

  /** `strings.TrimLeft(s, " \t")`. */
  function SkipBlanks(s: string): (r: string)
    ensures |r| <= |s| && (r != "" ==> !Blank(r[0]))
  {
    if s != "" && Blank(s[0]) then SkipBlanks(s[1..]) else s
  }

  /** `strings.IndexAny(s, " \t")`, or the length. */
  function FieldLength(s: string): (n: nat)
    ensures n <= |s| && (n < |s| ==> Blank(s[n])) && NoBlank(s[..n])
  {
    if s == "" || Blank(s[0]) then 0 else 1 + FieldLength(s[1..])
  }

  function FieldOf(line: string): string { SkipBlanks(line)[..FieldLength(SkipBlanks(line))] }

  function AfterField(line: string): string { SkipBlanks(line)[FieldLength(SkipBlanks(line))..] }

  datatype Cells = Cells(fields: seq<string>, rest: string)

  /** The first `n` fields and what follows them; `None` when the line has fewer. */
  function Fields(line: string, n: nat): Option<Cells>
    decreases n
  {
    if n == 0 then Some(Cells([], line))
    else if FieldOf(line) == "" then None
    else
      match Fields(AfterField(line), n - 1)
      case None => None
      case Some(cells) => Some(Cells([FieldOf(line)] + cells.fields, cells.rest))
  }

  lemma {:induction false} FieldCount(line: string, n: nat)
    ensures Fields(line, n).Some? ==> |Fields(line, n).value.fields| == n && "" !in Fields(line, n).value.fields
    decreases n
  {
    if n > 0 && FieldOf(line) != "" {
      FieldCount(AfterField(line), n - 1);
    }
  }

  // ---------------------------------------------------------------- rows

  const COLUMNS := 7

  function BaseOf(column: nat): nat { if column == 6 then 10 else 16 }

  /** The text of a column without the colon that ends an address. */
  function Bare(fields: seq<string>, column: nat): string
    requires column < |fields|
  {
    if column == 0 && fields[0] != "" then fields[0][..|fields[0]| - 1] else fields[column]
  }

  function Value(fields: seq<string>, column: nat): Option<nat>
    requires column < |fields|
  {
    ParseUint(Bare(fields, column), BaseOf(column))
  }

  predicate EndsInColon(field: string) { field != "" && field[|field| - 1] == ':' }

  ghost predicate Readable(fields: seq<string>) {
    |fields| == COLUMNS && EndsInColon(fields[0]) && forall i :: 0 <= i < COLUMNS ==> Value(fields, i).Some?
  }

  /** The row a line spells, or `Torn`. */
  ghost function RowOf(line: string): UnixRow {
    var cells := Fields(line, COLUMNS);
    if cells.None? || !Readable(cells.value.fields) then Torn
    else
      var f := cells.value.fields;
      UnixRow(Value(f, 2).value, Value(f, 3).value, Value(f, 4).value, Value(f, 5).value, Value(f, 6).value,
              SkipBlanks(cells.value.rest))
  }

  /** `fields` in front of what the rest of a line gives. */
  function Before(fields: seq<string>, rest: Option<Cells>): Option<Cells> {
    if rest.None? then None else Some(Cells(fields + rest.value.fields, rest.value.rest))
  }

  lemma BeforeNext(fields: seq<string>, line: string, n: nat)
    requires n > 0
    ensures Before(fields, Fields(line, n)) ==
      if FieldOf(line) == "" then None else Before(fields + [FieldOf(line)], Fields(AfterField(line), n - 1))
  {
    if FieldOf(line) != "" && Fields(AfterField(line), n - 1).Some? {
      var more := Fields(AfterField(line), n - 1).value.fields;
      assert fields + ([FieldOf(line)] + more) == fields + [FieldOf(line)] + more;
    }
  }

  lemma BeforeNothing(r: Option<Cells>, fields: seq<string>, rest: string)
    ensures Before([], r) == r && Before(fields, Fields(rest, 0)) == Some(Cells(fields, rest))
  {
    assert r.Some? ==> [] + r.value.fields == r.value.fields;
    assert fields + [] == fields;
  }

  method CutFields(line: string) returns (r: Option<Cells>)
    ensures r == Fields(line, COLUMNS)
  {
    var fields: seq<string>, rest, i := [], line, 0;
    BeforeNothing(Fields(line, COLUMNS), fields, rest);
    while i < COLUMNS
      invariant 0 <= i <= COLUMNS
      invariant Before(fields, Fields(rest, COLUMNS - i)) == Fields(line, COLUMNS)
    {
      BeforeNext(fields, rest, COLUMNS - i);
      var trimmed := SkipBlanks(rest);
      var end := FieldLength(trimmed);
      if end == 0 {
        return None;
      }
      fields, rest := fields + [trimmed[..end]], trimmed[end..];
      i := i + 1;
    }
    r := Some(Cells(fields, rest));
    BeforeNothing(r, fields, rest);
  }

  method ReadValues(fields: seq<string>) returns (values: Option<seq<nat>>)
    requires |fields| == COLUMNS && "" !in fields
    ensures values.Some? == Readable(fields)
    ensures values.Some? ==> |values.value| == COLUMNS && forall i :: 0 <= i < COLUMNS ==> Value(fields, i) == Some(values.value[i])
  {
    if fields[0][|fields[0]| - 1] != ':' {
      return None;
    }
    var found: seq<nat>, i := [], 0;
    while i < COLUMNS
      invariant 0 <= i <= COLUMNS && |found| == i
      invariant forall j :: 0 <= j < i ==> Value(fields, j) == Some(found[j])
    {
      var n := Value(fields, i);
      if n.None? {
        return None;
      }
      found := found + [n.value];
      i := i + 1;
    }
    values := Some(found);
  }

  method ParseRow(line: string) returns (row: UnixRow)
    ensures row == RowOf(line)
  {
    FieldCount(line, COLUMNS);
    var cells := CutFields(line);
    if cells.None? {
      return Torn;
    }
    var v := ReadValues(cells.value.fields);
    if v.None? {
      return Torn;
    }
    row := UnixRow(v.value[2], v.value[3], v.value[4], v.value[5], v.value[6], SkipBlanks(cells.value.rest));
  }

  // ---------------------------------------------------------------- reading a printed row

  /** Fields with a gap in front of each, and then the tail. */
  function Spell(fields: seq<string>, gaps: seq<string>, tail: string): string
    requires |fields| == |gaps|
  {
    if fields == [] then tail else gaps[0] + (fields[0] + Spell(fields[1..], gaps[1..], tail))
  }

  ghost predicate Separates(gaps: seq<string>) {
    && (forall i :: 0 <= i < |gaps| ==> AllBlank(gaps[i]))
    && (forall i :: 0 < i < |gaps| ==> gaps[i] != "")
  }

  predicate Stops(s: string) { s == "" || Blank(s[0]) }

  lemma {:induction false} SkipGap(gap: string, s: string)
    requires AllBlank(gap)
    ensures SkipBlanks(gap + s) == SkipBlanks(s)
  {
    if gap == "" {
      assert gap + s == s;
    } else {
      assert (gap + s)[1..] == gap[1..] + s;
      SkipGap(gap[1..], s);
    }
  }

  lemma {:induction false} FieldStops(field: string, s: string)
    requires NoBlank(field) && Stops(s)
    ensures FieldLength(field + s) == |field|
  {
    if field == "" {
      assert field + s == s;
    } else {
      assert (field + s)[1..] == field[1..] + s;
      FieldStops(field[1..], s);
    }
  }

  lemma FieldFound(gap: string, field: string, s: string)
    requires AllBlank(gap) && field != "" && NoBlank(field) && Stops(s)
    ensures FieldOf(gap + (field + s)) == field && AfterField(gap + (field + s)) == s
  {
    SkipGap(gap, field + s);
    assert SkipBlanks(field + s) == field + s;
    FieldStops(field, s);
    assert (field + s)[..|field|] == field && (field + s)[|field|..] == s;
  }

  lemma SpelledStops(fields: seq<string>, gaps: seq<string>, tail: string)
    requires |fields| == |gaps| && Separates(gaps) && Stops(tail) && fields != []
    ensures Stops(Spell(fields[1..], gaps[1..], tail)) && Separates(gaps[1..])
  {
    if |fields| > 1 {
      assert gaps[1..][0] == gaps[1];
    }
  }

  /** The fields of a line come back however wide the gaps between them are. */
  lemma {:induction false} FieldsSpelled(fields: seq<string>, gaps: seq<string>, tail: string)
    requires |fields| == |gaps| && Separates(gaps) && Stops(tail)
    requires forall i :: 0 <= i < |fields| ==> fields[i] != "" && NoBlank(fields[i])
    ensures Fields(Spell(fields, gaps, tail), |fields|) == Some(Cells(fields, tail))
  {
    if fields != [] {
      SpelledStops(fields, gaps, tail);
      FieldFound(gaps[0], fields[0], Spell(fields[1..], gaps[1..], tail));
      FieldsSpelled(fields[1..], gaps[1..], tail);
      assert [fields[0]] + fields[1..] == fields;
    }
  }

  /** What a printer is free to choose: the columns the model ignores, the widths and the gaps. */
  datatype Layout = Layout(address: nat, refs: nat, widths: seq<nat>, gaps: seq<string>, gap: string)

  ghost predicate Proper(l: Layout) {
    && |l.widths| == COLUMNS && (forall i :: 0 <= i < COLUMNS ==> l.widths[i] > 0)
    && |l.gaps| == COLUMNS && Separates(l.gaps) && AllBlank(l.gap) && l.gap != ""
  }

  function Amount(row: UnixRow, l: Layout, column: nat): nat
    requires row.UnixRow?
  {
    match column
    case 0 => l.address
    case 1 => l.refs
    case 2 => row.protocol
    case 3 => row.flags
    case 4 => row.kind
    case 5 => row.state
    case _ => row.inode
  }

  ghost predicate Printable(row: UnixRow, l: Layout) {
    row.UnixRow? && Proper(l) && forall i: nat :: i < COLUMNS ==> Amount(row, l, i) < UINT64
  }

  function Column(row: UnixRow, l: Layout, column: nat): string
    requires row.UnixRow? && column < |l.widths|
  {
    Digits(Amount(row, l, column), BaseOf(column), l.widths[column]) + if column == 0 then ":" else ""
  }

  ghost function Columns(row: UnixRow, l: Layout): (fields: seq<string>)
    requires row.UnixRow? && |l.widths| == COLUMNS
    ensures |fields| == COLUMNS && forall i :: 0 <= i < COLUMNS ==> fields[i] == Column(row, l, i)
  {
    seq(COLUMNS, i requires 0 <= i < COLUMNS => Column(row, l, i))
  }

  ghost function PrintRow(row: UnixRow, l: Layout): string
    requires row.UnixRow? && |l.widths| == COLUMNS == |l.gaps|
  {
    Spell(Columns(row, l), l.gaps, if row.path == "" then "" else l.gap + row.path)
  }

  lemma NumeralsAreSolid(s: string, base: nat)
    requires base <= 16 && Numeral(s, base)
    ensures NoBlank(s)
  {
    forall i | 0 <= i < |s| ensures !Blank(s[i]) {
      assert DigitValue(s[i]) < base;
    }
  }

  lemma ColumnReads(row: UnixRow, l: Layout, column: nat)
    requires Printable(row, l) && column < COLUMNS
    ensures Column(row, l, column) != "" && NoBlank(Column(row, l, column))
    ensures Value(Columns(row, l), column) == Some(Amount(row, l, column))
    ensures column == 0 ==> EndsInColon(Column(row, l, 0))
  {
    var n, base, width := Amount(row, l, column), BaseOf(column), l.widths[column];
    var digits := Digits(n, base, width);
    DigitsExact(n, base, width);
    DigitsParse(n, base, width);
    NumeralsAreSolid(digits, base);
    assert Bare(Columns(row, l), column) == digits;
  }

  /** Reading a printed row gives the row back, but for blanks in front of its path. */
  lemma RowPrinted(row: UnixRow, l: Layout)
    requires Printable(row, l)
    ensures RowOf(PrintRow(row, l)) == row.(path := SkipBlanks(row.path))
  {
    var fields, tail := Columns(row, l), if row.path == "" then "" else l.gap + row.path;
    forall i: nat | i < COLUMNS
      ensures fields[i] != "" && NoBlank(fields[i]) && Value(fields, i) == Some(Amount(row, l, i))
    {
      ColumnReads(row, l, i);
    }
    ColumnReads(row, l, 0);
    FieldsSpelled(fields, l.gaps, tail);
    SkipGap(l.gap, row.path);
  }

  /** So a row survives printing and reading, blanks inside its path included, unless its path starts with one. */
  lemma RowRoundTrip(row: UnixRow, l: Layout)
    requires Printable(row, l)
    ensures RowOf(PrintRow(row, l)) == row <==> row.path == "" || !Blank(row.path[0])
  {
    RowPrinted(row, l);
  }

  // ---------------------------------------------------------------- the table

  const PROC_LIMIT := 8388608
  const HEADER := ["Num", "RefCount", "Protocol", "Flags", "Type", "St", "Inode", "Path"]

  predicate White(c: char) { c == ' ' || '\t' <= c <= '\r' }

  /** `strings.Fields`. */
  function Words(s: string): seq<string> {
    if s == "" then []
    else if White(s[0]) then Words(s[1..])
    else
      var rest := Words(s[1..]);
      if |s| == 1 || White(s[1]) || rest == [] then [[s[0]]] + rest else [[s[0]] + rest[0]] + rest[1..]
  }

  /** The lines of a table that is complete: nonempty, within the limit, ended by a newline, free of NUL. */
  function TableLines(text: string): Option<seq<string>> {
    if text == "" || |text| > PROC_LIMIT || text[|text| - 1] != '\n' || '\0' in text then None
    else Some(Split(text[..|text| - 1], '\n'))
  }

  ghost function RowsOf(lines: seq<string>): (rows: seq<UnixRow>)
    ensures |rows| == |lines| && forall i :: 0 <= i < |lines| ==> rows[i] == RowOf(lines[i])
  {
    seq(|lines|, i requires 0 <= i < |lines| => RowOf(lines[i]))
  }

  /** What reading this text as the Unix table gives. */
  ghost function TableOf(text: string): Reading<UnixRow> {
    var lines := TableLines(text);
    if lines.None? || lines.value == [] || Words(lines.value[0]) != HEADER then Failed
    else Rows(RowsOf(lines.value[1..]))
  }

  method ReadUnix(text: string) returns (r: Option<Entries>)
    ensures r.Some? <==> TableOf(text).Rows? && UnixParses(TableOf(text).rows)
    ensures r.Some? ==> Tabulates(TableOf(text).rows, r.value)
  {
    var lines := TableLines(text);
    if lines.None? || lines.value == [] || Words(lines.value[0]) != HEADER {
      return None;
    }
    var rows: seq<UnixRow>, k := [], 1;
    while k < |lines.value|
      invariant 1 <= k <= |lines.value| && |rows| == k - 1
      invariant forall i :: 0 <= i < k - 1 ==> rows[i] == RowOf(lines.value[1..][i])
    {
      var row := ParseRow(lines.value[k]);
      rows := rows + [row];
      k := k + 1;
    }
    assert rows == RowsOf(lines.value[1..]);
    r := ParseUnix(rows);
  }

  /** A table written line by line is read line by line. */
  lemma TableRoundTrip(header: string, lines: seq<string>)
    requires Words(header) == HEADER
    requires var text := Join([header] + lines, '\n') + "\n"; |text| <= PROC_LIMIT && '\0' !in text
    requires '\n' !in header && forall i :: 0 <= i < |lines| ==> '\n' !in lines[i]
    ensures TableOf(Join([header] + lines, '\n') + "\n") == Rows(RowsOf(lines))
  {
    var all := [header] + lines;
    var text := Join(all, '\n') + "\n";
    assert text[..|text| - 1] == Join(all, '\n');
    SplitJoin(all, '\n');
    assert all[1..] == lines;
  }
}
