/**
 * The CSV document built by the export route: a fixed header line, then one
 * line per contact with its six columns each wrapped in double quotes.
 * A NULL column is written as an empty field. Quotes inside a value are
 * copied as they are (they are not doubled), so the output is a plain
 * concatenation and not an RFC 4180 encoding.
 */
module CsvExport {
  import opened Wrappers

  /** The columns the export query selects, in order. `name` is NOT NULL. */
  datatype ExportRow = ExportRow(
    name: string,
    phone: Option<string>,
    email: Option<string>,
    address: Option<string>,
    notes: Option<string>,
    category: Option<string>)

  /** The column titles of the header line. */
  const Columns: seq<string> := ["Name", "Phone", "Email", "Address", "Notes", "Category"]

  /** `parts` separated by commas. */
  function Join(parts: seq<string>): string {
    if parts == [] then []
    else if |parts| == 1 then parts[0]
    else Join(parts[..|parts| - 1]) + "," + parts[|parts| - 1]
  }

  /** `Name,Phone,Email,Address,Notes,Category` and a newline. */
  function Header(): string {
    Join(Columns) + "\n"
  }

  /** `value or ""`: NULL (and the empty string) become an empty field. */
  function FieldText(v: Option<string>): (s: string)
    ensures v.None? ==> s == []
    ensures v.Some? ==> s == v.value
  {
    v.GetOr("")
  }

  function Quoted(s: string): string {
    "\"" + s + "\""
  }

  /** The six field texts of a row, in column order. */
  function Fields(r: ExportRow): (f: seq<string>)
    ensures |f| == |Columns| && f[0] == r.name
  {
    [r.name, FieldText(r.phone), FieldText(r.email), FieldText(r.address),
     FieldText(r.notes), FieldText(r.category)]
  }

  function QuoteAll(f: seq<string>): (q: seq<string>)
    ensures |q| == |f|
    ensures forall k :: 0 <= k < |f| ==> q[k] == Quoted(f[k])
  {
    seq(|f|, k requires 0 <= k < |f| => Quoted(f[k]))
  }

  /** One exported line: the quoted fields separated by commas, then a newline.
      It opens with the quoted name and closes with a quote and the newline. */
  function CsvLine(r: ExportRow): (l: string)
    ensures |l| >= |r.name| + 2 && l[..|r.name| + 2] == Quoted(r.name)
    ensures l[|l| - 2..] == "\"\n"
  {
    var q := QuoteAll(Fields(r));
    JoinPrefix(q);
    Join(q) + "\n"
  }

  /** A join starts with its first part. */
  lemma {:induction false} JoinPrefix(parts: seq<string>)
    requires parts != []
    ensures |Join(parts)| >= |parts[0]| && Join(parts)[..|parts[0]|] == parts[0]
    decreases |parts|
  {
    if |parts| > 1 {
      var init := parts[..|parts| - 1];
      JoinPrefix(init);
      assert Join(parts)[..|parts[0]|] == Join(init)[..|init[0]|];
    }
  }

  /** The lines of `rows`, in order; there is one line per row, so the body is
      empty only for no rows. */
  function CsvBody(rows: seq<ExportRow>): (b: string)
    ensures b == [] <==> rows == []
  {
    if rows == [] then [] else CsvBody(rows[..|rows| - 1]) + CsvLine(rows[|rows| - 1])
  }

  /** The whole document for `rows`: it starts with the header, and is the
      header alone only when there are no rows. */
  function CsvDocument(rows: seq<ExportRow>): (d: string)
    ensures |d| >= |Header()| && d[..|Header()|] == Header()
    ensures d == Header() <==> rows == []
  {
    Header() + CsvBody(rows)
  }

  /** One more row adds its line at the end of the document. */
  lemma DocumentAppend(rows: seq<ExportRow>, r: ExportRow)
    ensures CsvDocument(rows + [r]) == CsvDocument(rows) + CsvLine(r)
  {
    assert (rows + [r])[..|rows|] == rows;
  }

  /** The loop of `export_contacts`: start from the header and append one line
      per row. */
  method BuildCsv(rows: seq<ExportRow>) returns (csv: string)
    ensures csv == CsvDocument(rows)
    ensures |csv| >= |Header()| && csv[..|Header()|] == Header()
  {
    csv := Header();
    assert csv == CsvDocument([]);
    for i := 0 to |rows|
      invariant csv == CsvDocument(rows[..i])
    {
      assert rows[..i + 1] == rows[..i] + [rows[i]];
      DocumentAppend(rows[..i], rows[i]);
      csv := csv + CsvLine(rows[i]);
    }
    assert rows[..|rows|] == rows;
  }

  /** Joining six parts puts a comma between each two. */
  lemma Join6(a: string, b: string, c: string, d: string, e: string, f: string)
    ensures Join([a, b, c, d, e, f]) == a + "," + b + "," + c + "," + d + "," + e + "," + f
  {
    var q := [a, b, c, d, e, f];
    assert q[..1] == [a];
    assert q[..2][..1] == q[..1];
    assert q[..3][..2] == q[..2];
    assert q[..4][..3] == q[..3];
    assert q[..5][..4] == q[..4];
    assert q[..5] == q[..|q| - 1];
    assert Join(q[..2]) == a + "," + b;
    assert Join(q[..3]) == a + "," + b + "," + c;
    assert Join(q[..4]) == a + "," + b + "," + c + "," + d;
    assert Join(q[..5]) == a + "," + b + "," + c + "," + d + "," + e;
  }

  /** The header is the literal line of `export_contacts`. */
  lemma HeaderText()
    ensures Header() == "Name" + "," + "Phone" + "," + "Email" + "," + "Address" + "," + "Notes" + "," + "Category" + "\n"
  {
    Join6("Name", "Phone", "Email", "Address", "Notes", "Category");
  }

  /** A line is the literal f-string of `export_contacts`: the six columns in
      query order, each quoted, separated by commas, then a newline. */
  lemma CsvLineLayout(r: ExportRow)
    ensures CsvLine(r)
            == Quoted(r.name) + "," + Quoted(FieldText(r.phone)) + "," + Quoted(FieldText(r.email)) + ","
               + Quoted(FieldText(r.address)) + "," + Quoted(FieldText(r.notes)) + ","
               + Quoted(FieldText(r.category)) + "\n"
  {
    var q := QuoteAll(Fields(r));
    assert q == [Quoted(r.name), Quoted(FieldText(r.phone)), Quoted(FieldText(r.email)),
                 Quoted(FieldText(r.address)), Quoted(FieldText(r.notes)), Quoted(FieldText(r.category))];
    Join6(q[0], q[1], q[2], q[3], q[4], q[5]);
  }

  // ------------------------------------------------------------ counting

  /** The number of occurrences of `c` in `s`. */
  function Count(s: string, c: char): nat {
    if s == [] then 0 else Count(s[..|s| - 1], c) + (if s[|s| - 1] == c then 1 else 0)
  }

  /** The occurrences of `c` in all of `parts` together. */
  function CountAll(parts: seq<string>, c: char): nat {
    if parts == [] then 0 else CountAll(parts[..|parts| - 1], c) + Count(parts[|parts| - 1], c)
  }

  lemma {:induction false} CountAppend(a: string, b: string, c: char)
    ensures Count(a + b, c) == Count(a, c) + Count(b, c)
    decreases |b|
  {
    if b != [] {
      assert (a + b)[..|a + b| - 1] == a + b[..|b| - 1];
      CountAppend(a, b[..|b| - 1], c);
    } else {
      assert a + b == a;
    }
  }

  /** A join holds the occurrences of its parts and one comma between each
      two of them. */
  lemma {:induction false} JoinCount(parts: seq<string>, c: char)
    requires parts != []
    ensures Count(Join(parts), c) == CountAll(parts, c) + (if c == ',' then |parts| - 1 else 0)
    decreases |parts|
  {
    var init := parts[..|parts| - 1];
    if |parts| == 1 {
      assert init == [];
    } else {
      JoinCount(init, c);
      CountAppend(Join(init), ",", c);
      CountAppend(Join(init) + ",", parts[|parts| - 1], c);
    }
  }

  /** Quoting every part adds two quote characters per part. */
  lemma {:induction false} QuoteAllCount(f: seq<string>, c: char)
    ensures CountAll(QuoteAll(f), c) == CountAll(f, c) + (if c == '"' then 2 * |f| else 0)
    decreases |f|
  {
    if f != [] {
      var q := QuoteAll(f);
      assert q[..|q| - 1] == QuoteAll(f[..|f| - 1]);
      QuoteAllCount(f[..|f| - 1], c);
      var s := f[|f| - 1];
      CountAppend("\"", s, c);
      CountAppend("\"" + s, "\"", c);
    }
  }

  /** Counting in a line: twelve quotes and five commas of its own, one newline,
      plus whatever the six field texts hold. */
  lemma LineCount(r: ExportRow, c: char)
    ensures Count(CsvLine(r), c)
            == CountAll(Fields(r), c)
               + (if c == '"' then 12 else 0) + (if c == ',' then 5 else 0) + (if c == '\n' then 1 else 0)
  {
    var q := QuoteAll(Fields(r));
    JoinCount(q, c);
    QuoteAllCount(Fields(r), c);
    CountAppend(Join(q), "\n", c);
  }

  /** No field text of the row contains `c`. */
  predicate FieldsFree(r: ExportRow, c: char) {
    forall i :: 0 <= i < |Columns| ==> c !in Fields(r)[i]
  }

  lemma {:induction false} CountAbsent(s: string, c: char)
    requires c !in s
    ensures Count(s, c) == 0
  {
    if s != [] {
      CountAbsent(s[..|s| - 1], c);
    }
  }

  lemma {:induction false} CountPresent(s: string, c: char)
    requires c in s
    ensures Count(s, c) > 0
  {
    if s[|s| - 1] != c {
      assert c in s[..|s| - 1] by {
        var k :| 0 <= k < |s| && s[k] == c;
        assert s[..|s| - 1][k] == c;
      }
      CountPresent(s[..|s| - 1], c);
    }
  }

  /** The parts hold no `c` exactly when none of them contains it. */
  lemma {:induction false} CountAllZero(parts: seq<string>, c: char)
    ensures CountAll(parts, c) == 0 <==> forall i :: 0 <= i < |parts| ==> c !in parts[i]
    decreases |parts|
  {
    if parts != [] {
      var init, last := parts[..|parts| - 1], parts[|parts| - 1];
      CountAllZero(init, c);
      if c in last {
        CountPresent(last, c);
      } else {
        CountAbsent(last, c);
      }
      assert forall i :: 0 <= i < |init| ==> init[i] == parts[i];
    }
  }

  /** With no newline inside any value, the document has one line for the
      header and one per row. */
  lemma {:induction false} DocumentLines(rows: seq<ExportRow>)
    requires forall i :: 0 <= i < |rows| ==> FieldsFree(rows[i], '\n')
    ensures Count(CsvDocument(rows), '\n') == 1 + |rows|
  {
    BodyLines(rows);
    HeaderLines();
    CountAppend(Header(), CsvBody(rows), '\n');
  }

  /** The header is a single line. */
  lemma HeaderLines()
    ensures Count(Header(), '\n') == 1
  {
    forall i | 0 <= i < |Columns| ensures '\n' !in Columns[i] {
    }
    CountAllZero(Columns, '\n');
    JoinCount(Columns, '\n');
    CountAppend(Join(Columns), "\n", '\n');
  }

  lemma {:induction false} BodyLines(rows: seq<ExportRow>)
    requires forall i :: 0 <= i < |rows| ==> FieldsFree(rows[i], '\n')
    ensures Count(CsvBody(rows), '\n') == |rows|
  {
    if rows != [] {
      var last := rows[|rows| - 1];
      BodyLines(rows[..|rows| - 1]);
      CountAppend(CsvBody(rows[..|rows| - 1]), CsvLine(last), '\n');
      LineCount(last, '\n');
      CountAllZero(Fields(last), '\n');
    }
  }

  /** Quotes inside a value are not doubled: a line holds exactly twelve quote
      characters only when its values hold none. */
  lemma QuotesNotEscaped(r: ExportRow)
    ensures Count(CsvLine(r), '"') == 12 <==> FieldsFree(r, '"')
  {
    LineCount(r, '"');
    CountAllZero(Fields(r), '"');
  }
}
