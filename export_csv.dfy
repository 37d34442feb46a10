/**
 * The analytics export of `src/components/analytics/ExportButton.tsx`:
 * records turned into comma-separated text (`convertToCSV`), the summary
 * report (`createSummaryReport`) and the three files one click produces.
 * A reader for the format, in the manner of RFC 4180 (a quoted field may
 * hold commas, line breaks and doubled quotes), is the partner the writer
 * is proved against.
 */
module ExportCsv {
  import opened Wrappers
  import opened Text
  import opened Lists

  /** A value a record holds under a column key; `Missing` is `null` or `undefined`. */
  datatype Cell = Str(s: string) | Num(n: int) | Bool(b: bool) | Missing

  datatype Column = Column(key: string, heading: string)

  type Record = map<string, Cell>

  /** The text `Array.prototype.join` writes for a value it is given as it is. */
  function Shown(v: Cell): string {
    match v
    case Str(s) => s
    case Num(n) => IntToString(n)
    case Bool(b) => if b then "true" else "false"
    case Missing => ""
  }

  /** `item[col.key]`: a key the record lacks reads as `undefined`. */
  function ValueAt(item: Record, key: string): Cell {
    if key in item then item[key] else Missing
  }

  function Cells(item: Record, columns: seq<Column>): (r: seq<Cell>)
    ensures |r| == |columns|
  {
    Map((c: Column) => ValueAt(item, c.key), columns)
  }

  function Labels(columns: seq<Column>): (r: seq<string>)
    ensures |r| == |columns|
  {
    Map((c: Column) => c.heading, columns)
  }

  /** `value.replace(/"/g, '""')`. */
  function DoubleQuotes(s: string): string {
    if s == [] then []
    else (if s[0] == '"' then "\"\"" else [s[0]]) + DoubleQuotes(s[1..])
  }

  function Quote(s: string): string {
    "\"" + DoubleQuotes(s) + "\""
  }

  /**
   * Whether a value is written quoted. As written, a string is quoted when
   * it holds a comma or a double quote; with `breaks`, also when it holds
   * a line feed or a carriage return.
   */
  predicate NeedsQuotes(breaks: bool, v: Cell) {
    v.Str? && (',' in v.s || '"' in v.s || (breaks && ('\n' in v.s || '\r' in v.s)))
  }

  /** The text written for one value. */
  function FieldText(breaks: bool, v: Cell): string {
    if NeedsQuotes(breaks, v) then Quote(v.s) else Shown(v)
  }

  function RecordLine(texts: seq<string>): string {
    Join(texts, ",")
  }

  /** The lines, each a record's field texts joined by commas, joined by line feeds. */
  function Document(lines: seq<seq<string>>): string {
    Join(Map(RecordLine, lines), "\n")
  }

  /** The field texts of one data row. */
  function RowTexts(breaks: bool, item: Record, columns: seq<Column>): (r: seq<string>)
    ensures |r| == |columns|
  {
    Map((v: Cell) => FieldText(breaks, v), Cells(item, columns))
  }

  /** `convertToCSV`, with the quoting test chosen by `breaks`: the labels line, then one line per record. */
  function Convert(breaks: bool, data: seq<Record>, columns: seq<Column>): string {
    Document(Lines(breaks, data, columns))
  }

  /** The fields of each output line: the labels, then each record's texts. */
  function Lines(breaks: bool, data: seq<Record>, columns: seq<Column>): seq<seq<string>> {
    [Labels(columns)] + Map((item: Record) => RowTexts(breaks, item, columns), data)
  }

  /** `convertToCSV` as written. */
  function ConvertToCsvAsWritten(data: seq<Record>, columns: seq<Column>): string {
    Convert(false, data, columns)
  }

  /** `convertToCSV` corrected to quote line breaks as well, so that every record reads back whole. */
  function ConvertToCsv(data: seq<Record>, columns: seq<Column>): string {
    Convert(true, data, columns)
  }

  // ---------------------------------------------------------------------------
  // Reading the format back
  // ---------------------------------------------------------------------------

  /** After an opening quote: a doubled quote stands for one, a lone quote closes the field. */
  function ReadQuoted(t: string): (r: (string, string))
    ensures |r.1| <= |t|
  {
    if t == [] then ([], [])
    else if t[0] == '"' then
      if |t| > 1 && t[1] == '"' then
        var (f, rest) := ReadQuoted(t[2..]);
        (['"'] + f, rest)
      else ([], t[1..])
    else
      var (f, rest) := ReadQuoted(t[1..]);
      ([t[0]] + f, rest)
  }

  /** An unquoted field runs up to the next comma or line feed. */
  function ReadPlain(t: string): (r: (string, string))
    ensures |r.1| <= |t|
  {
    if t == [] || t[0] == ',' || t[0] == '\n' then ([], t)
    else
      var (f, rest) := ReadPlain(t[1..]);
      ([t[0]] + f, rest)
  }

  /** One field and the text after it. */
  function ReadField(t: string): (r: (string, string))
    ensures |r.1| <= |t|
  {
    if t != [] && t[0] == '"' then ReadQuoted(t[1..]) else ReadPlain(t)
  }

  /** One record: its fields, and the text after its line feed (`None` when the text ended). */
  function ReadRecord(t: string): (r: (seq<string>, Option<string>))
    ensures |r.0| >= 1
    ensures r.1.Some? ==> |r.1.value| < |t|
    decreases |t|
  {
    var (f, rest) := ReadField(t);
    if rest == [] then ([f], None)
    else if rest[0] == '\n' then ([f], Some(rest[1..]))
    else
      var (fs, after) := ReadRecord(rest[1..]);
      ([f] + fs, after)
  }

  /** All the records of a text. */
  function ReadDoc(t: string): (r: seq<seq<string>>)
    ensures |r| >= 1
    decreases |t|
  {
    var (fields, after) := ReadRecord(t);
    if after.None? then [fields] else [fields] + ReadDoc(after.value)
  }

  /** A text that can be written as it is: no comma, no double quote, no line feed. */
  predicate Plain(s: string) {
    ',' !in s && '"' !in s && '\n' !in s
  }

  /** A field text stands for `value`: the value itself, when plain, or the value quoted. */
  predicate Encodes(text: string, value: string) {
    (text == value && Plain(value)) || text == Quote(value)
  }

  predicate EncodesAll(texts: seq<string>, values: seq<string>) {
    |texts| == |values| && forall i :: 0 <= i < |texts| ==> Encodes(texts[i], values[i])
  }

  predicate Follows(r: string) {
    r == [] || r[0] == ',' || r[0] == '\n'
  }

  lemma {:induction false} ReadQuotedOf(s: string, r: string)
    requires r == [] || r[0] != '"'
    ensures ReadQuoted(DoubleQuotes(s) + "\"" + r) == (s, r)
  {
    var t := DoubleQuotes(s) + "\"" + r;
    if s == [] {
      assert t == "\"" + r && t[1..] == r;
    } else {
      ReadQuotedOf(s[1..], r);
      var u := DoubleQuotes(s[1..]) + "\"" + r;
      var head := if s[0] == '"' then "\"\"" else [s[0]];
      assert DoubleQuotes(s) == head + DoubleQuotes(s[1..]);
      Assoc(head, DoubleQuotes(s[1..]), "\"");
      Assoc(head, DoubleQuotes(s[1..]) + "\"", r);
      assert t == head + u;
      if s[0] == '"' {
        assert t[2..] == u;
      } else {
        assert t[1..] == u;
      }
      assert [s[0]] + s[1..] == s;
    }
  }

  lemma ReadPlainOf(s: string, r: string)
    requires ',' !in s && '\n' !in s && Follows(r)
    ensures ReadPlain(s + r) == (s, r)
  {
    forall k | 0 <= k < |s| ensures s[k] != ',' && s[k] != '\n' {
      assert s[k] in s;
    }
    ReadPlainRun(s, r);
  }

  /** Reading an unquoted field over a run with no comma and no line feed takes the whole run. */
  lemma {:induction false} ReadPlainRun(s: string, r: string)
    requires forall k :: 0 <= k < |s| ==> s[k] != ',' && s[k] != '\n'
    requires Follows(r)
    ensures ReadPlain(s + r) == (s, r)
  {
    if s == [] {
      assert s + r == r;
    } else {
      var t := s + r;
      assert t[0] == s[0] && t[1..] == s[1..] + r;
      ReadPlainRun(s[1..], r);
      assert [s[0]] + s[1..] == s;
    }
  }

  /** Reading a field's text gives back the value it encodes and stops where the text ends. */
  lemma ReadFieldOf(text: string, value: string, r: string)
    requires Encodes(text, value) && Follows(r)
    ensures ReadField(text + r) == (value, r)
  {
    if text == Quote(value) {
      var t := text + r;
      assert t == "\"" + (DoubleQuotes(value) + "\"" + r);
      assert t[1..] == DoubleQuotes(value) + "\"" + r;
      ReadQuotedOf(value, r);
    } else {
      if value != [] {
        assert value[0] in value;
        assert (text + r)[0] == value[0];
      } else {
        assert text + r == r;
      }
      ReadPlainOf(value, r);
    }
  }

  /** Reading one written record gives back its values and what follows its line feed. */
  lemma {:induction false} ReadRecordOf(texts: seq<string>, values: seq<string>, r: string)
    requires |texts| >= 1 && EncodesAll(texts, values)
    requires r == [] || r[0] == '\n'
    ensures ReadRecord(RecordLine(texts) + r) == (values, if r == [] then None else Some(r[1..]))
    decreases |texts|
  {
    if |texts| == 1 {
      assert RecordLine(texts) == texts[0];
      assert values == [values[0]];
      ReadFieldOf(texts[0], values[0], r);
    } else {
      var tail := RecordLine(texts[1..]);
      var rest := "," + tail + r;
      assert RecordLine(texts) == texts[0] + "," + tail;
      Assoc(texts[0] + ",", tail, r);
      Assoc(texts[0], ",", tail + r);
      assert RecordLine(texts) + r == texts[0] + rest;
      ReadFieldOf(texts[0], values[0], rest);
      assert rest[1..] == tail + r;
      ReadRecordOf(texts[1..], values[1..], r);
      assert [values[0]] + values[1..] == values;
    }
  }

  /** Reading a written document gives back every record's values, in order. */
  lemma {:induction false} ReadDocOf(lines: seq<seq<string>>, rows: seq<seq<string>>)
    requires |lines| == |rows| >= 1
    requires forall i :: 0 <= i < |lines| ==> |lines[i]| >= 1 && EncodesAll(lines[i], rows[i])
    ensures ReadDoc(Document(lines)) == rows
    decreases |lines|
  {
    var ls := Map(RecordLine, lines);
    if |lines| == 1 {
      assert Document(lines) == RecordLine(lines[0]) + "";
      assert rows == [rows[0]];
      ReadRecordOf(lines[0], rows[0], "");
    } else {
      var tail := Document(lines[1..]);
      assert ls[1..] == Map(RecordLine, lines[1..]);
      assert Document(lines) == RecordLine(lines[0]) + "\n" + tail;
      Assoc(RecordLine(lines[0]), "\n", tail);
      ReadRecordOf(lines[0], rows[0], "\n" + tail);
      assert ("\n" + tail)[1..] == tail;
      ReadDocOf(lines[1..], rows[1..]);
      assert [rows[0]] + rows[1..] == rows;
    }
  }

  // ---------------------------------------------------------------------------
  // The writer against the reader
  // ---------------------------------------------------------------------------

  lemma IntPlain(n: int)
    ensures Plain(IntToString(n))
  {
    var r := IntToString(n);
    var d := if n < 0 then NatToString(-n) else r;
    assert n < 0 ==> r == "-" + d;
    assert forall k :: 0 <= k < |r| ==> IsDigit(r[k]) || r[k] == '-' by {
      forall k | 0 <= k < |r| ensures IsDigit(r[k]) || r[k] == '-' {
        if n < 0 && k > 0 {
          assert r[k] == d[k - 1];
        }
      }
    }
  }

  /** The text written for a value encodes the text `join` would show for it, unless an unquoted line break splits it. */
  lemma FieldEncodes(breaks: bool, v: Cell)
    requires breaks || '\n' !in Shown(v)
    ensures Encodes(FieldText(breaks, v), Shown(v))
  {
    if v.Num? {
      IntPlain(v.n);
    }
  }

  lemma RowEncodes(breaks: bool, item: Record, columns: seq<Column>)
    requires breaks || forall c :: c in columns ==> '\n' !in Shown(ValueAt(item, c.key))
    ensures EncodesAll(RowTexts(breaks, item, columns), Map(Shown, Cells(item, columns)))
  {
    var cells := Cells(item, columns);
    forall i | 0 <= i < |cells|
      ensures Encodes(RowTexts(breaks, item, columns)[i], Map(Shown, cells)[i])
    {
      assert columns[i] in columns;
      FieldEncodes(breaks, cells[i]);
    }
  }

  /** What a reader should find in the output: the labels, then the shown values of each record. */
  function Expected(data: seq<Record>, columns: seq<Column>): seq<seq<string>> {
    [Labels(columns)] + Map((item: Record) => Map(Shown, Cells(item, columns)), data)
  }

  lemma ConvertReadsBack(breaks: bool, data: seq<Record>, columns: seq<Column>)
    requires |columns| >= 1
    requires forall c :: c in columns ==> Plain(c.heading)
    requires breaks || forall item, c :: item in data && c in columns ==> '\n' !in Shown(ValueAt(item, c.key))
    ensures ReadDoc(Convert(breaks, data, columns)) == Expected(data, columns)
  {
    var lines := Lines(breaks, data, columns);
    var rows := Expected(data, columns);
    forall i | 0 <= i < |lines|
      ensures |lines[i]| >= 1 && EncodesAll(lines[i], rows[i])
    {
      LineEncodes(breaks, data, columns, i);
    }
    ReadDocOf(lines, rows);
  }

  /** Line `i` of the export reads back as line `i` of what a reader should find. */
  lemma LineEncodes(breaks: bool, data: seq<Record>, columns: seq<Column>, i: nat)
    requires i <= |data| && |columns| >= 1
    requires forall c :: c in columns ==> Plain(c.heading)
    requires breaks || forall item, c :: item in data && c in columns ==> '\n' !in Shown(ValueAt(item, c.key))
    ensures |Lines(breaks, data, columns)[i]| >= 1
    ensures EncodesAll(Lines(breaks, data, columns)[i], Expected(data, columns)[i])
  {
    var lines, rows := Lines(breaks, data, columns), Expected(data, columns);
    if i == 0 {
      assert lines[0] == Labels(columns) && rows[0] == Labels(columns);
      LabelsEncode(columns);
    } else {
      var item := data[i - 1];
      assert lines[i] == RowTexts(breaks, item, columns);
      assert rows[i] == Map(Shown, Cells(item, columns));
      assert breaks || forall c :: c in columns ==> '\n' !in Shown(ValueAt(item, c.key)) by {
        assert item in data;
      }
      RowEncodes(breaks, item, columns);
    }
  }

  /** The labels line reads back as the labels. */
  lemma LabelsEncode(columns: seq<Column>)
    requires |columns| >= 1
    requires forall c :: c in columns ==> Plain(c.heading)
    ensures |Labels(columns)| >= 1 && EncodesAll(Labels(columns), Labels(columns))
  {
    forall k | 0 <= k < |columns| ensures Encodes(Labels(columns)[k], Labels(columns)[k]) {
      assert columns[k] in columns;
    }
  }

  /**
   * With line breaks quoted, every export reads back as the labels line
   * followed by one line per record holding each value's text, whatever
   * the values hold.
   */
  lemma ConvertToCsvReadsBack(data: seq<Record>, columns: seq<Column>)
    requires |columns| >= 1
    requires forall c :: c in columns ==> Plain(c.heading)
    ensures ReadDoc(ConvertToCsv(data, columns)) == Expected(data, columns)
    ensures |ReadDoc(ConvertToCsv(data, columns))| == |data| + 1
  {
    ConvertReadsBack(true, data, columns);
  }

  /** As written, the export reads back the same way only while no value shows a line feed. */
  lemma AsWrittenReadsBack(data: seq<Record>, columns: seq<Column>)
    requires |columns| >= 1
    requires forall c :: c in columns ==> Plain(c.heading)
    requires forall item, c :: item in data && c in columns ==> '\n' !in Shown(ValueAt(item, c.key))
    ensures ReadDoc(ConvertToCsvAsWritten(data, columns)) == Expected(data, columns)
  {
    ConvertReadsBack(false, data, columns);
  }

  /**
   * An answer "a", line feed, "b" has no comma and no quote, so as written
   * it goes out unquoted: the one record reads back as two, while the
   * corrected export keeps it whole.
   */
  lemma AsWrittenSplitsRecord()
    ensures var data := [map["answer" := Str("a\nb")]];
      var columns := [Column("answer", "Answer")];
      ReadDoc(ConvertToCsvAsWritten(data, columns)) == [["Answer"], ["a"], ["b"]] &&
      ReadDoc(ConvertToCsv(data, columns)) == [["Answer"], ["a\nb"]]
  {
    var data := [map["answer" := Str("a\nb")]];
    var columns := [Column("answer", "Answer")];
    AsWrittenText(data, columns);
    ThreeLines();
    CorrectedKeepsWhole(data, columns);
  }

  lemma CorrectedKeepsWhole(data: seq<Record>, columns: seq<Column>)
    requires data == [map["answer" := Str("a\nb")]] && columns == [Column("answer", "Answer")]
    ensures ReadDoc(ConvertToCsv(data, columns)) == [["Answer"], ["a\nb"]]
  {
    assert Plain("Answer") by { LiteralPlain("Answer"); }
    ConvertToCsvReadsBack(data, columns);
    assert Labels(columns) == ["Answer"];
    assert Cells(data[0], columns) == [Str("a\nb")];
    assert Map(Shown, Cells(data[0], columns)) == ["a\nb"];
    assert Expected(data, columns) == [["Answer"], ["a\nb"]];
  }

  lemma AsWrittenText(data: seq<Record>, columns: seq<Column>)
    requires data == [map["answer" := Str("a\nb")]] && columns == [Column("answer", "Answer")]
    ensures ConvertToCsvAsWritten(data, columns) == "Answer" + "\n" + "a\nb"
  {
    assert Labels(columns) == ["Answer"];
    assert Cells(data[0], columns) == [Str("a\nb")];
    assert !NeedsQuotes(false, Str("a\nb")) by {
      assert "a\nb"[0] != ',' && "a\nb"[1] != ',' && "a\nb"[2] != ',';
      assert "a\nb"[0] != '"' && "a\nb"[1] != '"' && "a\nb"[2] != '"';
    }
    assert FieldText(false, Str("a\nb")) == "a\nb";
    assert RowTexts(false, data[0], columns) == ["a\nb"];
    var written := [["Answer"], ["a\nb"]];
    var rowsWritten := Map((item: Record) => RowTexts(false, item, columns), data);
    assert rowsWritten == [["a\nb"]];
    assert [Labels(columns)] + rowsWritten == written;
    assert ConvertToCsvAsWritten(data, columns) == Document(written);
    assert RecordLine(["Answer"]) == "Answer" && RecordLine(["a\nb"]) == "a\nb";
    assert Map(RecordLine, written) == ["Answer", "a\nb"];
    assert Join(["a\nb"], "\n") == "a\nb";
  }

  lemma ThreeLines()
    ensures ReadDoc("Answer" + "\n" + "a\nb") == [["Answer"], ["a"], ["b"]]
  {
    var split := [["Answer"], ["a"], ["b"]];
    assert RecordLine(["Answer"]) == "Answer";
    assert RecordLine(["a"]) == "a" && RecordLine(["b"]) == "b";
    assert Map(RecordLine, split) == ["Answer", "a", "b"];
    assert Join(["a", "b"], "\n") == "a" + "\n" + "b";
    assert ["Answer", "a", "b"][1..] == ["a", "b"];
    assert Document(split) == "Answer" + "\n" + ("a" + "\n" + "b");
    assert "a" + "\n" + "b" == "a\nb";
    assert Plain("Answer") by { LiteralPlain("Answer"); }
    assert Plain("a") by { LiteralPlain("a"); }
    assert Plain("b") by { LiteralPlain("b"); }
    ReadDocOf(split, split);
  }

  // ---------------------------------------------------------------------------
  // The summary report and the three files
  // ---------------------------------------------------------------------------

  /** The analytics summary, with the fields the export reads; each time point is given by its date. */
  datatype AnalyticsSummary = AnalyticsSummary(
    totalAnswers: int,
    overallAverageScore: real,
    averageScorePerQuestion: seq<Record>,
    evaluationDates: seq<string>)

  /** `Math.round`-style rounding to hundredths of a non-negative number, as `toFixed(2)` rounds. */
  function Cents(m: real): (c: nat)
    requires m >= 0.0
    ensures c as real - 0.5 <= m * 100.0 < c as real + 0.5
  {
    (m * 100.0 + 0.5).Floor
  }

  /** `x.toFixed(2)`: sign, whole part, point and two decimals. */
  function ToFixed2(x: real): string {
    var m := if x < 0.0 then -x else x;
    (if x < 0.0 then "-" else "") + CentsText(Cents(m))
  }

  /** A count of hundredths written as the whole part, a point and two decimals. */
  function CentsText(c: nat): string {
    var h := c % 100;
    NatToString(c / 100) + "." + [DigitChar(h / 10), DigitChar(h % 10)]
  }

  /** The two-decimal text reads back as the whole part, a point and the hundredths nearest the number. */
  lemma ToFixed2Reads(x: real)
    requires x >= 0.0
    ensures var s := ToFixed2(x); var c := Cents(x);
      |s| >= 4 && s[|s| - 3] == '.' && ParseInt(s[..|s| - 3]) == Some(c / 100) &&
      AllDigits(s[|s| - 2..]) && DecValue(s[|s| - 2..]) == c % 100 &&
      c as real - 0.5 <= x * 100.0 < c as real + 0.5
  {
    var c := Cents(x);
    assert ToFixed2(x) == "" + CentsText(c);
    assert "" + CentsText(c) == CentsText(c);
    CentsTextReads(c);
  }

  /** The hundredths text reads back as the whole part, a point and the remaining hundredths. */
  lemma CentsTextReads(c: nat)
    ensures var s := CentsText(c);
      |s| >= 4 && s[|s| - 3] == '.' && ParseInt(s[..|s| - 3]) == Some(c / 100) &&
      AllDigits(s[|s| - 2..]) && DecValue(s[|s| - 2..]) == c % 100
  {
    var s := CentsText(c);
    var w, h := NatToString(c / 100), c % 100;
    var f := [DigitChar(h / 10), DigitChar(h % 10)];
    assert s[..|s| - 3] == w && s[|s| - 2..] == f;
    ParseIntOfIntToString(c / 100);
    TwoDigits(h / 10, h % 10);
  }

  /** Two digit characters read as the number they write. */
  lemma TwoDigits(d1: nat, d2: nat)
    requires d1 < 10 && d2 < 10
    ensures AllDigits([DigitChar(d1), DigitChar(d2)]) && DecValue([DigitChar(d1), DigitChar(d2)]) == d1 * 10 + d2
  {
    var f := [DigitChar(d1), DigitChar(d2)];
    assert DecValue(f) == DecValue(f[..1]) * 10 + DigitValue(f[1]);
    assert DecValue(f[..1]) == DigitValue(f[0]) by {
      assert f[..1][..0] == [];
    }
  }

  lemma ToFixed2Plain(x: real)
    ensures Plain(ToFixed2(x))
  {
    var m := if x < 0.0 then -x else x;
    var c := Cents(m);
    var w := NatToString(c / 100);
    var f := [DigitChar(c % 100 / 10), DigitChar(c % 100 % 10)];
    var sign: string := if x < 0.0 then "-" else "";
    var s := ToFixed2(x);
    assert s == sign + (w + "." + f);
    assert sign + (w + "." + f) == sign + w + "." + f;
    forall k | 0 <= k < |s| ensures IsDigit(s[k]) || s[k] == '-' || s[k] == '.' {
      if k < |sign| {
      } else if k < |sign| + |w| {
        assert s[k] == w[k - |sign|];
      } else if k > |sign| + |w| {
        assert s[k] == f[k - |sign| - |w| - 1];
      }
    }
  }

  /** `${point?.date || 'N/A'}`: a missing or empty date shows as N/A. */
  function DateOrNA(dates: seq<string>, i: int): string {
    if 0 <= i < |dates| && dates[i] != "" then dates[i] else "N/A"
  }

  function DateRange(dates: seq<string>): string {
    DateOrNA(dates, 0) + " to " + DateOrNA(dates, |dates| - 1)
  }

  /** The rows of `createSummaryReport`. */
  function SummaryRows(a: AnalyticsSummary): seq<seq<string>> {
    [["Metric", "Value"],
     ["Total Answers Evaluated", IntToString(a.totalAnswers)],
     ["Overall Average Score", ToFixed2(a.overallAverageScore)],
     ["Number of Questions", IntToString(|a.averageScorePerQuestion|)],
     ["Date Range", DateRange(a.evaluationDates)]]
  }

  /** `createSummaryReport`: each row joined by commas, the rows by line feeds, nothing quoted. */
  function CreateSummaryReport(a: AnalyticsSummary): string {
    Document(SummaryRows(a))
  }

  /**
   * The report reads back as five metric rows under the "Metric,Value"
   * header, whose values give back the total, the average's two-decimal
   * text, the question count and the first and last dates (N/A when there
   * are none), provided no date holds a comma, quote or line feed.
   */
  lemma SummaryReadsBack(a: AnalyticsSummary)
    requires forall d :: d in a.evaluationDates ==> Plain(d)
    ensures var rows := ReadDoc(CreateSummaryReport(a));
      |rows| == 5 && rows[0] == ["Metric", "Value"] &&
      (forall i :: 1 <= i < 5 ==> |rows[i]| == 2) &&
      ParseInt(rows[1][1]) == Some(a.totalAnswers) &&
      rows[2][1] == ToFixed2(a.overallAverageScore) &&
      ParseInt(rows[3][1]) == Some(|a.averageScorePerQuestion|) &&
      rows[4][1] == DateRange(a.evaluationDates)
    ensures a.evaluationDates == [] ==> DateRange(a.evaluationDates) == "N/A to N/A"
  {
    SummaryDocReadsBack(a);
    SummaryRowsShape(a);
    NoDatesRange(a.evaluationDates);
  }

  /** The five rows of the report and the values they carry. */
  lemma SummaryRowsShape(a: AnalyticsSummary)
    ensures var rows := SummaryRows(a);
      |rows| == 5 && rows[0] == ["Metric", "Value"] &&
      (forall i :: 1 <= i < 5 ==> |rows[i]| == 2) &&
      ParseInt(rows[1][1]) == Some(a.totalAnswers) &&
      rows[2][1] == ToFixed2(a.overallAverageScore) &&
      ParseInt(rows[3][1]) == Some(|a.averageScorePerQuestion|) &&
      rows[4][1] == DateRange(a.evaluationDates)
  {
    ParseIntOfIntToString(a.totalAnswers);
    ParseIntOfIntToString(|a.averageScorePerQuestion|);
  }

  /** The report reads back as its rows. */
  lemma SummaryDocReadsBack(a: AnalyticsSummary)
    requires forall d :: d in a.evaluationDates ==> Plain(d)
    ensures ReadDoc(CreateSummaryReport(a)) == SummaryRows(a)
  {
    var rows := SummaryRows(a);
    SummaryPlain(a);
    forall i | 0 <= i < |rows| ensures |rows[i]| >= 1 && EncodesAll(rows[i], rows[i]) {
      assert |rows[i]| == 2;
    }
    ReadDocOf(rows, rows);
  }

  /** With no dates the range reads "N/A to N/A". */
  lemma NoDatesRange(dates: seq<string>)
    ensures dates == [] ==> DateRange(dates) == "N/A to N/A"
  {
    assert "N/A" + " to " + "N/A" == "N/A to N/A";
  }

  lemma SummaryPlain(a: AnalyticsSummary)
    requires forall d :: d in a.evaluationDates ==> Plain(d)
    ensures forall i, k :: 0 <= i < 5 && 0 <= k < 2 ==> Plain(SummaryRows(a)[i][k])
  {
    IntPlain(a.totalAnswers);
    IntPlain(|a.averageScorePerQuestion|);
    ToFixed2Plain(a.overallAverageScore);
    DateRangePlain(a.evaluationDates);
    SummaryLabelsPlain();
  }

  /** The labels of the summary report hold no comma, quote or line feed. */
  lemma SummaryLabelsPlain()
    ensures Plain("Metric") && Plain("Value") && Plain("Total Answers Evaluated")
    ensures Plain("Overall Average Score") && Plain("Number of Questions") && Plain("Date Range")
  {
    HeaderLabelsPlain();
    MetricLabelsPlain();
  }

  lemma HeaderLabelsPlain()
    ensures Plain("Metric") && Plain("Value") && Plain("Total Answers Evaluated")
  {
    assert Plain("Metric") && Plain("Value");
  }

  lemma MetricLabelsPlain()
    ensures Plain("Overall Average Score") && Plain("Number of Questions") && Plain("Date Range")
  {
    assert Plain("Overall Average Score");
  }

  /** A text made only of letters, digits, spaces and the characters of ISO dates is plain. */
  lemma LiteralPlain(s: string)
    requires forall k :: 0 <= k < |s| ==> s[k] == ' ' || s[k] == '/' || s[k] == '-' || s[k] == ':' || s[k] == '.' || 'A' <= s[k] <= 'Z' || 'a' <= s[k] <= 'z' || '0' <= s[k] <= '9'
    ensures Plain(s)
  {
  }

  lemma DateRangePlain(dates: seq<string>)
    requires forall d :: d in dates ==> Plain(d)
    ensures Plain(DateRange(dates))
  {
    var first, last := DateOrNA(dates, 0), DateOrNA(dates, |dates| - 1);
    assert Plain("N/A") by { LiteralPlain("N/A"); }
    assert |dates| > 0 ==> dates[0] in dates && dates[|dates| - 1] in dates;
    assert Plain(first) && Plain(last);
    var mid := " to ";
    LiteralPlain(mid);
    var s := first + mid + last;
    assert DateRange(dates) == s;
    forall k | 0 <= k < |s| ensures s[k] != ',' && s[k] != '"' && s[k] != '\n' {
      if k < |first| {
        assert s[k] == first[k];
      } else if k < |first| + 4 {
        assert s[k] == mid[k - |first|];
      } else {
        assert s[k] == last[k - |first| - 4];
      }
    }
  }

  const EvaluationColumns := [
    Column("id", "ID"), Column("questionContent", "Question"), Column("answer", "Answer"),
    Column("score", "Score"), Column("justification", "Justification"), Column("llmModel", "LLM Model"),
    Column("timestamp", "Timestamp")]

  const QuestionColumns := [
    Column("questionId", "Question ID"), Column("questionContent", "Question Content"),
    Column("averageScore", "Average Score"), Column("totalEvaluations", "Total Evaluations")]

  lemma ColumnsPlain()
    ensures forall c :: c in EvaluationColumns ==> Plain(c.heading)
    ensures forall c :: c in QuestionColumns ==> Plain(c.heading)
  {
    EvaluationHeadingsPlain();
    QuestionHeadingsPlain();
  }

  lemma EvaluationHeadingsPlain()
    ensures Plain("ID") && Plain("Question") && Plain("Answer") && Plain("Score")
    ensures Plain("Justification") && Plain("LLM Model") && Plain("Timestamp")
  {
    ShortHeadingsPlain();
    LongHeadingsPlain();
  }

  lemma ShortHeadingsPlain()
    ensures Plain("ID") && Plain("Question") && Plain("Answer") && Plain("Score")
  {
    assert Plain("ID") && Plain("Question");
  }

  lemma LongHeadingsPlain()
    ensures Plain("Justification") && Plain("LLM Model") && Plain("Timestamp")
  {
    assert Plain("Justification");
  }

  lemma QuestionHeadingsPlain()
    ensures Plain("Question ID") && Plain("Question Content")
    ensures Plain("Average Score") && Plain("Total Evaluations")
  {
    assert Plain("Question ID") && Plain("Question Content");
  }

  /** `exportToCSV`: the three files it downloads, by name, written by `convertToCSV` as it stands. */
  function ExportFiles(a: AnalyticsSummary, evaluations: seq<Record>): seq<(string, string)> {
    [("evaluations.csv", ConvertToCsvAsWritten(evaluations, EvaluationColumns)),
     ("question_summary.csv", ConvertToCsvAsWritten(a.averageScorePerQuestion, QuestionColumns)),
     ("analytics_summary.csv", CreateSummaryReport(a))]
  }

  /** No value of the records, in the given columns, shows a line feed. */
  predicate NoLineFeeds(data: seq<Record>, columns: seq<Column>) {
    forall item, c :: item in data && c in columns ==> '\n' !in Shown(ValueAt(item, c.key))
  }

  /**
   * While no exported value shows a line feed, each exported file reads
   * back as its header and one row per evaluation, per question, or per
   * metric; a value with a line feed splits its record (`AsWrittenSplitsRecord`).
   */
  lemma ExportFilesReadBack(a: AnalyticsSummary, evaluations: seq<Record>)
    requires forall d :: d in a.evaluationDates ==> Plain(d)
    requires NoLineFeeds(evaluations, EvaluationColumns)
    requires NoLineFeeds(a.averageScorePerQuestion, QuestionColumns)
    ensures var files := ExportFiles(a, evaluations);
      ReadDoc(files[0].1) == Expected(evaluations, EvaluationColumns) &&
      ReadDoc(files[1].1) == Expected(a.averageScorePerQuestion, QuestionColumns) &&
      |ReadDoc(files[2].1)| == 5
  {
    ColumnsPlain();
    AsWrittenReadsBack(evaluations, EvaluationColumns);
    AsWrittenReadsBack(a.averageScorePerQuestion, QuestionColumns);
    SummaryReadsBack(a);
  }
}
