/**
 * The storage text of a rubric, from `src/utils/rubricUtils.ts`:
 * `convertBracketsToContent` writes the brackets as a markdown table (sorted
 * by minScore) followed by an optional note, and `parseContentToBrackets`
 * reads such a text back line by line.
 */
module RubricContent {
  import opened Wrappers
  import opened Text
  import opened RubricTypes
  import opened BracketSort

  // ---------------------------------------------------------------------------
  // convertBracketsToContent
  // ---------------------------------------------------------------------------

  const Title: string := "Scoring Rubric:"
  const TableHeader: string := "| **Score Range** | **Criteria** |"
  const TableRule: string := "| --------------- | ------------ |"
  /** The text whose presence in a line marks the table header. */
  const HeaderMarker: string := "| **Score Range** |"

  /** The score cell of a row: `min` alone when both ends agree, else `min-max`. */
  function RangeText(b: ScoreBracket): string {
    if b.minScore == b.maxScore then IntToString(b.minScore)
    else IntToString(b.minScore) + "-" + IntToString(b.maxScore)
  }

  function RowText(b: ScoreBracket): string {
    "| **" + RangeText(b) + "** | " + b.criteria + " |"
  }

  /** One table row per bracket, each ended by a line break. */
  function Rows(s: seq<ScoreBracket>): string {
    if s == [] then "" else RowText(s[0]) + "\n" + Rows(s[1..])
  }

  /** The table preamble written in front of the rows. */
  function Preamble(): string {
    Title + "\n\n" + TableHeader + "\n" + TableRule + "\n"
  }

  /** The text `convertBracketsToContent(brackets, note)` returns; `""` stands for no note. */
  function Content(brackets: seq<ScoreBracket>, note: string): string {
    if |brackets| == 0 then
      (if note != "" then "Note:\n" + note else "")
    else
      Preamble() + Rows(SortByMin(brackets))
      + (if Trim(note) != "" then "\n\nNote:\n" + note else "")
  }

  /**
   * `convertBracketsToContent`: appends one row per bracket of the sorted copy
   * to the preamble, then the note when it is not blank.
   */
  method ConvertBracketsToContent(brackets: seq<ScoreBracket>, note: string) returns (content: string)
    ensures content == Content(brackets, note)
  {
    if |brackets| == 0 {
      if note != "" {
        return "Note:\n" + note;
      }
      return "";
    }
    var sortedBrackets := SortByMin(brackets);
    content := Title + "\n\n";
    content := content + (TableHeader + "\n");
    content := content + (TableRule + "\n");
    PreambleText(Title, TableHeader, TableRule);
    assert sortedBrackets[0..] == sortedBrackets;
    var i := 0;
    while i < |sortedBrackets|
      invariant 0 <= i <= |sortedBrackets|
      invariant content + Rows(sortedBrackets[i..]) == Preamble() + Rows(sortedBrackets)
    {
      var bracket := sortedBrackets[i];
      var range := if bracket.minScore == bracket.maxScore
        then IntToString(bracket.minScore)
        else IntToString(bracket.minScore) + "-" + IntToString(bracket.maxScore);
      var row := "| **" + range + "** | " + bracket.criteria + " |";
      NextRow(content, sortedBrackets, i);
      content := content + (row + "\n");
      i := i + 1;
    }
    assert content == Preamble() + Rows(sortedBrackets) by {
      assert sortedBrackets[i..] == [];
      NothingLeft(content, Rows(sortedBrackets[i..]), Preamble() + Rows(sortedBrackets));
    }
    if note != "" && Trim(note) != "" {
      Assoc(Preamble(), Rows(sortedBrackets), "\n\nNote:\n" + note);
      content := content + ("\n\nNote:\n" + note);
    } else {
      NoTail(Preamble(), Rows(sortedBrackets));
    }
  }

  lemma NothingLeft(written: string, rest: string, whole: string)
    requires written + rest == whole && rest == ""
    ensures written == whole
  {
    assert written + rest == written;
  }

  lemma PreambleText(title: string, header: string, rule: string)
    ensures title + "\n\n" + (header + "\n") + (rule + "\n") == title + "\n\n" + header + "\n" + rule + "\n"
  {
    Assoc(title + "\n\n", header, "\n");
    Assoc(title + "\n\n" + header + "\n", rule, "\n");
  }

  /** Writing the next row moves it from the rows still to come to the text written so far. */
  lemma NextRow(written: string, s: seq<ScoreBracket>, i: nat)
    requires i < |s|
    ensures written + (RowText(s[i]) + "\n") + Rows(s[i + 1..]) == written + Rows(s[i..])
  {
    assert Rows(s[i..]) == RowText(s[i]) + "\n" + Rows(s[i + 1..]) by {
      assert s[i..][0] == s[i] && s[i..][1..] == s[i + 1..];
    }
    Assoc(written, RowText(s[i]) + "\n", Rows(s[i + 1..]));
  }

  lemma NoTail(a: string, b: string)
    ensures a + b == a + b + ""
  {
  }

  // ---------------------------------------------------------------------------
  // parseContentToBrackets
  // ---------------------------------------------------------------------------

  /** The loop variables of parseContentToBrackets. */
  datatype ParseState = ParseState(
    brackets: seq<ScoreBracket>,
    inTable: bool,
    idCounter: nat,
    note: string,
    inNoteSection: bool)

  const Start: ParseState := ParseState([], false, 0, "", false)

  function BracketId(k: nat): string {
    "bracket-" + NatToString(k)
  }

  /** A non-empty text without surrounding whitespace. */
  predicate Clean(s: string) {
    s != "" && Trim(s) == s
  }

  /** `parts.map((p) => p.trim()).filter((p) => p)`. */
  function TrimmedCells(parts: seq<string>): seq<string> {
    if parts == [] then []
    else
      var t := Trim(parts[0]);
      var rest := TrimmedCells(parts[1..]);
      if t == "" then rest else [t] + rest
  }

  /** Every cell kept is non-empty and trimmed. */
  lemma {:induction false} TrimmedCellsClean(parts: seq<string>)
    ensures forall k :: 0 <= k < |TrimmedCells(parts)| ==> Clean(TrimmedCells(parts)[k])
  {
    if parts != [] {
      var t := Trim(parts[0]);
      TrimmedCellsClean(parts[1..]);
      if t != "" {
        TrimOfTrimmed(t);
        var r := TrimmedCells(parts);
        forall k | 0 <= k < |r| ensures Clean(r[k]) {
          if k > 0 {
            assert r[k] == TrimmedCells(parts[1..])[k - 1];
          }
        }
      }
    }
  }

  /** The non-blank cells of a table line, trimmed. */
  function Cells(line: string): seq<string> {
    TrimmedCells(Split(line, '|'))
  }

  /** `s.replace(/\*\*\/g, "")`: removes every `**`, scanning left to right. */
  function StripBold(s: string): string
    decreases |s|
  {
    if |s| >= 2 && s[0] == '*' && s[1] == '*' then StripBold(s[2..])
    else if s == [] then []
    else [s[0]] + StripBold(s[1..])
  }

  /**
   * The score cell read back: two `parseInt`s around the first two pieces
   * when the text holds a `-`, else one `parseInt` for both ends; `None`
   * when either is NaN.
   */
  function ParseRange(scoreRange: string): Option<(int, int)> {
    if '-' in scoreRange then
      var pieces := Split(scoreRange, '-');
      Pair(ParseInt(Trim(pieces[0])), ParseInt(Trim(pieces[1])))
    else
      Pair(ParseInt(scoreRange), ParseInt(scoreRange))
  }

  /** Both ends, or `None` when either is NaN. */
  function Pair(lo: Option<int>, hi: Option<int>): Option<(int, int)> {
    if lo.Some? && hi.Some? then Some((lo.value, hi.value)) else None
  }

  /**
   * The body of a table row: the first two non-blank cells, read as the
   * score range (with the `**` removed) and the criteria.
   */
  function ReadRow(line: string): Option<(int, int, string)> {
    var parts := Cells(line);
    if |parts| >= 2 then
      var scoreRange := Trim(StripBold(parts[0]));
      var criteria := Trim(parts[1]);
      match ParseRange(scoreRange)
      case Some((lo, hi)) => Some((lo, hi, criteria))
      case None => None
    else None
  }

  /** `line.trim().toLowerCase() === "note:"`, spelled out character by character. */
  predicate IsNoteHeading(line: string) {
    var t := Trim(line);
    |t| == 5 && LowerChar(t[0]) == 'n' && LowerChar(t[1]) == 'o' && LowerChar(t[2]) == 't' &&
    LowerChar(t[3]) == 'e' && LowerChar(t[4]) == ':'
  }

  lemma NoteHeadingIff(line: string)
    ensures IsNoteHeading(line) <==> Lower(Trim(line)) == "note:"
  {
    var t := Trim(line);
    if |t| == 5 {
      LowerAt(t, 0);
      LowerAt(t, 1);
      LowerAt(t, 2);
      LowerAt(t, 3);
      LowerAt(t, 4);
    }
  }

  /** One iteration of the loop over the lines. */
  function Step(st: ParseState, line: string): ParseState {
    if IsNoteHeading(line) then
      st.(inNoteSection := true, inTable := false)
    else if st.inNoteSection then
      AddNoteLine(st, line)
    else if Contains(line, HeaderMarker) then
      st.(inTable := true)
    else if st.inTable && IsRowLine(line) then
      AddRow(st, line)
    else st
  }

  /** Inside the note section: a non-blank line is appended, after a line break unless it is the first. */
  function AddNoteLine(st: ParseState, line: string): ParseState {
    if Trim(line) != "" then st.(note := st.note + (if st.note != "" then "\n" else "") + line)
    else st
  }

  /** A line that may be a table row: it starts with `|` and holds `**`. */
  predicate IsRowLine(line: string) {
    StartsWith(line, "|") && Contains(line, "**")
  }

  /** A table row that reads appends a bracket under the next id; one that does not is skipped. */
  function AddRow(st: ParseState, line: string): ParseState {
    match ReadRow(line)
    case Some((lo, hi, criteria)) =>
      st.(brackets := st.brackets + [ScoreBracket(BracketId(st.idCounter), lo, hi, criteria)],
          idCounter := st.idCounter + 1)
    case None => st
  }

  function Run(st: ParseState, lines: seq<string>): ParseState
    decreases |lines|
  {
    if lines == [] then st else Run(Step(st, lines[0]), lines[1..])
  }

  /** The result object: the brackets, and the trimmed note unless it is blank. */
  function Finish(st: ParseState): (seq<ScoreBracket>, Option<string>) {
    (st.brackets, if Trim(st.note) != "" then Some(Trim(st.note)) else None)
  }

  function Parse(content: string): (seq<ScoreBracket>, Option<string>) {
    Finish(Run(Start, Split(content, '\n')))
  }

  /**
   * `parseContentToBrackets`: one pass over the lines, tracking whether it is
   * inside the table or the note section.
   */
  method ParseContentToBrackets(content: string) returns (brackets: seq<ScoreBracket>, note: Option<string>)
    ensures (brackets, note) == Parse(content)
  {
    brackets := [];
    var lines := Split(content, '\n');
    var inTable := false;
    var idCounter: nat := 0;
    var noteText := "";
    var inNoteSection := false;
    var i := 0;
    while i < |lines|
      invariant 0 <= i <= |lines|
      invariant Run(ParseState(brackets, inTable, idCounter, noteText, inNoteSection), lines[i..])
                == Run(Start, lines)
    {
      var line := lines[i];
      ghost var before := ParseState(brackets, inTable, idCounter, noteText, inNoteSection);
      RunFrom(before, lines, i);
      if IsNoteHeading(line) {
        inNoteSection := true;
        inTable := false;
      } else if inNoteSection {
        if Trim(line) != "" {
          noteText := noteText + (if noteText != "" then "\n" else "") + line;
        }
      } else if Contains(line, HeaderMarker) {
        inTable := true;
      } else if inTable && IsRowLine(line) {
        var row := ReadRow(line);
        if row.Some? {
          var (minScore, maxScore, criteria) := row.value;
          brackets := brackets + [ScoreBracket(BracketId(idCounter), minScore, maxScore, criteria)];
          idCounter := idCounter + 1;
        }
        assert ParseState(brackets, inTable, idCounter, noteText, inNoteSection) == AddRow(before, line);
      }
      ghost var after := ParseState(brackets, inTable, idCounter, noteText, inNoteSection);
      assert after == Step(before, line);
      assert Run(after, lines[i + 1..]) == Run(Start, lines);
      i := i + 1;
    }
    assert lines[i..] == [];
    var trimmed := Trim(noteText);
    note := if trimmed != "" then Some(trimmed) else None;
  }

  lemma RunFrom(st: ParseState, lines: seq<string>, i: nat)
    requires i < |lines|
    ensures Run(st, lines[i..]) == Run(Step(st, lines[i]), lines[i + 1..])
  {
    assert lines[i..][0] == lines[i] && lines[i..][1..] == lines[i + 1..];
  }

  // ---------------------------------------------------------------------------
  // What a parse always yields
  // ---------------------------------------------------------------------------

  /** Ids count up from `bracket-0`, and every criteria is trimmed and non-empty. */
  predicate Numbered(st: ParseState) {
    st.idCounter == |st.brackets| &&
    forall k :: 0 <= k < |st.brackets| ==>
      st.brackets[k].id == BracketId(k) && Clean(st.brackets[k].criteria)
  }

  lemma StepNumbered(st: ParseState, line: string)
    requires Numbered(st)
    ensures Numbered(Step(st, line))
  {
    if !IsNoteHeading(line) && !st.inNoteSection && !Contains(line, HeaderMarker) && st.inTable && IsRowLine(line) {
      AddRowNumbered(st, line);
    } else {
      var st' := Step(st, line);
      assert st'.brackets == st.brackets && st'.idCounter == st.idCounter;
    }
  }

  lemma AddRowNumbered(st: ParseState, line: string)
    requires Numbered(st)
    ensures Numbered(AddRow(st, line))
  {
    ReadRowClean(line);
    var row := ReadRow(line);
    if row.Some? {
      var (lo, hi, c) := row.value;
      var n := |st.brackets|;
      var nb := st.brackets + [ScoreBracket(BracketId(n), lo, hi, c)];
      assert AddRow(st, line) == st.(brackets := nb, idCounter := n + 1);
      assert Clean(c);
      forall k | 0 <= k < |nb| ensures nb[k].id == BracketId(k) {
        if k < n {
          assert nb[k] == st.brackets[k];
        } else {
          assert k == n;
        }
      }
      forall k | 0 <= k < |nb| ensures Clean(nb[k].criteria) {
        if k < n {
          assert nb[k] == st.brackets[k];
        }
      }
    }
  }

  /** The criteria of a row that reads is non-empty and trimmed. */
  lemma ReadRowClean(line: string)
    ensures ReadRow(line).Some? ==> Clean(ReadRow(line).value.2)
  {
    var parts := Cells(line);
    TrimmedCellsClean(Split(line, '|'));
    if |parts| >= 2 {
      assert Clean(parts[1]);
      TrimOfTrimmed(parts[1]);
    }
  }

  lemma {:induction false} RunNumbered(st: ParseState, lines: seq<string>)
    requires Numbered(st)
    ensures Numbered(Run(st, lines))
    decreases |lines|
  {
    if lines != [] {
      StepNumbered(st, lines[0]);
      RunNumbered(Step(st, lines[0]), lines[1..]);
    }
  }

  /**
   * Whatever the text, the parsed brackets are numbered `bracket-0`,
   * `bracket-1`, ... in order, their criteria are trimmed and non-empty, and a
   * note, when present, is trimmed and non-empty.
   */
  lemma ParseIsNumbered(content: string)
    ensures var (bs, note) := Parse(content);
      (forall k :: 0 <= k < |bs| ==> bs[k].id == BracketId(k)) &&
      (forall k :: 0 <= k < |bs| ==> Clean(bs[k].criteria)) &&
      (note.Some? ==> Clean(note.value))
  {
    RunNumbered(Start, Split(content, '\n'));
    var t := Trim(Run(Start, Split(content, '\n')).note);
    TrimOfTrimmed(t);
  }

  // ---------------------------------------------------------------------------
  // Round trip
  // ---------------------------------------------------------------------------

  /** A bracket the table format can carry: scores without a sign, a single-line trimmed criteria without `|`. */
  predicate Storable(b: ScoreBracket) {
    b.minScore >= 0 && b.maxScore >= 0 &&
    b.criteria != "" && Trim(b.criteria) == b.criteria &&
    '|' !in b.criteria && '\n' !in b.criteria && b.criteria != "**Score Range**"
  }

  /** A note line the note section keeps verbatim. */
  predicate NoteLine(line: string) {
    Trim(line) != "" && !IsNoteHeading(line)
  }

  /** A note that survives the round trip: trimmed, and no line of it blank or a `Note:` heading. */
  predicate StorableNote(note: string) {
    Trim(note) == note &&
    (note != "" ==> forall k :: 0 <= k < |Split(note, '\n')| ==> NoteLine(Split(note, '\n')[k]))
  }

  /** The brackets renumbered from `bracket-k` in order, which is how parsing names them. */
  function Renumbered(s: seq<ScoreBracket>, k: nat): (r: seq<ScoreBracket>)
    ensures |r| == |s|
  {
    if s == [] then [] else [s[0].(id := BracketId(k))] + Renumbered(s[1..], k + 1)
  }

  lemma RunLine(st: ParseState, a: string, rest: string)
    requires '\n' !in a
    ensures Run(st, Split(a + "\n" + rest, '\n')) == Run(Step(st, a), Split(rest, '\n'))
  {
    SplitAfterPiece(a, '\n', rest);
    var ls := [a] + Split(rest, '\n');
    assert ls[0] == a && ls[1..] == Split(rest, '\n');
  }

  lemma BlankStep(st: ParseState)
    requires !st.inNoteSection
    ensures Step(st, "") == st
  {
    assert !StartsWith("", "|");
  }

  lemma NoteHeadingStep(st: ParseState)
    ensures Step(st, "Note:") == st.(inNoteSection := true, inTable := false)
  {
    TrimOfTrimmed("Note:");
    assert IsNoteHeading("Note:");
  }

  /** A trimmed heading line of another length is not the note heading. */
  lemma NotNoteHeading(line: string)
    requires line != [] && !IsSpace(line[0]) && !IsSpace(line[|line| - 1]) && |line| != 5
    ensures !IsNoteHeading(line)
  {
    TrimOfTrimmed(line);
  }

  lemma PreambleSteps(rest: string)
    ensures Run(Start, Split(Preamble() + rest, '\n')) == Run(Start.(inTable := true), Split(rest, '\n'))
  {
    var T := Start.(inTable := true);
    var r3 := TableRule + "\n" + rest;
    var r2 := TableHeader + "\n" + r3;
    var r1 := "" + "\n" + r2;
    PreambleLines(rest);
    PreambleWithoutBreaks();
    RunLine(Start, Title, r1);
    TitleStep();
    RunLine(Start, "", r2);
    BlankStep(Start);
    RunLine(Start, TableHeader, r3);
    HeaderStep();
    RunLine(T, TableRule, rest);
    RuleStep();
  }

  /** The preamble is four lines: the title, a blank line, the header and the rule. */
  lemma PreambleLines(rest: string)
    ensures Preamble() + rest == Title + "\n" + ("" + "\n" + (TableHeader + "\n" + (TableRule + "\n" + rest)))
  {
    assert "\n\n" == "\n" + "\n";
    FourLines(Title, "\n", TableHeader, TableRule, rest);
  }

  lemma FourLines(a: string, n: string, h: string, r: string, rest: string)
    ensures a + (n + n) + h + n + r + n + rest == a + n + ([] + n + (h + n + (r + n + rest)))
  {
    Assoc(a, n, n);
    assert [] + n == n;
    Assoc(r, n, rest);
    Assoc(h, n, r + n + rest);
  }

  lemma PreambleWithoutBreaks()
    ensures '\n' !in Title && '\n' !in TableHeader && '\n' !in TableRule
  {
  }

  lemma TitleStep()
    ensures Step(Start, Title) == Start
  {
    NotNoteHeading(Title);
  }

  lemma HeaderStep()
    ensures Step(Start, TableHeader) == Start.(inTable := true)
  {
    NotNoteHeading(TableHeader);
    assert MatchAt(TableHeader, HeaderMarker, 0);
  }

  lemma RuleStep()
    ensures Step(Start.(inTable := true), TableRule) == Start.(inTable := true)
  {
    NotNoteHeading(TableRule);
    NotContainsMissingChar(TableRule, HeaderMarker, '*');
    NotContainsMissingChar(TableRule, "**", '*');
  }

  lemma {:induction false} StripBoldBefore(r: string)
    requires '*' !in r
    ensures StripBold(r + "**") == r
  {
    if r == [] {
      assert StripBold("**") == StripBold("");
    } else {
      StripBoldBefore(r[1..]);
      assert (r + "**")[1..] == r[1..] + "**";
    }
  }

  lemma StripBoldAround(r: string)
    requires '*' !in r
    ensures StripBold("**" + r + "**") == r
  {
    StripBoldBefore(r);
    assert ("**" + r + "**")[2..] == r + "**";
  }

  /**
   * The score cell of a storable bracket: digits and at most one `-`,
   * which is there exactly when the ends differ, with a digit at each end.
   */
  lemma RangeTextShape(b: ScoreBracket)
    requires b.minScore >= 0 && b.maxScore >= 0
    ensures var r := RangeText(b);
      r != [] && IsDigit(r[0]) && IsDigit(r[|r| - 1]) &&
      '|' !in r && '*' !in r && '\n' !in r
    ensures var r := RangeText(b);
      forall k :: 0 <= k < |r| ==> IsDigit(r[k]) || r[k] == '-'
    ensures var r := RangeText(b);
      forall i, j :: 0 <= i < j < |r| && r[i] == '-' ==> r[j] != '-'
    ensures '-' in RangeText(b) <==> b.minScore != b.maxScore
  {
    RangeTextEnds(b);
    var a := IntToString(b.minScore);
    if b.minScore != b.maxScore {
      var z := IntToString(b.maxScore);
      var r := a + "-" + z;
      assert r[|a|] == '-';
      assert forall k :: 0 <= k < |r| && k != |a| ==> IsDigit(r[k]) by {
        forall k | 0 <= k < |r| && k != |a| ensures IsDigit(r[k]) {
          if k < |a| {
            assert r[k] == a[k];
          } else {
            assert r[k] == z[k - |a| - 1];
          }
        }
      }
    }
  }

  /** The score cell of a storable bracket starts and ends with a digit and holds no table markup. */
  lemma RangeTextEnds(b: ScoreBracket)
    requires b.minScore >= 0 && b.maxScore >= 0
    ensures var r := RangeText(b);
      r != [] && IsDigit(r[0]) && IsDigit(r[|r| - 1]) &&
      '|' !in r && '*' !in r && '\n' !in r
  {
  }

  /** The score cell of a storable bracket reads back as its two ends. */
  lemma RangeTextParses(b: ScoreBracket)
    requires b.minScore >= 0 && b.maxScore >= 0
    ensures ParseRange(RangeText(b)) == Some((b.minScore, b.maxScore))
  {
    var a := IntToString(b.minScore);
    ParseIntOfIntToString(b.minScore);
    if b.minScore == b.maxScore {
      assert '-' !in a;
    } else {
      var z := IntToString(b.maxScore);
      ParseIntOfIntToString(b.maxScore);
      TrimOfTrimmed(a);
      TrimOfTrimmed(z);
      ParseRangePair(a, z);
    }
  }

  /** `lo-hi` splits at its one `-` into the two numbers. */
  lemma ParseRangePair(a: string, z: string)
    requires '-' !in a && '-' !in z && Trim(a) == a && Trim(z) == z
    ensures ParseRange(a + "-" + z) == Pair(ParseInt(a), ParseInt(z))
  {
    var r := a + "-" + z;
    SplitAfterPiece(a, '-', z);
    SplitOfPiece(z, '-');
    assert a + ['-'] + z == r;
    assert r[|a|] == '-';
  }

  lemma Mismatch(s: string, t: string, i: int, k: int)
    requires 0 <= i && i + |t| <= |s| && 0 <= k < |t| && s[i + k] != t[k]
    ensures !MatchAt(s, t, i)
  {
    assert s[i..i + |t|][k] == s[i + k];
  }

  /** A row never looks like the table header, unless its criteria is the header's own bold title. */
  lemma NoHeaderInRow(r: string, c: string)
    requires r != [] && IsDigit(r[0]) && '|' !in r
    requires '|' !in c && c != "**Score Range**"
    ensures !Contains("| **" + r + "** | " + c + " |", HeaderMarker)
  {
    var row := "| **" + r + "** | " + c + " |";
    var m := HeaderMarker;
    var p := 4 + |r|;
    var q := p + 5;
    assert |m| == 19 && m[4] == 'S' && m[18] == '|' && m[0] == '|';
    assert |row| == q + |c| + 2;
    assert row[0] == '|' && row[1] == ' ' && row[2] == '*' && row[3] == '*';
    assert forall k :: 4 <= k < p ==> row[k] == r[k - 4];
    assert row[p] == '*' && row[p + 1] == '*' && row[p + 2] == ' ' && row[p + 3] == '|' && row[p + 4] == ' ';
    assert forall k :: q <= k < q + |c| ==> row[k] == c[k - q];
    assert row[q + |c|] == ' ';
    forall i | 0 <= i <= |row| - |m| ensures !MatchAt(row, m, i) {
      if i == 0 {
        Mismatch(row, m, i, 4);
      } else if i < p + 3 {
        if 4 <= i < p {
          assert row[i] == r[i - 4];
        }
        Mismatch(row, m, i, 0);
      } else if i == p + 3 {
        if |c| == 15 {
          TitleMismatch(row, i, c);
        } else if |c| == 16 {
          Mismatch(row, m, i, 18);
        } else {
          assert row[i + 18] == c[16];
          Mismatch(row, m, i, 18);
        }
      } else {
        if i >= q {
          assert row[i] == c[i - q];
        }
        Mismatch(row, m, i, 0);
      }
    }
  }

  /** The header's bold title sits between its first and last two characters. */
  lemma MarkerTitle()
    ensures |HeaderMarker| == 19 && HeaderMarker[2..17] == "**Score Range**"
  {
  }

  /** Criteria of the title's length that differ from it break the match at its place. */
  lemma TitleMismatch(row: string, i: int, c: string)
    requires |c| == 15 && c != "**Score Range**" && 0 <= i && i + 19 <= |row|
    requires forall k :: 0 <= k < 15 ==> row[i + 2 + k] == c[k]
    ensures !MatchAt(row, HeaderMarker, i)
  {
    MarkerTitle();
    var t := HeaderMarker[2..17];
    var j :| 0 <= j < 15 && c[j] != t[j];
    assert row[i + 2 + j] == c[j];
    Mismatch(row, HeaderMarker, i, 2 + j);
  }

  /** The cells of a row are its bold score cell and its criteria. */
  lemma RowCells(r: string, c: string)
    requires r != [] && !IsSpace(r[0]) && !IsSpace(r[|r| - 1]) && '|' !in r
    requires c != [] && !IsSpace(c[0]) && !IsSpace(c[|c| - 1]) && '|' !in c
    ensures Cells("| **" + r + "** | " + c + " |") == ["**" + r + "**", c]
  {
    var p1 := " **" + r + "** ";
    var p2 := " " + c + " ";
    RowAsPieces(r, c);
    PiecesWithoutBar(r, c);
    SplitFourPieces(p1, p2);
    TrimPadded("**" + r + "**");
    assert p1 == " " + ("**" + r + "**") + " ";
    TrimPadded(c);
    CellsOfFourPieces(p1, p2);
  }

  lemma RowAsPieces(r: string, c: string)
    ensures "| **" + r + "** | " + c + " |" ==
      "" + ['|'] + ((" **" + r + "** ") + ['|'] + ((" " + c + " ") + ['|'] + ""))
  {
    assert "| **" == ['|'] + " **";
    assert "** | " == "** " + ['|'] + " ";
    assert " |" == " " + ['|'];
  }

  lemma PiecesWithoutBar(r: string, c: string)
    requires '|' !in r && '|' !in c
    ensures '|' !in " **" + r + "** " && '|' !in " " + c + " "
  {
  }

  lemma SplitFourPieces(p1: string, p2: string)
    requires '|' !in p1 && '|' !in p2
    ensures Split("" + ['|'] + (p1 + ['|'] + (p2 + ['|'] + "")), '|') == ["", p1, p2, ""]
  {
    var t3 := p2 + ['|'] + "";
    var t2 := p1 + ['|'] + t3;
    SplitAfterPiece(p2, '|', "");
    SplitOfPiece("", '|');
    assert Split(t3, '|') == [p2, ""];
    SplitAfterPiece(p1, '|', t3);
    assert Split(t2, '|') == [p1, p2, ""];
    SplitAfterPiece("", '|', t2);
  }

  lemma CellsOfFourPieces(p1: string, p2: string)
    requires Trim(p1) != "" && Trim(p2) != ""
    ensures TrimmedCells(["", p1, p2, ""]) == [Trim(p1), Trim(p2)]
  {
    TrimOfTrimmed("");
    assert TrimmedCells([""]) == [];
    assert [p2, ""][1..] == [""];
    assert TrimmedCells([p2, ""]) == [Trim(p2)];
    assert [p1, p2, ""][1..] == [p2, ""];
    assert TrimmedCells([p1, p2, ""]) == [Trim(p1), Trim(p2)];
    assert ["", p1, p2, ""][1..] == [p1, p2, ""];
  }

  /** The row of a storable bracket is a table row: not the note heading, not the header. */
  lemma RowLineFacts(b: ScoreBracket)
    requires Storable(b)
    ensures !IsNoteHeading(RowText(b)) && !Contains(RowText(b), HeaderMarker) && IsRowLine(RowText(b))
  {
    var r := RangeText(b);
    var c := b.criteria;
    var line := RowText(b);
    RangeTextEnds(b);
    assert line[0] == '|' && line[|line| - 1] == '|';
    TrimOfTrimmed(line);
    NoHeaderInRow(r, c);
    assert MatchAt(line, "**", 2);
    assert StartsWith(line, "|");
  }

  /** The row of a storable bracket reads back as its two ends and its criteria. */
  lemma ReadRowOfRow(b: ScoreBracket)
    requires Storable(b)
    ensures ReadRow(RowText(b)) == Some((b.minScore, b.maxScore, b.criteria))
  {
    var r := RangeText(b);
    var c := b.criteria;
    RangeTextEnds(b);
    RangeTextParses(b);
    assert c[0] == Trim(c)[0] && c[|c| - 1] == Trim(c)[|Trim(c)| - 1];
    RowCells(r, c);
    StripBoldAround(r);
    TrimOfTrimmed(r);
    TrimOfTrimmed(c);
  }

  /** Reading back the row of a storable bracket appends it under the next id. */
  lemma RowStep(st: ParseState, b: ScoreBracket)
    requires st.inTable && !st.inNoteSection && Storable(b)
    ensures Step(st, RowText(b)) ==
      st.(brackets := st.brackets + [b.(id := BracketId(st.idCounter))], idCounter := st.idCounter + 1)
  {
    RowLineFacts(b);
    ReadRowOfRow(b);
    assert Step(st, RowText(b)) == AddRow(st, RowText(b));
  }

  lemma RowHasNoBreak(b: ScoreBracket)
    requires Storable(b)
    ensures '\n' !in RowText(b)
  {
    RangeTextEnds(b);
  }

  lemma RowsCons(s: seq<ScoreBracket>, tail: string)
    requires s != []
    ensures Rows(s) + tail == RowText(s[0]) + "\n" + (Rows(s[1..]) + tail)
  {
    Assoc(RowText(s[0]) + "\n", Rows(s[1..]), tail);
  }

  /** Appending one bracket, then the rest, appends them all. */
  lemma AppendRenumbered(st: ParseState, b: ScoreBracket, s: seq<ScoreBracket>)
    ensures AppendedAll(Appended(st, b), s) == AppendedAll(st, [b] + s)
  {
    assert ([b] + s)[0] == b && ([b] + s)[1..] == s;
    var k := st.idCounter;
    assert Renumbered([b] + s, k) == [b.(id := BracketId(k))] + Renumbered(s, k + 1);
    assert st.brackets + [b.(id := BracketId(k))] + Renumbered(s, k + 1)
        == st.brackets + ([b.(id := BracketId(k))] + Renumbered(s, k + 1));
  }

  /** The lines the rows occupy. */
  function RowLines(s: seq<ScoreBracket>): seq<string> {
    if s == [] then [] else [RowText(s[0])] + RowLines(s[1..])
  }

  /** The rows split into one line per bracket, followed by the lines of what comes after. */
  lemma {:induction false} SplitRows(s: seq<ScoreBracket>, tail: string)
    requires forall b :: b in s ==> Storable(b)
    ensures Split(Rows(s) + tail, '\n') == RowLines(s) + Split(tail, '\n')
    decreases |s|
  {
    if s == [] {
      assert Rows(s) + tail == tail;
    } else {
      assert s[0] in s;
      forall x | x in s[1..] ensures Storable(x) {
        assert x in s;
      }
      RowHasNoBreak(s[0]);
      RowsCons(s, tail);
      SplitAfterPiece(RowText(s[0]), '\n', Rows(s[1..]) + tail);
      SplitRows(s[1..], tail);
    }
  }

  /** The state after a row of `b` has been read: `b` appended under the next id. */
  function Appended(st: ParseState, b: ScoreBracket): ParseState {
    st.(brackets := st.brackets + [b.(id := BracketId(st.idCounter))], idCounter := st.idCounter + 1)
  }

  lemma {:induction false} RowLinesAt(s: seq<ScoreBracket>, k: nat)
    requires k < |s|
    ensures |RowLines(s)| == |s| && RowLines(s)[k] == RowText(s[k])
  {
    if k > 0 {
      RowLinesAt(s[1..], k - 1);
    } else if |s| > 1 {
      RowLinesAt(s[1..], 0);
    }
  }

  /** Inside the table, every row line of storable brackets is read as its bracket. */
  lemma RowLinesStep(s: seq<ScoreBracket>)
    requires forall k :: 0 <= k < |s| ==> Storable(s[k])
    ensures |RowLines(s)| == |s|
    ensures forall t: ParseState, k {:trigger Step(t, RowLines(s)[k])} :: 0 <= k < |s| && t.inTable && !t.inNoteSection ==>
      Step(t, RowLines(s)[k]) == Appended(t, s[k])
  {
    if s != [] {
      RowLinesAt(s, 0);
    }
    forall t: ParseState, k | 0 <= k < |s| && t.inTable && !t.inNoteSection
      ensures Step(t, RowLines(s)[k]) == Appended(t, s[k])
    {
      RowLinesAt(s, k);
      RowStep(t, s[k]);
    }
  }

  /** Run with the line step passed in, so that lemmas about many steps need not look inside one. */
  function Fold(f: (ParseState, string) -> ParseState, st: ParseState, lines: seq<string>): ParseState
    decreases |lines|
  {
    if lines == [] then st else Fold(f, f(st, lines[0]), lines[1..])
  }

  lemma {:induction false} RunIsFold(st: ParseState, lines: seq<string>)
    ensures Run(st, lines) == Fold(Step, st, lines)
    decreases |lines|
  {
    if lines != [] {
      RunIsFold(Step(st, lines[0]), lines[1..]);
    }
  }

  lemma {:induction false} FoldConcat(f: (ParseState, string) -> ParseState, st: ParseState, a: seq<string>, b: seq<string>)
    ensures Fold(f, st, a + b) == Fold(f, Fold(f, st, a), b)
    decreases |a|
  {
    if a == [] {
      assert a + b == b;
    } else {
      assert (a + b)[0] == a[0] && (a + b)[1..] == a[1..] + b;
      FoldConcat(f, f(st, a[0]), a[1..], b);
    }
  }

  /** All brackets of `s` appended, numbered on from the state's counter. */
  function AppendedAll(st: ParseState, s: seq<ScoreBracket>): ParseState {
    st.(brackets := st.brackets + Renumbered(s, st.idCounter), idCounter := st.idCounter + |s|)
  }

  /** Reading lines that each append their bracket appends them all, renumbered, in order. */
  lemma {:induction false} FoldAppending(f: (ParseState, string) -> ParseState, st: ParseState,
                                        s: seq<ScoreBracket>, ls: seq<string>)
    requires |ls| == |s| && st.inTable && !st.inNoteSection
    requires forall t: ParseState, k {:trigger f(t, ls[k])} :: 0 <= k < |s| && t.inTable && !t.inNoteSection ==>
      f(t, ls[k]) == Appended(t, s[k])
    ensures Fold(f, st, ls) == AppendedAll(st, s)
    decreases |s|
  {
    if s == [] {
      assert st.brackets + Renumbered(s, st.idCounter) == st.brackets;
    } else {
      var st' := Appended(st, s[0]);
      assert f(st, ls[0]) == st';
      forall t: ParseState, k | 0 <= k < |s[1..]| && t.inTable && !t.inNoteSection
        ensures f(t, ls[1..][k]) == Appended(t, s[1..][k])
      {
        assert ls[1..][k] == ls[k + 1] && s[1..][k] == s[k + 1];
      }
      FoldAppending(f, st', s[1..], ls[1..]);
      AppendRenumbered(st, s[0], s[1..]);
      assert [s[0]] + s[1..] == s;
    }
  }

  /** Reading the rows of storable brackets appends them, renumbered, in order. */
  lemma RunRows(st: ParseState, s: seq<ScoreBracket>, tail: string)
    requires st.inTable && !st.inNoteSection
    requires forall b :: b in s ==> Storable(b)
    ensures Run(st, Split(Rows(s) + tail, '\n')) == Run(AppendedAll(st, s), Split(tail, '\n'))
  {
    SplitRows(s, tail);
    forall k | 0 <= k < |s| ensures Storable(s[k]) {
      assert s[k] in s;
    }
    RowLinesStep(s);
    FoldAppending(Step, st, s, RowLines(s));
    FoldConcat(Step, st, RowLines(s), Split(tail, '\n'));
    RunIsFold(st, RowLines(s) + Split(tail, '\n'));
    RunIsFold(AppendedAll(st, s), Split(tail, '\n'));
  }

  /** The note text built from note lines: each appended after a line break, the first one bare. */
  function AddLines(acc: string, lines: seq<string>): string
    decreases |lines|
  {
    if lines == [] then acc
    else AddLines(acc + (if acc != "" then "\n" else "") + lines[0], lines[1..])
  }

  lemma {:induction false} NoteRun(st: ParseState, lines: seq<string>)
    requires st.inNoteSection
    requires forall k :: 0 <= k < |lines| ==> NoteLine(lines[k])
    ensures Run(st, lines) == st.(note := AddLines(st.note, lines))
    decreases |lines|
  {
    if lines != [] {
      var st' := Step(st, lines[0]);
      assert st' == st.(note := st.note + (if st.note != "" then "\n" else "") + lines[0]);
      NoteRun(st', lines[1..]);
    }
  }

  lemma {:induction false} AddLinesJoin(acc: string, lines: seq<string>)
    requires lines != []
    requires forall k :: 0 <= k < |lines| ==> lines[k] != ""
    ensures AddLines(acc, lines) == if acc == "" then Join(lines, "\n") else acc + "\n" + Join(lines, "\n")
    decreases |lines|
  {
    var acc' := acc + (if acc != "" then "\n" else "") + lines[0];
    if |lines| > 1 {
      AddLinesJoin(acc', lines[1..]);
    } else {
      assert lines[1..] == [];
    }
  }

  lemma NoteSection(st: ParseState, note: string)
    requires st.inNoteSection && st.note == ""
    requires note != "" && StorableNote(note)
    ensures Run(st, Split(note, '\n')) == st.(note := note)
  {
    var lines := Split(note, '\n');
    NoteRun(st, lines);
    AddLinesJoin("", lines);
    JoinSplit(note, '\n');
  }

  /** What parsing the storable content of `brackets` and `note` gives back. */
  function RoundTripped(brackets: seq<ScoreBracket>, note: string): (seq<ScoreBracket>, Option<string>) {
    (Renumbered(SortByMin(brackets), 0), if note != "" then Some(note) else None)
  }

  /** With no brackets the content is the note section alone. */
  lemma ParseOfNoteOnly(note: string)
    requires StorableNote(note)
    ensures Parse(Content([], note)) == RoundTripped([], note)
  {
    if note != "" {
      assert Content([], note) == "Note:" + "\n" + note;
      RunLine(Start, "Note:", note);
      NoteHeadingStep(Start);
      var N := Start.(inNoteSection := true, inTable := false);
      NoteSection(N, note);
      assert Run(Start, Split(Content([], note), '\n')) == N.(note := note);
    } else {
      SplitOfPiece("", '\n');
      BlankStep(Start);
    }
  }

  /** After the rows: nothing, or a blank line, the `Note:` heading and the note. */
  lemma ParseOfTail(u: ParseState, note: string)
    requires !u.inNoteSection && u.note == "" && StorableNote(note)
    ensures Finish(Run(u, Split(if Trim(note) != "" then "\n\nNote:\n" + note else "", '\n')))
         == (u.brackets, if note != "" then Some(note) else None)
  {
    var tail := if Trim(note) != "" then "\n\nNote:\n" + note else "";
    if note != "" {
      assert tail == "" + "\n" + ("" + "\n" + ("Note:" + "\n" + note));
      RunLine(u, "", "" + "\n" + ("Note:" + "\n" + note));
      BlankStep(u);
      RunLine(u, "", "Note:" + "\n" + note);
      RunLine(u, "Note:", note);
      NoteHeadingStep(u);
      NoteSection(u.(inNoteSection := true, inTable := false), note);
    } else {
      SplitOfPiece("", '\n');
      BlankStep(u);
    }
  }

  /**
   * Parsing undoes conversion: the brackets come back sorted by minScore with
   * fresh ids `bracket-0`, `bracket-1`, ..., scores and criteria intact, and
   * the note comes back unless it is empty.
   */
  lemma ParseOfContent(brackets: seq<ScoreBracket>, note: string)
    requires forall b :: b in brackets ==> Storable(b)
    requires StorableNote(note)
    ensures Parse(Content(brackets, note)) == RoundTripped(brackets, note)
  {
    if brackets == [] {
      ParseOfNoteOnly(note);
    } else {
      var s := SortByMin(brackets);
      SortKeepsElements(brackets);
      var tail := if Trim(note) != "" then "\n\nNote:\n" + note else "";
      assert Content(brackets, note) == Preamble() + (Rows(s) + tail);
      ParseOfTable(s, note);
    }
  }

  /** The table of the given rows, then the note section, parses back to the rows renumbered and the note. */
  lemma ParseOfTable(s: seq<ScoreBracket>, note: string)
    requires forall b :: b in s ==> Storable(b)
    requires StorableNote(note)
    ensures var tail := if Trim(note) != "" then "\n\nNote:\n" + note else "";
      Parse(Preamble() + (Rows(s) + tail)) == (Renumbered(s, 0), if note != "" then Some(note) else None)
  {
    var tail := if Trim(note) != "" then "\n\nNote:\n" + note else "";
    PreambleSteps(Rows(s) + tail);
    var T := Start.(inTable := true);
    RunRows(T, s, tail);
    var u := AppendedAll(T, s);
    assert u.brackets == Renumbered(s, 0);
    ParseOfTail(u, note);
  }
}
