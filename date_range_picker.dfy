/**
 * The date-range picker of `src/components/DateRangePicker.tsx`: dates
 * written as `y-mm-dd` text and read back, the text order the component
 * compares dates by, and the picker's state as it selects a start, then an
 * end, and commits a range of at most `maxDays` days.
 */
module DateRangePicker {
  import opened Wrappers
  import opened Text
  import opened Calendar

  // ---------------------------------------------------------------------------
  // Text order
  // ---------------------------------------------------------------------------

  /** `a < b` on strings: the first differing character decides, and a proper prefix comes first. */
  predicate LexLess(a: string, b: string) {
    if a == [] then b != []
    else if b == [] then false
    else if a[0] != b[0] then a[0] < b[0]
    else LexLess(a[1..], b[1..])
  }

  /** `a <= b` on strings. */
  predicate LexLessEq(a: string, b: string) {
    LexLess(a, b) || a == b
  }

  /** String order is asymmetric (so irreflexive) and total. */
  lemma {:induction false} LexTotal(a: string, b: string)
    ensures !(LexLess(a, b) && LexLess(b, a))
    ensures LexLess(a, b) || a == b || LexLess(b, a)
  {
    if a != [] && b != [] && a[0] == b[0] {
      LexTotal(a[1..], b[1..]);
      if a[1..] == b[1..] {
        assert a == [a[0]] + a[1..] && b == [b[0]] + b[1..];
      }
    }
  }

  /** String order is transitive; with `LexTotal` it is a strict total order. */
  lemma {:induction false} LexTransitive(a: string, b: string, c: string)
    requires LexLess(a, b) && LexLess(b, c)
    ensures LexLess(a, c)
  {
    if a != [] && a[0] == b[0] && b[0] == c[0] {
      LexTransitive(a[1..], b[1..], c[1..]);
    }
  }

  /** Texts compare by their first parts when those have one length, and by the rest when the first parts agree. */
  lemma {:induction false} LexConcat(p: string, q: string, p': string, q': string)
    requires |p| == |p'|
    ensures LexLess(p + q, p' + q') <==> LexLess(p, p') || (p == p' && LexLess(q, q'))
  {
    if p != [] {
      assert (p + q)[0] == p[0] && (p' + q')[0] == p'[0];
      assert (p + q)[1..] == p[1..] + q && (p' + q')[1..] == p'[1..] + q';
      LexConcat(p[1..], q, p'[1..], q');
      if p[0] == p'[0] && p[1..] == p'[1..] {
        assert p == [p[0]] + p[1..] && p' == [p'[0]] + p'[1..];
      }
    } else {
      assert p + q == q && p' + q' == q';
    }
  }

  // ---------------------------------------------------------------------------
  // Runs of digits
  // ---------------------------------------------------------------------------

  /** Digit runs of one length compare as text exactly as their values compare as numbers. */
  lemma {:induction false} DigitsOrder(a: string, b: string)
    requires |a| == |b| && AllDigits(a) && AllDigits(b)
    ensures LexLess(a, b) <==> DecValue(a) < DecValue(b)
    ensures a == b <==> DecValue(a) == DecValue(b)
    decreases |a|
  {
    if a != [] {
      var n := |a| - 1;
      var a', b' := a[..n], b[..n];
      DigitsOrder(a', b');
      assert a == a' + [a[n]] && b == b' + [b[n]];
      LexConcat(a', [a[n]], b', [b[n]]);
      assert LexLess([a[n]], [b[n]]) <==> a[n] < b[n] by {
        assert [a[n]][1..] == [] && [b[n]][1..] == [];
      }
    }
  }

  lemma {:induction false} NatLength(n: nat)
    ensures n < 10 ==> |NatToString(n)| == 1
    ensures 10 <= n < 100 ==> |NatToString(n)| == 2
    ensures n < 1000 ==> |NatToString(n)| <= 3
    ensures 1000 <= n < 10000 ==> |NatToString(n)| == 4
    ensures n >= 10000 ==> |NatToString(n)| >= 5
  {
    if n >= 10 {
      NatLength(n / 10);
    }
  }

  // ---------------------------------------------------------------------------
  // formatToLocalISO and parseIsoDate
  // ---------------------------------------------------------------------------

  /** `String(n).padStart(2, "0")`. */
  function Pad2(n: nat): string {
    if n < 10 then "0" + NatToString(n) else NatToString(n)
  }

  lemma Pad2Digits(n: nat)
    requires n <= 99
    ensures |Pad2(n)| == 2 && AllDigits(Pad2(n)) && DecValue(Pad2(n)) == n
    ensures NumberOf(Pad2(n)) == Some(n)
  {
    NatLength(n);
    DecValueOfNatToString(n);
    if n < 10 {
      DecValueLeadingZeros("0", NatToString(n));
      PadIsZero("0");
      NumberOfPadded(n, "0");
    } else {
      NumberOfPadded(n, "");
      assert "" + NatToString(n) == NatToString(n);
    }
  }

  /** `formatToLocalISO`: the year as `${y}` writes it, then month and day padded to two digits. */
  function Format(x: Date): string {
    IntToString(x.year) + "-" + Pad2(x.month) + "-" + Pad2(x.day)
  }

  /** `Number(piece)` for the `i`-th piece of a split; a missing piece is `undefined`. */
  function PieceNumber(parts: seq<string>, i: nat): Option<int> {
    if i < |parts| then NumberOf(parts[i]) else None
  }

  /** `!n` for a number that may be NaN (`None`) or missing. */
  predicate Falsy(n: Option<int>) {
    n.None? || n.value == 0
  }

  /**
   * The year, month and day `parseIsoDate` hands to the `Date` constructor:
   * none for an empty text, or when a piece is missing, not a number, or 0.
   */
  function ParseFields(value: string): Option<CalendarDate> {
    if value == "" then None
    else
      var parts := Split(value, '-');
      var y, m, d := PieceNumber(parts, 0), PieceNumber(parts, 1), PieceNumber(parts, 2);
      if Falsy(y) || Falsy(m) || Falsy(d) then None
      else Some(CalendarDate(y.value, m.value, d.value))
  }

  /** The constructor reads the years 0 to 99 as 1900 to 1999. */
  function FullYear(y: int): int {
    if 0 <= y <= 99 then 1900 + y else y
  }

  /** `new Date(y, m - 1, d)`: the calendar date, with month and day rolled over. */
  function NewDate(y: int, m: int, d: int): Date {
    Civil(DayNumber(CalendarDate(FullYear(y), m, d)))
  }

  /** `parseIsoDate`. */
  function ParseIsoDate(value: string): Option<Date> {
    match ParseFields(value)
    case None => None
    case Some(f) => Some(NewDate(f.year, f.month, f.day))
  }

  /** The written text is the year's text and the two padded fields, joined by dashes. */
  lemma FormatPieces(x: Date)
    ensures x.year >= 0 ==> Format(x) == NatToString(x.year) + "-" + (Pad2(x.month) + "-" + Pad2(x.day))
    ensures x.year < 0 ==> Format(x) == "" + "-" + (NatToString(-x.year) + "-" + Pad2(x.month) + "-" + Pad2(x.day))
  {
    var rest := Pad2(x.month) + "-" + Pad2(x.day);
    var a, b := Pad2(x.month), Pad2(x.day);
    var y := IntToString(x.year);
    assert Format(x) == y + "-" + a + "-" + b;
    Assoc(y + "-", a, "-");
    Assoc(y + "-", a + "-", b);
    Assoc(y, "-", a + "-" + b);
    Assoc(a, "-", b);
    if x.year < 0 {
      assert y == "-" + NatToString(-x.year);
      Assoc("-", NatToString(-x.year), "-" + (a + ("-" + b)));
      Assoc(NatToString(-x.year), "-", a + ("-" + b));
      Assoc(NatToString(-x.year) + "-", a, "-" + b);
      Assoc(NatToString(-x.year) + "-" + a, "-", b);
    }
  }

  lemma NoDash(s: string)
    requires AllDigits(s)
    ensures '-' !in s
  {
    forall k | 0 <= k < |s| ensures s[k] != '-' {
      assert IsDigit(s[k]);
    }
  }

  /**
   * `parseIsoDate` reads a written date's fields back exactly when its year
   * is at least 1: a year of 0 reads as 0, and a negative year's leading
   * dash leaves an empty first piece, and both are rejected.
   */
  lemma FormatReadsBack(x: Date)
    ensures ParseFields(Format(x)) == if x.year >= 1 then Some(x) else None
  {
    if x.year >= 1 {
      PositiveYearReadsBack(x);
    } else {
      FirstPieceZero(x);
    }
  }

  lemma PositiveYearReadsBack(x: Date)
    requires x.year >= 1
    ensures ParseFields(Format(x)) == Some(x)
  {
    var ys, a, b := NatToString(x.year), Pad2(x.month), Pad2(x.day);
    FormatSplit(x);
    Pad2Digits(x.month);
    Pad2Digits(x.day);
    NumberOfPadded(x.year, "");
    assert "" + ys == ys;
    FieldsOfPieces(Format(x), [ys, a, b], x);
  }

  /** A text that splits into three pieces reading as positive numbers gives those numbers as its fields. */
  lemma FieldsOfPieces(value: string, parts: seq<string>, x: CalendarDate)
    requires Split(value, '-') == parts && |parts| == 3
    requires NumberOf(parts[0]) == Some(x.year) && NumberOf(parts[1]) == Some(x.month) && NumberOf(parts[2]) == Some(x.day)
    requires x.year != 0 && x.month != 0 && x.day != 0
    ensures ParseFields(value) == Some(x)
  {
  }

  /** A written date with a positive year splits at its dashes into the year's digits and the two padded fields. */
  lemma FormatSplit(x: Date)
    requires x.year >= 0
    ensures Split(Format(x), '-') == [NatToString(x.year), Pad2(x.month), Pad2(x.day)]
  {
    FormatPieces(x);
    var ys, a, b := NatToString(x.year), Pad2(x.month), Pad2(x.day);
    Pad2Digits(x.month);
    Pad2Digits(x.day);
    NoDash(a);
    NoDash(b);
    NoDash(ys);
    SplitThree(ys, a, b);
  }

  /** Three dash-free pieces joined by dashes split back into those pieces. */
  lemma SplitThree(p: string, q: string, r: string)
    requires '-' !in p && '-' !in q && '-' !in r
    ensures Split(p + "-" + (q + "-" + r), '-') == [p, q, r]
  {
    SplitOfPiece(r, '-');
    SplitAfterPiece(q, '-', r);
    SplitAfterPiece(p, '-', q + "-" + r);
  }

  /** A year below 1 leaves a first piece that reads as 0. */
  lemma FirstPieceZero(x: Date)
    requires x.year < 1
    ensures ParseFields(Format(x)).None?
  {
    FormatPieces(x);
    var a, b := Pad2(x.month), Pad2(x.day);
    var s := Format(x);
    var parts := Split(s, '-');
    if x.year == 0 {
      var ys := NatToString(0);
      assert ys == "0";
      SplitAfterPiece(ys, '-', a + "-" + b);
      NumberOfPadded(0, "");
      assert "" + ys == ys;
      assert PieceNumber(parts, 0) == Some(0);
    } else {
      SplitAfterPiece("", '-', NatToString(-x.year) + "-" + a + "-" + b);
      assert parts[0] == "";
      assert PieceNumber(parts, 0) == Some(0);
    }
  }

  /** From the year 100 on, parsing a written date gives back the date. */
  lemma ParseIsoDateRoundTrip(x: Date)
    requires x.year >= 100
    ensures ParseIsoDate(Format(x)) == Some(x)
  {
    FormatReadsBack(x);
    ParsedDate(Format(x), x);
    CivilOfNumber(x);
  }

  /** The years 1 to 99 come back 1900 years later: the constructor's two-digit years. */
  lemma TwoDigitYears(x: Date)
    requires 1 <= x.year <= 99
    ensures Valid(CalendarDate(x.year + 1900, x.month, x.day))
    ensures ParseIsoDate(Format(x)) == Some(CalendarDate(x.year + 1900, x.month, x.day))
  {
    FormatReadsBack(x);
    ParsedDate(Format(x), x);
    LaterCentury(x);
  }

  lemma ParsedDate(value: string, x: CalendarDate)
    requires ParseFields(value) == Some(x)
    ensures ParseIsoDate(value) == Some(NewDate(x.year, x.month, x.day))
  {
  }

  lemma LaterCentury(x: Date)
    requires 1 <= x.year <= 99
    ensures Valid(CalendarDate(x.year + 1900, x.month, x.day))
    ensures NewDate(x.year, x.month, x.day) == CalendarDate(x.year + 1900, x.month, x.day)
  {
    assert Leap(x.year) <==> Leap(x.year + 1900);
    var later: Date := CalendarDate(x.year + 1900, x.month, x.day);
    CivilOfNumber(later);
  }

  // ---------------------------------------------------------------------------
  // `new Date(iso)` and the order of written dates
  // ---------------------------------------------------------------------------

  /** Four digits, a dash, two digits, a dash, two digits. */
  predicate IsoShape(s: string) {
    |s| == 10 && s[4] == '-' && s[7] == '-' &&
    IsDigit(s[0]) && IsDigit(s[1]) && IsDigit(s[2]) && IsDigit(s[3]) &&
    IsDigit(s[5]) && IsDigit(s[6]) && IsDigit(s[8]) && IsDigit(s[9])
  }

  /** The year, month and day a text of that shape names. */
  function IsoFields(s: string): CalendarDate
    requires IsoShape(s)
  {
    CalendarDate(
      DigitValue(s[0]) * 1000 + DigitValue(s[1]) * 100 + DigitValue(s[2]) * 10 + DigitValue(s[3]),
      DigitValue(s[5]) * 10 + DigitValue(s[6]),
      DigitValue(s[8]) * 10 + DigitValue(s[9]))
  }

  /**
   * `new Date(s)` for a date-only text, as a day number: the calendar day
   * the text names; any other text is an invalid date (`None`, for NaN).
   */
  function IsoDay(s: string): Option<int> {
    if IsoShape(s) && Valid(IsoFields(s)) then Some(DayNumber(IsoFields(s))) else None
  }

  /** A text of that shape is three digit runs joined by dashes, and its fields are their values. */
  lemma IsoSplit(s: string)
    requires IsoShape(s)
    ensures s == s[..4] + ("-" + (s[5..7] + ("-" + s[8..])))
    ensures AllDigits(s[..4]) && AllDigits(s[5..7]) && AllDigits(s[8..])
    ensures IsoFields(s) == CalendarDate(DecValue(s[..4]), DecValue(s[5..7]), DecValue(s[8..]))
  {
    IsoValues(s);
    assert s[..4] + ("-" + (s[5..7] + ("-" + s[8..]))) == s;
  }

  lemma IsoValues(s: string)
    requires IsoShape(s)
    ensures AllDigits(s[..4]) && AllDigits(s[5..7]) && AllDigits(s[8..])
    ensures IsoFields(s) == CalendarDate(DecValue(s[..4]), DecValue(s[5..7]), DecValue(s[8..]))
  {
    YearDigits(s);
    PairDigits(s, 5);
    PairDigits(s, 8);
    assert s[8..10] == s[8..];
  }

  lemma YearDigits(s: string)
    requires |s| >= 4 && IsDigit(s[0]) && IsDigit(s[1]) && IsDigit(s[2]) && IsDigit(s[3])
    ensures AllDigits(s[..4])
    ensures DecValue(s[..4]) == DigitValue(s[0]) * 1000 + DigitValue(s[1]) * 100 + DigitValue(s[2]) * 10 + DigitValue(s[3])
  {
    assert s[0..4] == s[..4];
    assert AllDigits(s[0..4]);
    DecStep(s, 0, 4);
    DecStep(s, 0, 3);
    DecStep(s, 0, 2);
    DecStep(s, 0, 1);
  }

  lemma PairDigits(s: string, i: nat)
    requires i + 2 <= |s| && IsDigit(s[i]) && IsDigit(s[i + 1])
    ensures AllDigits(s[i..i + 2])
    ensures DecValue(s[i..i + 2]) == DigitValue(s[i]) * 10 + DigitValue(s[i + 1])
  {
    assert AllDigits(s[i..i + 2]);
    DecStep(s, i, i + 2);
    DecStep(s, i, i + 1);
  }

  /** The value of a digit run one digit longer. */
  lemma DecStep(s: string, i: nat, j: nat)
    requires i < j <= |s| && AllDigits(s[i..j])
    ensures AllDigits(s[i..j - 1]) && IsDigit(s[j - 1])
    ensures DecValue(s[i..j]) == DecValue(s[i..j - 1]) * 10 + DigitValue(s[j - 1])
  {
    assert s[i..j][..j - 1 - i] == s[i..j - 1];
    assert s[i..j][j - 1 - i] == s[j - 1];
  }

  /** Among texts `new Date` reads, text order is the order of the days they name. */
  lemma IsoOrder(s: string, t: string)
    requires IsoDay(s).Some? && IsoDay(t).Some?
    ensures LexLess(s, t) <==> IsoDay(s).value < IsoDay(t).value
    ensures s == t <==> IsoDay(s).value == IsoDay(t).value
  {
    IsoSplit(s);
    IsoSplit(t);
    var a: Date := IsoFields(s);
    var b: Date := IsoFields(t);
    DigitsOrder(s[..4], t[..4]);
    DigitsOrder(s[5..7], t[5..7]);
    DigitsOrder(s[8..], t[8..]);
    LexConcat(s[..4], "-" + (s[5..7] + ("-" + s[8..])), t[..4], "-" + (t[5..7] + ("-" + t[8..])));
    LexConcat("-", s[5..7] + ("-" + s[8..]), "-", t[5..7] + ("-" + t[8..]));
    LexConcat(s[5..7], "-" + s[8..], t[5..7], "-" + t[8..]);
    LexConcat("-", s[8..], "-", t[8..]);
    OrderMatches(a, b);
  }

  /** `new Date` reads a written date back exactly when its year has four digits. */
  lemma IsoDayOfFormat(x: Date)
    ensures IsoDay(Format(x)) == if 1000 <= x.year <= 9999 then Some(DayNumber(x)) else None
  {
    if 1000 <= x.year <= 9999 {
      FourDigitYear(x);
    } else {
      OtherYear(x);
    }
  }

  lemma FourDigitYear(x: Date)
    requires 1000 <= x.year <= 9999
    ensures IsoShape(Format(x)) && IsoFields(Format(x)) == x
  {
    var ys, a, b := NatToString(x.year), Pad2(x.month), Pad2(x.day);
    Pad2Digits(x.month);
    Pad2Digits(x.day);
    FormatPieces(x);
    NatLength(x.year);
    DecValueOfNatToString(x.year);
    IsoOfPieces(ys, a, b);
  }

  /** Four digits and two pairs of digits joined by dashes have the shape, and name their values. */
  lemma IsoOfPieces(ys: string, a: string, b: string)
    requires |ys| == 4 && |a| == 2 && |b| == 2 && AllDigits(ys) && AllDigits(a) && AllDigits(b)
    ensures IsoShape(ys + "-" + (a + "-" + b))
    ensures IsoFields(ys + "-" + (a + "-" + b)) == CalendarDate(DecValue(ys), DecValue(a), DecValue(b))
  {
    var s := ys + "-" + (a + "-" + b);
    assert s[..4] == ys && s[5..7] == a && s[8..] == b;
    assert IsoShape(s) by {
      assert s[0] == ys[0] && s[1] == ys[1] && s[2] == ys[2] && s[3] == ys[3];
      assert s[5] == a[0] && s[6] == a[1] && s[8] == b[0] && s[9] == b[1];
    }
    IsoSplit(s);
  }

  lemma OtherYear(x: Date)
    requires !(1000 <= x.year <= 9999)
    ensures !IsoShape(Format(x))
  {
    var s := Format(x);
    Pad2Digits(x.month);
    Pad2Digits(x.day);
    FormatPieces(x);
    if x.year >= 0 {
      NatLength(x.year);
      assert |s| == |NatToString(x.year)| + 6;
    } else {
      assert s[0] == '-';
    }
  }

  /** Written dates with four-digit years compare as text in calendar order. */
  lemma FormatOrder(a: Date, b: Date)
    requires 1000 <= a.year <= 9999 && 1000 <= b.year <= 9999
    ensures LexLess(Format(a), Format(b)) <==> DayNumber(a) < DayNumber(b)
    ensures LexLessEq(Format(a), Format(b)) <==> DayNumber(a) <= DayNumber(b)
  {
    IsoDayOfFormat(a);
    IsoDayOfFormat(b);
    IsoOrder(Format(a), Format(b));
  }

  // ---------------------------------------------------------------------------
  // Committing a range
  // ---------------------------------------------------------------------------

  /** `(tempFrom ?? fromDate) || dateStr`. */
  function FinalFrom(tempFrom: Option<string>, fromDate: string, dateStr: string): string {
    var f := if tempFrom.Some? then tempFrom.value else fromDate;
    if f == "" then dateStr else f
  }

  /** `startIso` and `endIso`: the two texts in text order. */
  function Ordered(a: string, b: string): (string, string) {
    if LexLessEq(a, b) then (a, b) else (b, a)
  }

  /**
   * The range `[startIso, endIso]` limited to `maxDays` days: when both
   * ends are readable and further apart, the end moves back to `maxDays - 1`
   * days after the start; an unreadable end makes the length NaN, and
   * then the range is kept.
   */
  function Clamp(startIso: string, endIso: string, maxDays: int): (string, string) {
    var s, e := IsoDay(startIso), IsoDay(endIso);
    if s.Some? && e.Some? && e.value - s.value + 1 > maxDays then
      (startIso, Format(Civil(s.value + maxDays - 1)))
    else (startIso, endIso)
  }

  /** The `fromDate` and `toDate` that picking the end date `dateStr` commits. */
  function Commit(tempFrom: Option<string>, fromDate: string, dateStr: string, maxDays: int): (string, string) {
    var o := Ordered(FinalFrom(tempFrom, fromDate, dateStr), dateStr);
    Clamp(o.0, o.1, maxDays)
  }

  /** The earlier text comes first, and the pair is the two texts given. */
  lemma OrderedSpec(a: string, b: string)
    ensures var o := Ordered(a, b);
      LexLessEq(o.0, o.1) && LexLessEq(o.0, a) && LexLessEq(o.0, b) && (o == (a, b) || o == (b, a))
  {
    LexTotal(a, b);
  }

  /**
   * The start is kept; the end is kept unless both ends are readable and
   * more than `maxDays` days apart.
   */
  lemma ClampKeeps(startIso: string, endIso: string, maxDays: int)
    ensures var r := Clamp(startIso, endIso, maxDays);
      r.0 == startIso &&
      (r.1 == endIso || (IsoDay(startIso).Some? && IsoDay(endIso).Some? && IsoDay(endIso).value - IsoDay(startIso).value + 1 > maxDays))
  {
  }

  /**
   * The committed start is the earlier of the chosen start and the picked
   * date; without clamping the end is the other of the two, and the clamp
   * happens only for readable dates more than `maxDays` days apart.
   */
  lemma CommitEnds(tempFrom: Option<string>, fromDate: string, dateStr: string, maxDays: int)
    ensures var f := FinalFrom(tempFrom, fromDate, dateStr);
      var r := Commit(tempFrom, fromDate, dateStr, maxDays);
      (r.0 == f || r.0 == dateStr) && LexLessEq(r.0, f) && LexLessEq(r.0, dateStr) &&
      (var other := if r.0 == f then dateStr else f;
       r.1 == other || (IsoDay(r.0).Some? && IsoDay(other).Some? && IsoDay(other).value - IsoDay(r.0).value + 1 > maxDays))
  {
    var f := FinalFrom(tempFrom, fromDate, dateStr);
    var o := Ordered(f, dateStr);
    OrderedSpec(f, dateStr);
    ClampKeeps(o.0, o.1, maxDays);
  }

  /** `(tempFrom ?? fromDate) || dateStr` takes the pending start, else the current start, else the pick. */
  lemma FinalFromChoice(tempFrom: Option<string>, fromDate: string, dateStr: string)
    ensures tempFrom.Some? && tempFrom.value != "" ==> FinalFrom(tempFrom, fromDate, dateStr) == tempFrom.value
    ensures tempFrom.None? && fromDate != "" ==> FinalFrom(tempFrom, fromDate, dateStr) == fromDate
    ensures (tempFrom == Some("") || (tempFrom.None? && fromDate == "")) ==> FinalFrom(tempFrom, fromDate, dateStr) == dateStr
  {
  }

  /**
   * A committed range whose both ends `new Date` can read spans at most
   * `maxDays` days, and exactly `maxDays` when the ordered pick was clamped
   * (`Clamps`); its ends are
   * in text order exactly when it spans at least one day, which it always
   * does for `maxDays >= 1`.
   */
  lemma CommitWithinMaxDays(tempFrom: Option<string>, fromDate: string, dateStr: string, maxDays: int)
    ensures var r, o := Commit(tempFrom, fromDate, dateStr, maxDays), Ordered(FinalFrom(tempFrom, fromDate, dateStr), dateStr);
      IsoDay(r.0).Some? && IsoDay(r.1).Some? ==>
        var span := IsoDay(r.1).value - IsoDay(r.0).value + 1;
        span <= maxDays &&
        (Clamps(o.0, o.1, maxDays) ==> span == maxDays) &&
        (maxDays >= 1 ==> span >= 1) &&
        (LexLessEq(r.0, r.1) <==> span >= 1)
  {
    var f := FinalFrom(tempFrom, fromDate, dateStr);
    var o := Ordered(f, dateStr);
    OrderedSpec(f, dateStr);
    ClampSpan(o.0, o.1, maxDays);
  }

  /** The clamp applies: both ends are readable and more than `maxDays` days apart. */
  predicate Clamps(startIso: string, endIso: string, maxDays: int) {
    IsoDay(startIso).Some? && IsoDay(endIso).Some? && IsoDay(endIso).value - IsoDay(startIso).value + 1 > maxDays
  }

  /** The span of a clamped range whose ends are readable, given ends in text order. */
  lemma ClampSpan(startIso: string, endIso: string, maxDays: int)
    requires LexLessEq(startIso, endIso)
    ensures var r := Clamp(startIso, endIso, maxDays);
      IsoDay(r.0).Some? && IsoDay(r.1).Some? ==>
        var span := IsoDay(r.1).value - IsoDay(r.0).value + 1;
        span <= maxDays &&
        (Clamps(startIso, endIso, maxDays) ==> span == maxDays) &&
        (maxDays >= 1 ==> span >= 1) &&
        (LexLessEq(r.0, r.1) <==> span >= 1)
  {
    if Clamps(startIso, endIso, maxDays) {
      var t := Clamp(startIso, endIso, maxDays).1;
      ClampedDay(startIso, endIso, maxDays);
      DayOrder(startIso, t, IsoDay(startIso).value, maxDays);
    } else {
      assert Clamp(startIso, endIso, maxDays) == (startIso, endIso);
      if IsoDay(startIso).Some? && IsoDay(endIso).Some? {
        IsoOrder(startIso, endIso);
      }
    }
  }

  lemma ClampedEnd(startIso: string, endIso: string, maxDays: int)
    ensures Clamps(startIso, endIso, maxDays) ==>
      Clamp(startIso, endIso, maxDays) == (startIso, Format(Civil(IsoDay(startIso).value + maxDays - 1)))
  {
  }

  /** A clamped end lies `maxDays - 1` days after the start, when `new Date` can read it. */
  lemma ClampedDay(startIso: string, endIso: string, maxDays: int)
    requires Clamps(startIso, endIso, maxDays)
    ensures var t := Clamp(startIso, endIso, maxDays).1;
      IsoDay(t).Some? ==> IsoDay(t).value == IsoDay(startIso).value + maxDays - 1
  {
    ClampedEnd(startIso, endIso, maxDays);
    IsoDayOfFormat(Civil(IsoDay(startIso).value + maxDays - 1));
  }

  /** A readable end `maxDays - 1` days after the start follows it in text order exactly when `maxDays >= 1`. */
  lemma DayOrder(startIso: string, t: string, s: int, maxDays: int)
    requires IsoDay(startIso) == Some(s)
    requires IsoDay(t).Some? ==> IsoDay(t).value == s + maxDays - 1
    ensures IsoDay(t).Some? ==> (LexLessEq(startIso, t) <==> maxDays >= 1)
  {
    if IsoDay(t).Some? {
      IsoOrder(startIso, t);
    }
  }

  /**
   * The last day the end calendar enables, as a day number: `maxDays - 1`
   * days after the pending start, when there is one.
   */
  function MaxEndDate(tempFrom: Option<string>, maxDays: int): Option<int> {
    if tempFrom.None? || tempFrom.value == "" then None
    else EndFrom(ParseIsoDate(tempFrom.value), maxDays)
  }

  /** `addDays(start, maxDays - 1)` as a day number, when the start parsed. */
  function EndFrom(start: Option<Date>, maxDays: int): Option<int> {
    if start.None? then None else Some(DayNumber(start.value) + maxDays - 1)
  }

  /**
   * Picking an end the end calendar enables, from the start on to its last
   * enabled day, commits the start and the pick unchanged.
   */
  lemma EnabledPickKept(a: Date, b: Date, fromDate: string, maxDays: int)
    requires 1000 <= a.year <= 9999 && 1000 <= b.year <= 9999
    requires DayNumber(a) <= DayNumber(b) <= DayNumber(a) + maxDays - 1
    ensures MaxEndDate(Some(Format(a)), maxDays) == Some(DayNumber(a) + maxDays - 1)
    ensures Commit(Some(Format(a)), fromDate, Format(b), maxDays) == (Format(a), Format(b))
  {
    assert Format(a) != "" by {
      FormatPieces(a);
    }
    ParseIsoDateRoundTrip(a);
    MaxEndOf(Format(a), a, maxDays);
    EndFromDay(a, maxDays);
    FormatOrder(a, b);
    IsoDayOfFormat(a);
    IsoDayOfFormat(b);
    KeptRange(Format(a), fromDate, Format(b), maxDays);
  }

  /** A start that parses makes the end calendar stop `maxDays - 1` days after it. */
  lemma MaxEndOf(value: string, start: Date, maxDays: int)
    requires ParseIsoDate(value) == Some(start)
    ensures MaxEndDate(Some(value), maxDays) == EndFrom(Some(start), maxDays)
  {
    assert value != "";
  }

  /** The last enabled day of a parsed start, as a day number. */
  lemma EndFromDay(start: Date, maxDays: int)
    ensures EndFrom(Some(start), maxDays) == Some(DayNumber(start) + maxDays - 1)
  {
  }

  /** A pending start before a pick no more than `maxDays - 1` days later is committed with the pick as they are. */
  lemma KeptRange(start: string, fromDate: string, pick: string, maxDays: int)
    requires start != "" && LexLessEq(start, pick)
    requires IsoDay(start).Some? && IsoDay(pick).Some? && IsoDay(pick).value - IsoDay(start).value + 1 <= maxDays
    ensures Commit(Some(start), fromDate, pick, maxDays) == (start, pick)
  {
    assert FinalFrom(Some(start), fromDate, pick) == start;
    assert Ordered(start, pick) == (start, pick);
  }

  // ---------------------------------------------------------------------------
  // The picker's state
  // ---------------------------------------------------------------------------

  datatype Mode = SelectStart | SelectEnd

  /** A text is truthy when it is present and not empty. */
  predicate Truthy(s: Option<string>) {
    s.Some? && s.value != ""
  }

  class Picker {
    /** The committed range, held by the parent and set through `setFromDate` and `setToDate`. */
    var fromDate: string
    var toDate: string
    var open: bool
    var selectingMode: Mode
    var tempFrom: Option<string>
    var tempTo: Option<string>
    const maxDays: int

    /** A fresh picker: closed, selecting a start, nothing pending; `maxDays` is 31 unless given. */
    constructor(fromDate: string, toDate: string, maxDays: Option<int>)
      ensures this.fromDate == fromDate && this.toDate == toDate
      ensures !open && selectingMode == SelectStart && tempFrom.None? && tempTo.None?
      ensures this.maxDays == maxDays.GetOr(31)
    {
      this.fromDate := fromDate;
      this.toDate := toDate;
      this.maxDays := maxDays.GetOr(31);
      open := false;
      selectingMode := SelectStart;
      tempFrom := None;
      tempTo := None;
    }

    /**
     * `handleStartSelect`: the picked date becomes the pending start, a
     * pending end before it is dropped, and the end is selected next.
     */
    method HandleStartSelect(date: Option<Date>)
      modifies this
      ensures date.None? ==> unchanged(this)
      ensures date.Some? ==>
        var dateStr := Format(date.value);
        tempFrom == Some(dateStr) &&
        tempTo == (if Truthy(old(tempTo)) && LexLess(old(tempTo).value, dateStr) then None else old(tempTo)) &&
        selectingMode == SelectEnd &&
        fromDate == old(fromDate) && toDate == old(toDate) && open == old(open)
    {
      if date.None? {
        return;
      }
      var dateStr := Format(date.value);
      tempFrom := Some(dateStr);
      if Truthy(tempTo) && LexLess(tempTo.value, dateStr) {
        tempTo := None;
      }
      selectingMode := SelectEnd;
    }

    /**
     * `handleEndSelect`: commits the range `Commit` gives, then closes the
     * picker with nothing pending and the start to be selected next.
     */
    method HandleEndSelect(date: Option<Date>)
      modifies this
      ensures date.None? ==> unchanged(this)
      ensures date.Some? ==>
        (fromDate, toDate) == Commit(old(tempFrom), old(fromDate), Format(date.value), maxDays) &&
        selectingMode == SelectStart && tempFrom.None? && tempTo.None? && !open
    {
      if date.None? {
        return;
      }
      var range := Commit(tempFrom, fromDate, Format(date.value), maxDays);
      fromDate, toDate := range.0, range.1;
      selectingMode := SelectStart;
      tempFrom := None;
      tempTo := None;
      open := false;
    }

    /** `handleOpenChange`: opening keeps the selection; closing clears it and returns to the start. */
    method HandleOpenChange(isOpen: bool)
      modifies this
      ensures open == isOpen && fromDate == old(fromDate) && toDate == old(toDate)
      ensures !isOpen ==> selectingMode == SelectStart && tempFrom.None? && tempTo.None?
      ensures isOpen ==> selectingMode == old(selectingMode) && tempFrom == old(tempFrom) && tempTo == old(tempTo)
    {
      open := isOpen;
      if !isOpen {
        selectingMode := SelectStart;
        tempFrom := None;
        tempTo := None;
      }
    }
  }
}
