/**
 * The learner database's question normaliser and its `add` procedure
 * (`src/database/evaluation/learner.ts`): a question is reduced to
 * lower-case words separated by single spaces, and an evaluation is filed
 * under the stored question with the same normal form, or under a new one.
 */
module Learner {
  import opened Wrappers
  import opened Text
  import opened Lists

  /** `\w`: an ASCII letter, digit or underscore. */
  predicate IsWord(c: char) {
    'a' <= c <= 'z' || 'A' <= c <= 'Z' || '0' <= c <= '9' || c == '_'
  }

  /** A character a normalised question may hold: a lower-case letter, a digit, `_` or a space. */
  predicate IsNormalChar(c: char) {
    'a' <= c <= 'z' || '0' <= c <= '9' || c == '_' || c == ' '
  }

  /** No two whitespace characters in a row. */
  predicate NoDoubleSpace(s: string) {
    forall i :: 0 <= i < |s| - 1 ==> !(IsSpace(s[i]) && IsSpace(s[i + 1]))
  }

  /** The shape of a normalised question. */
  predicate Normal(s: string) {
    (forall i :: 0 <= i < |s| ==> IsNormalChar(s[i])) &&
    NoDoubleSpace(s) && (s == [] || (s[0] != ' ' && s[|s| - 1] != ' '))
  }

  /** `replace(/[^\w\s]/g, "")`: drops every character that is neither a word character nor whitespace. */
  function Strip(s: string): (r: string)
    ensures |r| <= |s|
    ensures forall i :: 0 <= i < |r| ==> IsWord(r[i]) || IsSpace(r[i])
  {
    if s == [] then []
    else if IsWord(s[0]) || IsSpace(s[0]) then [s[0]] + Strip(s[1..])
    else Strip(s[1..])
  }

  /** `replace(/\s+/g, " ")`: every run of whitespace becomes one space. */
  function Collapse(s: string): (r: string)
    ensures s == [] <==> r == []
    decreases |s|
  {
    if s == [] then []
    else if IsSpace(s[0]) then " " + Collapse(TrimStart(s))
    else [s[0]] + Collapse(s[1..])
  }

  /**
   * The collapsed text never has two whitespace characters in a row, its
   * only whitespace is the plain space, every other character comes from
   * the input, and it starts with whitespace exactly when the input does.
   */
  lemma {:induction false} CollapseShape(s: string)
    ensures var r := Collapse(s);
      NoDoubleSpace(r) &&
      (forall i :: 0 <= i < |r| ==> (IsSpace(r[i]) ==> r[i] == ' ') && (!IsSpace(r[i]) ==> r[i] in s)) &&
      (r != [] ==> (IsSpace(r[0]) <==> IsSpace(s[0])))
    decreases |s|
  {
    if s != [] {
      if IsSpace(s[0]) {
        assert TrimStart(s) == TrimStart(s[1..]);
        CollapseShape(TrimStart(s));
        assert forall c :: c in TrimStart(s) ==> c in s by {
          TrimStartSuffix(s);
        }
      } else {
        CollapseShape(s[1..]);
      }
    }
  }

  /** `normalizeQuestion`: strip symbols, collapse whitespace, trim, lower-case. */
  function Normalize(q: string): string {
    Lower(Trim(Collapse(Strip(q))))
  }

  // ---------------------------------------------------------------------------
  // The shape of a normalised question
  // ---------------------------------------------------------------------------

  /** What trim keeps is a slice of its input. */
  lemma TrimIsSlice(s: string) returns (a: nat)
    ensures a + |Trim(s)| <= |s| && Trim(s) == s[a..a + |Trim(s)|]
  {
    TrimStartSuffix(s);
    var t := TrimStart(s);
    TrimEndPrefix(t);
    a := |s| - |t|;
  }

  /**
   * A normalised question holds only lower-case ASCII letters, digits, `_`
   * and spaces, never begins or ends with a space and never has two spaces
   * in a row.
   */
  lemma NormalizeIsNormal(q: string)
    ensures Normal(Normalize(q))
  {
    var c := Collapse(Strip(q));
    CollapseShape(Strip(q));
    var t := Trim(c);
    var a := TrimIsSlice(c);
    assert forall i :: 0 <= i < |t| ==> t[i] == c[a + i];
    assert forall i :: 0 <= i < |c| ==> IsWord(c[i]) || c[i] == ' ';
    var n := Lower(t);
    forall i | 0 <= i < |n| ensures IsNormalChar(n[i]) && (IsSpace(n[i]) <==> IsSpace(t[i])) {
      LowerAt(t, i);
      assert IsWord(t[i]) || t[i] == ' ' by {
        assert t[i] == c[a + i];
      }
      LowerKeepsNormal(t[i]);
    }
    if n != [] {
      LowerAt(t, 0);
      LowerAt(t, |t| - 1);
    }
  }

  /** Lowering a word character or a space gives a character a normalised question may hold, a space only for a space. */
  lemma LowerKeepsNormal(ch: char)
    requires IsWord(ch) || ch == ' '
    ensures IsNormalChar(LowerChar(ch)) && (IsSpace(LowerChar(ch)) <==> IsSpace(ch))
  {
  }

  // ---------------------------------------------------------------------------
  // Idempotence
  // ---------------------------------------------------------------------------

  lemma {:induction false} StripKeepsClean(s: string)
    requires forall i :: 0 <= i < |s| ==> IsWord(s[i]) || IsSpace(s[i])
    ensures Strip(s) == s
  {
    if s != [] {
      StripKeepsClean(s[1..]);
      assert s == [s[0]] + s[1..];
    }
  }

  lemma {:induction false} CollapseKeepsCollapsed(s: string)
    requires NoDoubleSpace(s) && forall i :: 0 <= i < |s| ==> (IsSpace(s[i]) ==> s[i] == ' ')
    ensures Collapse(s) == s
    decreases |s|
  {
    if s != [] {
      if IsSpace(s[0]) {
        if |s| > 1 {
          assert !IsSpace(s[1]);
          assert TrimStart(s[1..]) == s[1..];
        }
        assert TrimStart(s) == s[1..];
      }
      CollapseKeepsCollapsed(s[1..]);
      assert s == [s[0]] + s[1..];
    }
  }

  lemma {:induction false} LowerKeepsLower(s: string)
    requires forall i :: 0 <= i < |s| ==> !('A' <= s[i] <= 'Z')
    ensures Lower(s) == s
  {
    if s != [] {
      LowerKeepsLower(s[1..]);
      assert s == [s[0]] + s[1..];
    }
  }

  /** Normalising a normalised question changes nothing; so normalising twice is normalising once. */
  lemma NormalizeIdempotent(q: string)
    ensures Normal(q) ==> Normalize(q) == q
    ensures Normalize(Normalize(q)) == Normalize(q)
  {
    forall n: string | Normal(n) ensures Normalize(n) == n {
      StripKeepsClean(n);
      CollapseKeepsCollapsed(n);
      TrimOfTrimmed(n);
      LowerKeepsLower(n);
    }
    NormalizeIsNormal(q);
  }

  // ---------------------------------------------------------------------------
  // Case does not matter
  // ---------------------------------------------------------------------------

  lemma {:induction false} StripLower(s: string)
    ensures Strip(Lower(s)) == Lower(Strip(s))
  {
    if s != [] {
      StripLower(s[1..]);
      assert Lower(s)[1..] == Lower(s[1..]);
    }
  }

  lemma {:induction false} TrimStartLower(s: string)
    ensures TrimStart(Lower(s)) == Lower(TrimStart(s))
  {
    if s != [] {
      var l := Lower(s);
      assert l[0] == LowerChar(s[0]) && l[1..] == Lower(s[1..]);
      LowerSpace(s[0]);
      if IsSpace(s[0]) {
        assert TrimStart(l) == TrimStart(l[1..]);
        TrimStartLower(s[1..]);
      } else {
        assert TrimStart(l) == l;
      }
    }
  }

  lemma {:induction false} TrimEndLower(s: string)
    ensures TrimEnd(Lower(s)) == Lower(TrimEnd(s))
  {
    if s != [] {
      var k := |s| - 1;
      var l := Lower(s);
      LowerAt(s, k);
      LowerSpace(s[k]);
      if IsSpace(s[k]) {
        LowerPrefix(s, k);
        assert TrimEnd(l) == TrimEnd(l[..k]);
        TrimEndLower(s[..k]);
      } else {
        assert TrimEnd(l) == l;
      }
    }
  }

  /** Lowering a character keeps it a space or not a space. */
  lemma LowerSpace(c: char)
    ensures IsSpace(LowerChar(c)) == IsSpace(c)
  {
  }

  lemma {:induction false} LowerPrefix(s: string, k: nat)
    requires k <= |s|
    ensures Lower(s)[..k] == Lower(s[..k])
  {
    forall i | 0 <= i < k ensures Lower(s)[i] == Lower(s[..k])[i] {
      LowerAt(s, i);
      LowerAt(s[..k], i);
    }
  }

  lemma {:induction false} CollapseLower(s: string)
    ensures Collapse(Lower(s)) == Lower(Collapse(s))
    decreases |s|
  {
    if s != [] {
      var l := Lower(s);
      assert l[1..] == Lower(s[1..]);
      if IsSpace(s[0]) {
        assert TrimStart(s) == TrimStart(s[1..]);
        TrimStartLower(s);
        CollapseLower(TrimStart(s));
      } else {
        CollapseLower(s[1..]);
      }
    }
  }

  lemma {:induction false} LowerTwice(s: string)
    ensures Lower(Lower(s)) == Lower(s)
  {
    if s != [] {
      LowerTwice(s[1..]);
      assert Lower(s)[1..] == Lower(s[1..]);
    }
  }

  /** The question read in lower case normalises to the same text. */
  lemma NormalizeOfLower(q: string)
    ensures Normalize(q) == Trim(Collapse(Strip(Lower(q))))
  {
    StripLower(q);
    CollapseLower(Strip(q));
    var c := Collapse(Strip(q));
    TrimStartLower(c);
    TrimEndLower(TrimStart(c));
  }

  /** Questions that differ only in the case of their letters normalise to the same text. */
  lemma CaseIgnored(q1: string, q2: string)
    requires Lower(q1) == Lower(q2)
    ensures Normalize(q1) == Normalize(q2)
  {
    NormalizeOfLower(q1);
    NormalizeOfLower(q2);
  }

  // ---------------------------------------------------------------------------
  // Symbols and whitespace runs do not matter
  // ---------------------------------------------------------------------------

  lemma {:induction false} StripConcat(a: string, b: string)
    ensures Strip(a + b) == Strip(a) + Strip(b)
  {
    if a != [] {
      StripConcat(a[1..], b);
      assert (a + b)[1..] == a[1..] + b;
    } else {
      assert a + b == b;
    }
  }

  /** Deleting a character that is neither a word character nor whitespace does not change the normal form. */
  lemma SymbolIgnored(a: string, c: char, b: string)
    requires !IsWord(c) && !IsSpace(c)
    ensures Normalize(a + [c] + b) == Normalize(a + b)
  {
    StripConcat(a + [c], b);
    StripConcat(a, [c]);
    StripConcat(a, b);
    assert Strip([c]) == [] by {
      assert [c][1..] == [];
    }
    assert Strip(a + [c] + b) == Strip(a + b);
  }

  lemma {:induction false} TrimStartConcat(x: string, z: string)
    ensures (forall i :: 0 <= i < |x| ==> IsSpace(x[i])) ==> TrimStart(x + z) == TrimStart(z)
    ensures (exists i :: 0 <= i < |x| && !IsSpace(x[i])) ==> TrimStart(x + z) == TrimStart(x) + z
  {
    if x == [] {
      assert x + z == z;
    } else {
      assert (x + z)[1..] == x[1..] + z;
      TrimStartConcat(x[1..], z);
      if !IsSpace(x[0]) {
        assert exists i :: 0 <= i < |x| && !IsSpace(x[i]);
      } else if exists i :: 0 <= i < |x| && !IsSpace(x[i]) {
        var i :| 0 <= i < |x| && !IsSpace(x[i]);
        assert x[1..][i - 1] == x[i];
      }
    }
  }

  /** One more whitespace character after a whitespace character collapses away. */
  lemma {:induction false} CollapseWiden(x: string, c: char, y: string)
    requires x != [] && IsSpace(x[|x| - 1]) && IsSpace(c)
    ensures Collapse(x + [c] + y) == Collapse(x + y)
    decreases |x|
  {
    if !IsSpace(x[0]) {
      CollapseWiden(x[1..], c, y);
      WidenAfterWord(x, c, y);
    } else if forall i :: 0 <= i < |x| ==> IsSpace(x[i]) {
      WidenInSpace(x, c, y);
    } else {
      var x' := TrimStart(x);
      TrimStartSuffix(x);
      assert TrimStart(x) == TrimStart(x[1..]);
      TrimStartConcat(x, [c]);
      assert x' != [] && x'[|x'| - 1] == x[|x| - 1];
      CollapseWiden(x', c, y);
      WidenAfterTrim(x, c, y);
    }
  }

  /** The widening step after a leading non-whitespace character. */
  lemma WidenAfterWord(x: string, c: char, y: string)
    requires x != [] && !IsSpace(x[0])
    requires Collapse(x[1..] + [c] + y) == Collapse(x[1..] + y)
    ensures Collapse(x + [c] + y) == Collapse(x + y)
  {
    var x1 := x[1..];
    assert x + [c] + y == [x[0]] + (x1 + [c] + y) by {
      assert x == [x[0]] + x1;
    }
    assert x + y == [x[0]] + (x1 + y) by {
      assert x == [x[0]] + x1;
    }
    CollapseOfWord(x[0], x1 + [c] + y);
    CollapseOfWord(x[0], x1 + y);
  }

  /** The widening step when `x` is all whitespace: both sides are a space before the collapsed `y`. */
  lemma WidenInSpace(x: string, c: char, y: string)
    requires x != [] && IsSpace(c) && forall i :: 0 <= i < |x| ==> IsSpace(x[i])
    ensures Collapse(x + [c] + y) == Collapse(x + y)
  {
    var u, v := x + [c] + y, x + y;
    assert u[0] == x[0] && v[0] == x[0];
    CollapseOfSpace(u);
    CollapseOfSpace(v);
    assert u == x + ([c] + y);
    TrimStartConcat(x, [c] + y);
    TrimStartConcat(x, y);
    assert TrimStart([c] + y) == TrimStart(y) by {
      assert ([c] + y)[1..] == y;
    }
  }

  /** The widening step after a leading run of whitespace, given the step for what follows the run. */
  lemma WidenAfterTrim(x: string, c: char, y: string)
    requires x != [] && IsSpace(x[0]) && exists i :: 0 <= i < |x| && !IsSpace(x[i])
    requires Collapse(TrimStart(x) + [c] + y) == Collapse(TrimStart(x) + y)
    ensures Collapse(x + [c] + y) == Collapse(x + y)
  {
    var p, u, v := TrimStart(x), x + [c] + y, x + y;
    assert Collapse(u) == " " + Collapse(p + [c] + y) by {
      Assoc(x, [c], y);
      assert u[0] == x[0];
      TrimStartKeepsTail(x, [c] + y);
      Assoc(p, [c], y);
      CollapseAfterRun(u, p + [c] + y);
    }
    assert Collapse(v) == " " + Collapse(p + y) by {
      assert v[0] == x[0];
      TrimStartKeepsTail(x, y);
      CollapseAfterRun(v, p + y);
    }
  }

  /** Once `x` holds a non-whitespace character, trimming `x + z` leaves `z` whole. */
  lemma TrimStartKeepsTail(x: string, z: string)
    requires exists i :: 0 <= i < |x| && !IsSpace(x[i])
    ensures TrimStart(x + z) == TrimStart(x) + z
  {
    TrimStartConcat(x, z);
  }

  /** A text opening with whitespace collapses to a space before what follows its leading run, collapsed. */
  lemma CollapseAfterRun(u: string, w: string)
    requires u != [] && IsSpace(u[0]) && TrimStart(u) == w
    ensures Collapse(u) == " " + Collapse(w)
  {
    CollapseOfSpace(u);
  }

  /** A non-whitespace character is kept, and the rest collapses after it. */
  lemma CollapseOfWord(ch: char, t: string)
    requires !IsSpace(ch)
    ensures Collapse([ch] + t) == [ch] + Collapse(t)
  {
    assert ([ch] + t)[1..] == t;
  }

  /** A leading run of whitespace becomes one space before the collapsed rest. */
  lemma CollapseOfSpace(s: string)
    requires s != [] && IsSpace(s[0])
    ensures Collapse(s) == " " + Collapse(TrimStart(s))
  {
    assert TrimStart(s) == TrimStart(s[1..]);
  }

  /** Widening a run of whitespace by one more whitespace character does not change the normal form. */
  lemma WhitespaceRunIgnored(a: string, c: char, b: string)
    requires a != [] && IsSpace(a[|a| - 1]) && IsSpace(c)
    ensures Normalize(a + [c] + b) == Normalize(a + b)
  {
    var a0 := a[..|a| - 1];
    var w := a[|a| - 1];
    assert a == a0 + [w];
    StripConcat(a0, [w]);
    assert Strip([w]) == [w];
    StripConcat(a + [c], b);
    StripConcat(a, [c]);
    assert Strip([c]) == [c];
    StripConcat(a, b);
    var sa := Strip(a);
    assert sa == Strip(a0) + [w];
    CollapseWiden(sa, c, Strip(b));
  }

  // ---------------------------------------------------------------------------
  // add
  // ---------------------------------------------------------------------------

  datatype QuestionRow = QuestionRow(id: int, content: string)

  datatype EvaluationRow = EvaluationRow(questionId: int, answer: string, score: int, justification: string, llmModel: string)

  /**
   * The row the lookup query is meant to find for a normalised question,
   * comparing it with each stored question's normal form: the first match
   * in the table. This is the intended lookup; the query as written
   * compares another key (`LookupAsWritten` below).
   */
  function Lookup(rows: seq<QuestionRow>, normalized: string): Option<QuestionRow> {
    Find((r: QuestionRow) => Normalize(r.content) == normalized, rows)
  }

  /** The question rows after an `add` with the intended lookup: unchanged when it finds a row, else the new question appended. */
  function AddedRows(rows: seq<QuestionRow>, nextId: int, question: string): seq<QuestionRow> {
    if Lookup(rows, Normalize(question)).Some? then rows else rows + [QuestionRow(nextId, question)]
  }

  /** The id the evaluation is filed under. */
  function QuestionIdFor(rows: seq<QuestionRow>, nextId: int, question: string): int {
    var found := Lookup(rows, Normalize(question));
    if found.Some? then found.value.id else nextId
  }

  /**
   * Adding a question whose normal form is already stored adds no row and
   * files the evaluation under the stored row; in particular adding the
   * same question twice, or with other case, symbols or spacing, keeps a
   * single row for it.
   */
  lemma RepeatedQuestionReused(rows: seq<QuestionRow>, nextId: int, q1: string, q2: string)
    requires Normalize(q1) == Normalize(q2)
    ensures var after := AddedRows(rows, nextId, q1);
      AddedRows(after, nextId + 1, q2) == after &&
      QuestionIdFor(after, nextId + 1, q2) == QuestionIdFor(rows, nextId, q1)
  {
    var n := Normalize(q1);
    var after := AddedRows(rows, nextId, q1);
    var p := (r: QuestionRow) => Normalize(r.content) == n;
    if Lookup(rows, n).None? {
      var row := QuestionRow(nextId, q1);
      assert after == rows + [row];
      assert forall j :: 0 <= j < |rows| ==> !p(after[j]) by {
        forall j | 0 <= j < |rows| ensures !p(after[j]) {
          assert after[j] == rows[j] && rows[j] in rows;
        }
      }
      FindAt(p, after, |rows|);
    } else {
      FindFirst(p, rows);
    }
  }

  // ---------------------------------------------------------------------------
  // The lookup as the query writes it
  // ---------------------------------------------------------------------------

  /** SQLite's `TRIM(x)`: drops leading and trailing spaces (only the space character). */
  function SqlTrim(s: string): string
    decreases |s|
  {
    if s != [] && s[0] == ' ' then SqlTrim(s[1..])
    else if s != [] && s[|s| - 1] == ' ' then SqlTrim(s[..|s| - 1])
    else s
  }

  /** SQLite's `REPLACE(x, y, z)`: every occurrence of the literal text `y`, left to right, becomes `z`. */
  function ReplaceAll(s: string, pat: string, rep: string): string
    requires pat != []
    decreases |s|
  {
    if |s| < |pat| then s
    else if s[..|pat|] == pat then rep + ReplaceAll(s[|pat|..], pat, rep)
    else [s[0]] + ReplaceAll(s[1..], pat, rep)
  }

  /** The text the query hands to `REPLACE`: the regular expression's source, which SQLite takes literally. */
  const SymbolPattern := "[^\\w\\s]"

  /** The key the lookup query compares: `REPLACE(LOWER(TRIM(content)), '[^\w\s]', '')`. */
  function SqlKey(content: string): string {
    ReplaceAll(Lower(SqlTrim(content)), SymbolPattern, "")
  }

  /** The row the lookup query as written finds: the first whose key equals the normalised question. */
  function LookupAsWritten(rows: seq<QuestionRow>, normalized: string): Option<QuestionRow> {
    Find((r: QuestionRow) => SqlKey(r.content) == normalized, rows)
  }

  /** The question rows after `add`: unchanged when the query finds a row, else the new question appended. */
  function AddedRowsAsWritten(rows: seq<QuestionRow>, nextId: int, question: string): seq<QuestionRow> {
    if LookupAsWritten(rows, Normalize(question)).Some? then rows else rows + [QuestionRow(nextId, question)]
  }

  /** The id the evaluation is filed under, as the query finds it. */
  function QuestionIdForAsWritten(rows: seq<QuestionRow>, nextId: int, question: string): int {
    var found := LookupAsWritten(rows, Normalize(question));
    if found.Some? then found.value.id else nextId
  }

  /** The learner database: its question and evaluation tables and the rowid SQLite gives the next question. */
  class LearnerDb {
    var questions: seq<QuestionRow>
    var evaluations: seq<EvaluationRow>
    var nextId: int

    /**
     * `add`: files the evaluation under the first stored question whose
     * database key equals the new question's normal form, inserting the
     * question as typed (and taking the rowid it gets) when there is none.
     */
    method Add(question: string, answer: string, score: int, justification: string, llmModel: string)
      modifies this
      ensures questions == AddedRowsAsWritten(old(questions), old(nextId), question)
      ensures evaluations == old(evaluations) +
        [EvaluationRow(QuestionIdForAsWritten(old(questions), old(nextId), question), answer, score, justification, llmModel)]
      ensures nextId == if |questions| > |old(questions)| then old(nextId) + 1 else old(nextId)
    {
      var normalized := Normalize(question);
      var existing := LookupAsWritten(questions, normalized);
      var questionId: int;
      if existing.Some? {
        questionId := existing.value.id;
      } else {
        questions := questions + [QuestionRow(nextId, question)];
        questionId := nextId;
        nextId := nextId + 1;
      }
      evaluations := evaluations + [EvaluationRow(questionId, answer, score, justification, llmModel)];
    }
  }


  /**
   * As written, the query does not find a stored question that holds a
   * symbol: "Hi?" is stored as typed, its key is "hi?", its normal form is
   * "hi", so adding it a second time stores it again.
   */
  lemma AsWrittenStoresTwice()
    ensures var once := AddedRowsAsWritten([], 1, "Hi?");
      AddedRowsAsWritten(once, 2, "Hi?") == [QuestionRow(1, "Hi?"), QuestionRow(2, "Hi?")]
  {
    var q := "Hi?";
    NormalFormOfHi();
    var once := [QuestionRow(1, q)];
    AddedWhenMissing([], 1, q);
    assert [] + once == once;
    StoredHiNotFound();
    AddedWhenMissing(once, 2, q);
  }

  lemma AddedWhenMissing(rows: seq<QuestionRow>, nextId: int, question: string)
    requires LookupAsWritten(rows, Normalize(question)) == None
    ensures AddedRowsAsWritten(rows, nextId, question) == rows + [QuestionRow(nextId, question)]
  {
  }

  /** The query looks "Hi?", stored as typed, up under "hi?" and so misses it when asked for "hi". */
  lemma StoredHiNotFound()
    ensures LookupAsWritten([QuestionRow(1, "Hi?")], "hi") == None
  {
    var once := [QuestionRow(1, "Hi?")];
    KeyOfHi();
    assert once[1..] == [];
  }

  /** The normal form of "Hi?" is "hi". */
  lemma NormalFormOfHi()
    ensures Normalize("Hi?") == "hi"
  {
    StripOfHi();
    CollapseOfHi();
    TrimOfHi();
    LowerOfHi();
  }

  lemma StripOfHi()
    ensures Strip("Hi?") == "Hi"
  {
    var q := "Hi?";
    assert q[1..] == "i?";
    assert q[1..][1..] == "?";
    assert Strip("?") == [];
  }

  lemma CollapseOfHi()
    ensures Collapse("Hi") == "Hi"
  {
    assert "Hi"[1..] == "i";
    assert Collapse("i") == "i";
  }

  lemma TrimOfHi()
    ensures Trim("Hi") == "Hi"
  {
    TrimOfTrimmed("Hi");
  }

  lemma LowerOfHi()
    ensures Lower("Hi") == "hi"
  {
    assert "Hi"[1..] == "i";
  }

  /** The database's key for "Hi?" is "hi?". */
  lemma KeyOfHi()
    ensures SqlKey("Hi?") == "hi?"
  {
    var q := "Hi?";
    assert SqlTrim(q) == q;
    assert Lower(q) == "hi?" by {
      assert q[1..] == "i?";
      assert q[1..][1..] == "?";
    }
  }

  // ---------------------------------------------------------------------------
  // What the query as written finds
  // ---------------------------------------------------------------------------

  /** A character the normaliser removes and the literal pattern does not hold, such as `?` or `!`. */
  predicate IsSymbol(c: char) {
    !IsWord(c) && !IsSpace(c) && c !in SymbolPattern
  }

  predicate HasSymbol(s: string) {
    exists c :: c in s && IsSymbol(c)
  }

  /** Trimming spaces keeps every other character. */
  lemma {:induction false} SqlTrimKeeps(s: string, c: char)
    requires c in s && c != ' '
    ensures c in SqlTrim(s)
    decreases |s|
  {
    if s[0] == ' ' {
      assert s == [s[0]] + s[1..];
      SqlTrimKeeps(s[1..], c);
    } else if s[|s| - 1] == ' ' {
      assert s == s[..|s| - 1] + [s[|s| - 1]];
      SqlTrimKeeps(s[..|s| - 1], c);
    }
  }

  /** Lower-casing keeps every character that is not an upper-case letter. */
  lemma LowerKeeps(s: string, c: char)
    requires c in s && !('A' <= c <= 'Z')
    ensures c in Lower(s)
  {
    var k :| 0 <= k < |s| && s[k] == c;
    LowerAt(s, k);
  }

  /** Replacing a text keeps every character the text does not hold. */
  lemma {:induction false} ReplaceKeeps(s: string, pat: string, rep: string, c: char)
    requires pat != [] && c in s && c !in pat
    ensures c in ReplaceAll(s, pat, rep)
    decreases |s|
  {
    if |s| >= |pat| {
      if s[..|pat|] == pat {
        assert s == s[..|pat|] + s[|pat|..];
        ReplaceKeeps(s[|pat|..], pat, rep, c);
      } else if s[0] != c {
        assert s == [s[0]] + s[1..];
        ReplaceKeeps(s[1..], pat, rep, c);
      }
    }
  }

  /**
   * A stored question that holds a symbol keeps it in its database key, so
   * its key equals no normalised question: the query never finds it.
   */
  lemma SymbolKeyNeverMatches(content: string, q: string)
    requires HasSymbol(content)
    ensures SqlKey(content) != Normalize(q)
  {
    var c :| c in content && IsSymbol(c);
    SqlTrimKeeps(content, c);
    LowerKeeps(SqlTrim(content), c);
    ReplaceKeeps(Lower(SqlTrim(content)), SymbolPattern, "", c);
    NormalizeIsNormal(q);
    var n := Normalize(q);
    assert forall i :: 0 <= i < |n| ==> n[i] != c by {
      forall i | 0 <= i < |n| ensures n[i] != c {
        assert IsNormalChar(n[i]);
      }
    }
  }

  /**
   * As written, `add` never reuses a stored question that holds a symbol:
   * when every stored question holds one, a question that also holds one
   * is stored again each time it is added, under a new id each time.
   */
  lemma AsWrittenRepeatsSymbols(rows: seq<QuestionRow>, nextId: int, q: string)
    requires forall r :: r in rows ==> HasSymbol(r.content)
    requires HasSymbol(q)
    ensures var once := AddedRowsAsWritten(rows, nextId, q);
      once == rows + [QuestionRow(nextId, q)] &&
      AddedRowsAsWritten(once, nextId + 1, q) == once + [QuestionRow(nextId + 1, q)] &&
      QuestionIdForAsWritten(rows, nextId, q) == nextId &&
      QuestionIdForAsWritten(once, nextId + 1, q) == nextId + 1
  {
    var once := rows + [QuestionRow(nextId, q)];
    NotFoundAsWritten(rows, q);
    forall r | r in once ensures HasSymbol(r.content) {
      assert r in rows || r == QuestionRow(nextId, q);
    }
    NotFoundAsWritten(once, q);
  }

  lemma NotFoundAsWritten(rows: seq<QuestionRow>, q: string)
    requires forall r :: r in rows ==> HasSymbol(r.content)
    ensures LookupAsWritten(rows, Normalize(q)) == None
  {
    forall r | r in rows ensures SqlKey(r.content) != Normalize(q) {
      SymbolKeyNeverMatches(r.content, q);
    }
  }

  /** A question already in normal form is its own database key. */
  lemma SqlKeyOfNormal(s: string)
    requires Normal(s)
    ensures SqlKey(s) == s
  {
    LowerOfNormal(s);
    assert SymbolPattern[0] == '[';
    ReplaceAbsent(s, SymbolPattern, "");
  }

  lemma {:induction false} LowerOfNormal(s: string)
    requires forall i :: 0 <= i < |s| ==> IsNormalChar(s[i])
    ensures Lower(s) == s
  {
    if s != [] {
      assert IsNormalChar(s[0]);
      LowerOfNormal(s[1..]);
    }
  }

  /** Replacing a text whose first character does not occur changes nothing. */
  lemma {:induction false} ReplaceAbsent(s: string, pat: string, rep: string)
    requires pat != [] && pat[0] !in s
    ensures ReplaceAll(s, pat, rep) == s
    decreases |s|
  {
    if |s| >= |pat| {
      assert s[0] in s;
      assert s[..|pat|] != pat by {
        assert s[..|pat|][0] == s[0];
      }
      ReplaceAbsent(s[1..], pat, rep);
    }
  }

  /**
   * As written, `add` does reuse a question first typed in normal form:
   * adding it, then any question with the same normal form, keeps one row
   * and files both evaluations under its id.
   */
  lemma AsWrittenReusesNormal(rows: seq<QuestionRow>, nextId: int, q1: string, q2: string)
    requires Normalize(q1) == q1 && Normalize(q2) == q1
    ensures var after := AddedRowsAsWritten(rows, nextId, q1);
      AddedRowsAsWritten(after, nextId + 1, q2) == after &&
      QuestionIdForAsWritten(after, nextId + 1, q2) == QuestionIdForAsWritten(rows, nextId, q1)
  {
    var after := AddedRowsAsWritten(rows, nextId, q1);
    var p := (r: QuestionRow) => SqlKey(r.content) == q1;
    if LookupAsWritten(rows, q1).None? {
      NormalizeIsNormal(q1);
      SqlKeyOfNormal(q1);
      assert after == rows + [QuestionRow(nextId, q1)];
      assert forall j :: 0 <= j < |rows| ==> !p(after[j]) by {
        forall j | 0 <= j < |rows| ensures !p(after[j]) {
          assert after[j] == rows[j] && rows[j] in rows;
        }
      }
      FindAt(p, after, |rows|);
    }
  }
}
