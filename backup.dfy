/**
 * Backup and restore of `src/database/backup.ts`: the check a backup file
 * must pass, the shape an export produces, and the statements a restore
 * issues on the database connection, in order, with the transaction's
 * rollback when a statement fails or a row is `null`. The database itself
 * is not modelled: a connection records the statements it is given and
 * fails the one at a position fixed in advance, if any.
 */
module Backup {
  import opened Wrappers
  import opened Lists
  import opened JsonValue

  /** JavaScript truthiness of a JSON value. */
  predicate Truthy(j: Json) {
    match j
    case JNull => false
    case JBool(b) => b
    case JNum(n) => n != 0.0
    case JStr(s) => s != ""
    case JArr(_) => true
    case JObj(_) => true
  }

  /** `key in data` for the values that pass the object check (arrays have no such named keys). */
  predicate Has(data: Json, key: string) {
    data.JObj? && key in data.fields
  }

  /** `Array.isArray(data[key])`. */
  predicate IsArrayAt(data: Json, key: string) {
    data.JObj? && key in data.fields && data.fields[key].JArr?
  }

  /** `obj.field` for a value that is not null: `undefined` (here `None`) unless an object holds it. */
  function Field(obj: Json, key: string): Option<Json> {
    if obj.JObj? && key in obj.fields then Some(obj.fields[key]) else None
  }

  const RequiredKeys: seq<string> := ["questions", "evaluations", "rubrics", "conversations", "messages", "metadata"]
  const ArrayKeys: seq<string> := ["questions", "evaluations", "rubrics", "conversations", "messages"]

  const NotAnObject := "Backup file must contain " + "a valid JSON object"
  const BadMetadata := "Invalid metadata structure"
  /**
   * What the JavaScript engine reports when `data.metadata.version` is read
   * from a `null` metadata; the text differs between engines.
   */
  const NullAccess := "TypeError: null is not an object"

  function MissingField(key: string): string { "Missing required field: " + key }
  function NotAnArray(key: string): string { "Field '" + key + "' must be an array" }

  /** The test of the first loop: the key is absent. */
  function Missing(data: Json): string -> bool {
    (k: string) => !Has(data, k)
  }

  /** The test of the second loop: the value under the key is not an array. */
  function NotArray(data: Json): string -> bool {
    (k: string) => !IsArrayAt(data, k)
  }

  /** What `validateBackupData` answers: `Ok` when valid, else the error text. */
  function Validation(data: Json): Result<(), string> {
    if !Truthy(data) || !(data.JObj? || data.JArr?) then Err(NotAnObject)
    else
      var missing := Find(Missing(data), RequiredKeys);
      if missing.Some? then Err(MissingField(missing.value))
      else
        var notArray := Find(NotArray(data), ArrayKeys);
        if notArray.Some? then Err(NotAnArray(notArray.value))
        else
          var metadata := data.fields["metadata"];
          if metadata.JNull? then Err("Validation error: " + NullAccess)
          else if !(Field(metadata, "version").Some? && Truthy(Field(metadata, "version").value)) ||
                  !(Field(metadata, "created_at").Some? && Truthy(Field(metadata, "created_at").value))
          then Err(BadMetadata)
          else Ok(())
  }

  /** `validateBackupData`: the two key loops, then the metadata check. */
  method ValidateBackupData(data: Json) returns (r: Result<(), string>)
    ensures r == Validation(data)
  {
    if !Truthy(data) || !(data.JObj? || data.JArr?) {
      return Err(NotAnObject);
    }
    for i := 0 to |RequiredKeys|
      invariant forall j :: 0 <= j < i ==> Has(data, RequiredKeys[j])
    {
      if !Has(data, RequiredKeys[i]) {
        FindAt(Missing(data), RequiredKeys, i);
        return Err(MissingField(RequiredKeys[i]));
      }
    }
    for i := 0 to |ArrayKeys|
      invariant forall j :: 0 <= j < i ==> IsArrayAt(data, ArrayKeys[j])
    {
      if !IsArrayAt(data, ArrayKeys[i]) {
        FindAt(NotArray(data), ArrayKeys, i);
        return Err(NotAnArray(ArrayKeys[i]));
      }
    }
    assert Find(Missing(data), RequiredKeys) == None;
    assert Find(NotArray(data), ArrayKeys) == None;
    assert Has(data, RequiredKeys[5]);
    var metadata := data.fields["metadata"];
    if metadata.JNull? {
      return Err("Validation error: " + NullAccess);
    }
    var version := Field(metadata, "version");
    var createdAt := Field(metadata, "created_at");
    if !(version.Some? && Truthy(version.value)) || !(createdAt.Some? && Truthy(createdAt.value)) {
      return Err(BadMetadata);
    }
    r := Ok(());
  }

  /**
   * A backup is valid exactly when it is an object with the six keys, the
   * five collections are arrays, and the metadata holds a truthy version and
   * creation time.
   */
  lemma ValidIff(data: Json)
    ensures Validation(data).Ok? <==>
      data.JObj? && (forall k :: k in RequiredKeys ==> k in data.fields) &&
      (forall k :: k in ArrayKeys ==> data.fields[k].JArr?) &&
      Field(data.fields["metadata"], "version").Some? && Truthy(Field(data.fields["metadata"], "version").value) &&
      Field(data.fields["metadata"], "created_at").Some? && Truthy(Field(data.fields["metadata"], "created_at").value)
  {
  }

  /** Anything but an object or array is refused first, and an array misses the first key. */
  lemma NotObjectRejected(data: Json)
    ensures !(data.JObj? || data.JArr?) ==> Validation(data) == Err(NotAnObject)
    ensures data.JArr? ==> Validation(data) == Err(MissingField("questions"))
  {
    if data.JArr? {
      FindAt(Missing(data), RequiredKeys, 0);
    }
  }

  /** The keys are checked in order: the error names the first key that is missing. */
  lemma FirstMissingNamed(data: Json, i: nat)
    requires data.JObj? && i < |RequiredKeys|
    requires forall j :: 0 <= j < i ==> RequiredKeys[j] in data.fields
    requires RequiredKeys[i] !in data.fields
    ensures Validation(data) == Err(MissingField(RequiredKeys[i]))
  {
    FindAt(Missing(data), RequiredKeys, i);
  }

  /** With every key present, the error names the first collection, in order, that is not an array. */
  lemma FirstNonArrayNamed(data: Json, i: nat)
    requires data.JObj? && forall k :: k in RequiredKeys ==> k in data.fields
    requires i < |ArrayKeys|
    requires forall j :: 0 <= j < i ==> data.fields[ArrayKeys[j]].JArr?
    requires !data.fields[ArrayKeys[i]].JArr?
    ensures Validation(data) == Err(NotAnArray(ArrayKeys[i]))
  {
    assert Truthy(data);
    assert Find(Missing(data), RequiredKeys) == None;
    FindAt(NotArray(data), ArrayKeys, i);
  }

  /** A `null` metadata makes the property read throw; the exception is turned into an answer. */
  lemma NullMetadataCaught(data: Json)
    requires data.JObj? && forall k :: k in RequiredKeys ==> k in data.fields
    requires forall k :: k in ArrayKeys ==> data.fields[k].JArr?
    requires data.fields["metadata"] == JNull
    ensures Validation(data) == Err("Validation error: " + NullAccess)
  {
  }

  /**
   * `exportAllData`'s result: the five query results under their keys and
   * the metadata with version "1.0", the creation time and the app name.
   */
  function Export(questions: seq<Json>, evaluations: seq<Json>, rubrics: seq<Json>,
                  conversations: seq<Json>, messages: seq<Json>, createdAt: string): Json
  {
    JObj(map[
      "questions" := JArr(questions),
      "evaluations" := JArr(evaluations),
      "rubrics" := JArr(rubrics),
      "conversations" := JArr(conversations),
      "messages" := JArr(messages),
      "metadata" := JObj(map["version" := JStr("1.0"), "created_at" := JStr(createdAt), "app_version" := JStr("open2e")])])
  }

  /** Every export passes the validation (an ISO timestamp is never empty). */
  lemma ExportIsValid(questions: seq<Json>, evaluations: seq<Json>, rubrics: seq<Json>,
                      conversations: seq<Json>, messages: seq<Json>, createdAt: string)
    requires createdAt != ""
    ensures Validation(Export(questions, evaluations, rubrics, conversations, messages, createdAt)) == Ok(())
  {
    var data := Export(questions, evaluations, rubrics, conversations, messages, createdAt);
    var metadata := data.fields["metadata"];
    assert Field(metadata, "version") == Some(JStr("1.0"));
    assert Field(metadata, "created_at") == Some(JStr(createdAt));
    forall k | k in ArrayKeys ensures k in data.fields && data.fields[k].JArr? {
      assert k == "questions" || k == "evaluations" || k == "rubrics" || k == "conversations" || k == "messages";
    }
    assert forall k :: k in RequiredKeys ==> k in ArrayKeys || k == "metadata";
    ValidIff(data);
  }

  // ---------------------------------------------------------------------------
  // importAllData
  // ---------------------------------------------------------------------------

  datatype Table = Message | Conversation | Evaluation | Question | Rubric

  /** A statement sent to the database; an insert carries the row it binds. */
  datatype Statement = Begin | DeleteFrom(table: Table) | Insert(into: Table, row: Json) | Commit | Rollback

  /**
   * A database connection: the statements it was given, in order, and the
   * position in that log of the statement that fails, if one does, with the
   * text of its error.
   */
  class Connection {
    var log: seq<Statement>
    const failsAt: Option<nat>
    const failure: string

    constructor(failsAt: Option<nat>, failure: string)
      ensures log == [] && this.failsAt == failsAt && this.failure == failure
    {
      log := [];
      this.failsAt := failsAt;
      this.failure := failure;
    }

    /** `db.execute`: records the statement and reports whether it succeeded. */
    method Execute(s: Statement) returns (ok: bool)
      modifies this
      ensures log == old(log) + [s]
      ensures ok <==> failsAt != Some(|old(log)|)
    {
      log := log + [s];
      ok := failsAt != Some(|log| - 1);
    }
  }

  /** Children first: messages, conversations, evaluations, questions, rubrics. */
  const Deletes: seq<Statement> :=
    [DeleteFrom(Message), DeleteFrom(Conversation), DeleteFrom(Evaluation), DeleteFrom(Question), DeleteFrom(Rubric)]

  /** The rows of a collection, when it is an array. */
  function Rows(data: Json, key: string): seq<Json> {
    if IsArrayAt(data, key) then data.fields[key].items else []
  }

  function Inserts(t: Table, rows: seq<Json>): (r: seq<Statement>)
    ensures |r| == |rows|
    ensures forall i :: 0 <= i < |rows| ==> r[i] == Insert(t, rows[i])
  {
    Map((row: Json) => Insert(t, row), rows)
  }

  /** Parents first: rubrics, questions, conversations, evaluations, messages. */
  function AllInserts(data: Json): seq<Statement> {
    Inserts(Rubric, Rows(data, "rubrics")) + Inserts(Question, Rows(data, "questions")) +
    Inserts(Conversation, Rows(data, "conversations")) + Inserts(Evaluation, Rows(data, "evaluations")) +
    Inserts(Message, Rows(data, "messages"))
  }

  /** Everything a restore issues when no statement fails. */
  function Plan(data: Json): seq<Statement> {
    [Begin] + Deletes + AllInserts(data) + [Commit]
  }

  /** How running a list of statements ends: all sent, one failed, or building one threw. */
  datatype Outcome = Done | Failed | Threw

  /**
   * Building an insert reads the row's fields (`rubric.id`, `question.id`,
   * ...), which throws a `TypeError` before anything is sent when the row
   * is `null`.
   */
  predicate ReadsNull(s: Statement) {
    s.Insert? && s.row.JNull?
  }

  /**
   * Running `stmts` from log position `base`: how it ends and what reaches
   * the database. The statements are sent in order until one fails, which
   * is sent and ends the run, or until building one throws, which is not
   * sent and ends it.
   */
  function Run(failsAt: Option<nat>, base: nat, stmts: seq<Statement>): (Outcome, seq<Statement>)
    decreases |stmts|
  {
    if stmts == [] then (Done, [])
    else if ReadsNull(stmts[0]) then (Threw, [])
    else if failsAt == Some(base) then (Failed, [stmts[0]])
    else
      var rest := Run(failsAt, base + 1, stmts[1..]);
      (rest.0, [stmts[0]] + rest.1)
  }

  /**
   * What a run sends is a prefix of its statements, none of them built
   * from `null`: all of them when it ran through, up to and including the
   * failing one when one failed, and up to the one that threw otherwise.
   */
  lemma {:induction false} RunShape(failsAt: Option<nat>, base: nat, stmts: seq<Statement>)
    ensures var r := Run(failsAt, base, stmts);
      r.1 <= stmts && (forall i :: 0 <= i < |r.1| ==> !ReadsNull(stmts[i])) &&
      (r.0 == Done ==> r.1 == stmts) &&
      (r.0 == Failed ==> |r.1| > 0 && failsAt == Some(base + |r.1| - 1)) &&
      (r.0 == Threw ==> |r.1| < |stmts| && ReadsNull(stmts[|r.1|])) &&
      (failsAt.Some? && base <= failsAt.value < base + |r.1| ==> r.0 == Failed)
    decreases |stmts|
  {
    if stmts != [] && !ReadsNull(stmts[0]) && failsAt != Some(base) {
      RunShape(failsAt, base + 1, stmts[1..]);
      var rest := Run(failsAt, base + 1, stmts[1..]);
      assert stmts == [stmts[0]] + stmts[1..];
      assert forall i :: 1 <= i < |rest.1| + 1 ==> stmts[i] == stmts[1..][i - 1];
    }
  }

  /** Running two lists one after the other, the second only when the first ran through, does what running their concatenation does. */
  lemma {:induction false} RunConcat(failsAt: Option<nat>, base: nat, a: seq<Statement>, b: seq<Statement>)
    ensures var ra, rb := Run(failsAt, base, a), Run(failsAt, base + |a|, b);
      Run(failsAt, base, a + b) == if ra.0 == Done then (rb.0, a + rb.1) else ra
    decreases |a|
  {
    if a == [] {
      var rb := Run(failsAt, base, b);
      assert a + b == b && a + rb.1 == rb.1;
    } else if ReadsNull(a[0]) || failsAt == Some(base) {
      assert (a + b)[0] == a[0];
    } else {
      assert (a + b)[0] == a[0];
      assert (a + b)[1..] == a[1..] + b;
      RunConcat(failsAt, base + 1, a[1..], b);
      var rb := Run(failsAt, base + |a|, b);
      assert [a[0]] + (a[1..] + rb.1) == a + rb.1;
    }
  }

  /** The two facts of `RunShape` a restore's answer depends on: what a run that ran through sent, and where one failed. */
  lemma RunEnds(failsAt: Option<nat>, base: nat, stmts: seq<Statement>)
    ensures var r := Run(failsAt, base, stmts);
      (r.0 == Done ==> r.1 == stmts) && (r.0 == Failed ==> |r.1| > 0 && failsAt == Some(base + |r.1| - 1))
  {
    RunShape(failsAt, base, stmts);
  }

  /** A single statement that can be built and does not fail is sent, and the run goes on. */
  lemma RunOne(failsAt: Option<nat>, base: nat, s: Statement)
    requires !ReadsNull(s) && failsAt != Some(base)
    ensures Run(failsAt, base, [s]) == (Done, [s])
  {
    assert [s][1..] == [];
    assert Run(failsAt, base + 1, []) == (Done, []);
    assert [s] + [] == [s];
  }

  /** Runs the statements in order and stops at the first that fails or cannot be built. */
  method RunAll(db: Connection, stmts: seq<Statement>) returns (out: Outcome)
    modifies db
    ensures var r := Run(db.failsAt, |old(db.log)|, stmts); out == r.0 && db.log == old(db.log) + r.1
  {
    ghost var base := |db.log|;
    for i := 0 to |stmts|
      invariant db.log == old(db.log) + stmts[..i]
      invariant Run(db.failsAt, base, stmts[..i]) == (Done, stmts[..i])
    {
      RunConcat(db.failsAt, base, stmts[..i], stmts[i..]);
      assert stmts[..i] + stmts[i..] == stmts;
      assert stmts[i..][0] == stmts[i];
      if ReadsNull(stmts[i]) {
        return Threw;
      }
      assert |db.log| == base + i;
      var ok := db.Execute(stmts[i]);
      if !ok {
        return Failed;
      }
      assert db.failsAt != Some(base + i);
      RunOne(db.failsAt, base + i, stmts[i]);
      RunConcat(db.failsAt, base, stmts[..i], [stmts[i]]);
      assert stmts[..i + 1] == stmts[..i] + [stmts[i]];
    }
    assert stmts[..|stmts|] == stmts;
    return Done;
  }

  /**
   * Where a restore stands: the log holds what running `done` since
   * `start` sent, and `out` is how that run ended.
   */
  ghost predicate Progress(log: seq<Statement>, failsAt: Option<nat>, start: seq<Statement>,
                           done: seq<Statement>, out: Outcome)
  {
    var r := Run(failsAt, |start|, done);
    log == start + r.1 && out == r.0
  }

  /** One step of a restore inside its `try`: the statements run only while everything before ran through. */
  method Stage(db: Connection, out: Outcome, stmts: seq<Statement>, ghost start: seq<Statement>, ghost done: seq<Statement>)
    returns (out': Outcome)
    modifies db
    requires Progress(db.log, db.failsAt, start, done, out)
    ensures Progress(db.log, db.failsAt, start, done + stmts, out')
  {
    RunConcat(db.failsAt, |start|, done, stmts);
    RunEnds(db.failsAt, |start|, done);
    if out == Done {
      out' := RunAll(db, stmts);
    } else {
      out' := out;
    }
  }

  /** The five insert loops, parents first, each running only while everything before ran through. */
  method InsertAll(db: Connection, out: Outcome, data: Json, ghost start: seq<Statement>, ghost done: seq<Statement>)
    returns (out': Outcome)
    modifies db
    requires Progress(db.log, db.failsAt, start, done, out)
    ensures Progress(db.log, db.failsAt, start, done + AllInserts(data), out')
  {
    var rubrics, questions, conversations, evaluations, messages :=
      Inserts(Rubric, Rows(data, "rubrics")), Inserts(Question, Rows(data, "questions")),
      Inserts(Conversation, Rows(data, "conversations")), Inserts(Evaluation, Rows(data, "evaluations")),
      Inserts(Message, Rows(data, "messages"));
    var a := rubrics;
    var b := a + questions;
    var c := b + conversations;
    var d := c + evaluations;
    out' := Stage(db, out, rubrics, start, done);
    out' := Stage(db, out', questions, start, done + a);
    AppendAssoc(done, a, questions);
    out' := Stage(db, out', conversations, start, done + b);
    AppendAssoc(done, b, conversations);
    out' := Stage(db, out', evaluations, start, done + c);
    AppendAssoc(done, c, evaluations);
    out' := Stage(db, out', messages, start, done + d);
    AppendAssoc(done, d, messages);
    assert d + messages == AllInserts(data);
  }

  /**
   * The body of the restore's transaction, after BEGIN: clear the tables
   * children first, insert the rows parents first, commit; each step runs
   * only while everything before ran through.
   */
  method Transaction(db: Connection, data: Json, ghost start: seq<Statement>) returns (out: Outcome)
    modifies db
    requires Progress(db.log, db.failsAt, start, [Begin], Done)
    ensures Progress(db.log, db.failsAt, start, Plan(data), out)
  {
    out := Stage(db, Done, Deletes, start, [Begin]);
    out := InsertAll(db, out, data, start, [Begin] + Deletes);
    out := Stage(db, out, [Commit], start, [Begin] + Deletes + AllInserts(data));
  }

  /**
   * BEGIN, then, when it succeeds, the transaction's body; what is sent is
   * what running the whole plan sends.
   */
  method Restore(db: Connection, data: Json) returns (began: bool, out: Outcome)
    modifies db
    ensures Progress(db.log, db.failsAt, old(db.log), Plan(data), out)
    ensures began <==> db.failsAt != Some(|old(db.log)|)
  {
    ghost var start := db.log;
    began := db.Execute(Begin);
    assert Plan(data)[0] == Begin;
    if !began {
      out := Failed;
      return;
    }
    RunOne(db.failsAt, |start|, Begin);
    out := Transaction(db, data, start);
  }

  /**
   * `importAllData` on a connection: an invalid backup is refused before
   * any statement; otherwise the transaction begins, the tables are
   * cleared children first, the rows are inserted parents first and the
   * transaction commits. A failing BEGIN ends the restore at once; a later
   * failing statement, or a `null` row whose fields cannot be read, ends
   * it with ROLLBACK. The answer is the error text (the ROLLBACK's own if
   * that fails too), or `None` on success.
   */
  method ImportAllData(db: Connection, openError: Option<string>, data: Json) returns (error: Option<string>)
    modifies db
    ensures openError.Some? ==> error == openError && db.log == old(db.log)
    ensures openError.None? && Validation(data).Err? ==>
      error == Some(Validation(data).error) && db.log == old(db.log)
    ensures openError.None? && Validation(data).Ok? ==> Restored(old(db.log), db.log, db.failsAt, db.failure, data, error)
  {
    if openError.Some? {
      return openError;
    }
    var validation := ValidateBackupData(data);
    if validation.Err? {
      return Some(validation.error);
    }
    error := RestoreOrRollBack(db, data);
  }

  /**
   * How a restore of `data` that began on log `before` ends, given the run
   * of its plan: on success the whole plan is sent and there is no error; a
   * failing BEGIN is the only statement sent; any other failing statement,
   * or a `null` row whose fields cannot be read, is followed by ROLLBACK,
   * and the answer is the failure's text, the `TypeError` for a `null` row
   * (the ROLLBACK's own failure if that fails too).
   */
  ghost predicate Restored(before: seq<Statement>, after: seq<Statement>, failsAt: Option<nat>, failure: string,
                           data: Json, error: Option<string>)
  {
    var r := Run(failsAt, |before|, Plan(data));
    (r.0 == Done ==> error.None? && after == before + Plan(data)) &&
    (r.0 == Failed && |r.1| == 1 ==> error == Some(failure) && after == before + [Begin]) &&
    (r.0 == Failed && |r.1| > 1 ==> error == Some(failure) && after == before + r.1 + [Rollback]) &&
    (r.0 == Threw ==>
      after == before + r.1 + [Rollback] &&
      error == Some(if failsAt == Some(|before| + |r.1|) then failure else NullAccess))
  }

  /** The `try` around the transaction: BEGIN and the body, ROLLBACK when the body fails or throws. */
  method RestoreOrRollBack(db: Connection, data: Json) returns (error: Option<string>)
    modifies db
    ensures Restored(old(db.log), db.log, db.failsAt, db.failure, data, error)
  {
    ghost var start := db.log;
    var began, out := Restore(db, data);
    RunEnds(db.failsAt, |start|, Plan(data));
    if !began {
      return Some(db.failure);
    }
    if out == Failed {
      var _ := db.Execute(Rollback);
      return Some(db.failure);
    } else if out == Threw {
      var rolledBack := db.Execute(Rollback);
      return Some(if rolledBack then NullAccess else db.failure);
    }
    error := None;
  }

  /** Some collection holds a `null` row. */
  predicate HasNullRow(data: Json) {
    exists k :: k in ArrayKeys && JNull in Rows(data, k)
  }

  /** Some statement of `stmts` is built from a `null` row. */
  predicate SendsNull(stmts: seq<Statement>) {
    exists s :: s in stmts && ReadsNull(s)
  }

  lemma SendsNullConcat(a: seq<Statement>, b: seq<Statement>)
    ensures SendsNull(a + b) <==> SendsNull(a) || SendsNull(b)
  {
    assert forall s :: s in a + b <==> s in a || s in b;
  }

  /** The restore builds an insert from a `null` row exactly when some collection holds one. */
  lemma PlanReadsNull(data: Json)
    ensures SendsNull(Plan(data)) <==> HasNullRow(data)
  {
    var r := Inserts(Rubric, Rows(data, "rubrics"));
    var q := Inserts(Question, Rows(data, "questions"));
    var c := Inserts(Conversation, Rows(data, "conversations"));
    var e := Inserts(Evaluation, Rows(data, "evaluations"));
    var m := Inserts(Message, Rows(data, "messages"));
    InsertsReadNull(Rubric, Rows(data, "rubrics"));
    InsertsReadNull(Question, Rows(data, "questions"));
    InsertsReadNull(Conversation, Rows(data, "conversations"));
    InsertsReadNull(Evaluation, Rows(data, "evaluations"));
    InsertsReadNull(Message, Rows(data, "messages"));
    SendsNullConcat(r, q);
    SendsNullConcat(r + q, c);
    SendsNullConcat(r + q + c, e);
    SendsNullConcat(r + q + c + e, m);
    var head := [Begin] + Deletes;
    assert !SendsNull(head);
    assert !SendsNull([Commit]);
    SendsNullConcat(head, AllInserts(data));
    SendsNullConcat(head + AllInserts(data), [Commit]);
    assert HasNullRow(data) <==>
      JNull in Rows(data, "rubrics") || JNull in Rows(data, "questions") || JNull in Rows(data, "conversations") ||
      JNull in Rows(data, "evaluations") || JNull in Rows(data, "messages");
  }

  /** One table's inserts build from a `null` row exactly when its rows hold one. */
  lemma InsertsReadNull(t: Table, rows: seq<Json>)
    ensures SendsNull(Inserts(t, rows)) <==> JNull in rows
  {
    var ins := Inserts(t, rows);
    if JNull in rows {
      var i :| 0 <= i < |rows| && rows[i] == JNull;
      assert ins[i] == Insert(t, JNull) && ins[i] in ins;
    }
    forall s | s in ins && ReadsNull(s) ensures JNull in rows {
      var j :| 0 <= j < |ins| && ins[j] == s;
      assert rows[j] == JNull;
    }
  }

  /**
   * A backup with a `null` row is never committed; with no connection
   * failure its restore stops at that row, before sending its insert, and
   * without one it does not throw.
   */
  lemma NullRowNeverCommits(failsAt: Option<nat>, base: nat, data: Json)
    ensures var r := Run(failsAt, base, Plan(data));
      (HasNullRow(data) ==> r.0 != Done) &&
      (r.0 == Threw ==> HasNullRow(data)) &&
      (failsAt.None? ==> (r.0 == Threw <==> HasNullRow(data)))
  {
    PlanReadsNull(data);
    RunShape(failsAt, base, Plan(data));
    var p := Plan(data);
    var r := Run(failsAt, base, p);
    if r.0 == Threw {
      assert p[|r.1|] in p;
    }
  }

  /** A backup whose only rubric is `null`, with every other collection empty. */
  const NullRubricBackup: Json := JObj(map[
    "questions" := JArr([]), "evaluations" := JArr([]), "rubrics" := JArr([JNull]),
    "conversations" := JArr([]), "messages" := JArr([]),
    "metadata" := JObj(map["version" := JStr("1"), "created_at" := JStr("x")])])

  /** The validation looks only at the collections' being arrays, so a `null` row passes it. */
  lemma NullRubricValid()
    ensures Validation(NullRubricBackup) == Ok(()) && HasNullRow(NullRubricBackup)
  {
    var data := NullRubricBackup;
    assert "rubrics" in ArrayKeys && Rows(data, "rubrics") == [JNull];
    ValidIff(data);
  }

  /**
   * When the first rubric is `null` and no statement fails, the restore
   * sends BEGIN and the five deletes, then throws at that rubric without
   * sending its insert.
   */
  lemma NullFirstRubricThrows(base: nat, data: Json)
    requires |Rows(data, "rubrics")| > 0 && Rows(data, "rubrics")[0] == JNull
    ensures Run(None, base, Plan(data)) == (Threw, [Begin] + Deletes)
  {
    var head := [Begin] + Deletes;
    var tail := AllInserts(data) + [Commit];
    assert Plan(data) == head + tail;
    assert tail[0] == Insert(Rubric, JNull);
    RunShape(None, base, head);
    assert forall i :: 0 <= i < |head| ==> !ReadsNull(head[i]);
    RunConcat(None, base, head, tail);
    assert Run(None, base + |head|, tail) == (Threw, []);
    assert head + [] == head;
  }

  /** Where a statement belongs in a restore: BEGIN, the deletes, the inserts parents first, COMMIT. */
  function Rank(s: Statement): int {
    match s
    case Begin => 0
    case DeleteFrom(_) => 1
    case Insert(t, _) => (match t case Rubric => 2 case Question => 3 case Conversation => 4 case Evaluation => 5 case Message => 6)
    case Commit => 7
    case Rollback => 8
  }

  predicate RankSorted(s: seq<Statement>) {
    forall i, j :: 0 <= i < j < |s| ==> Rank(s[i]) <= Rank(s[j])
  }

  /** All ranks of `s` lie in `lo..hi`. */
  predicate RanksWithin(s: seq<Statement>, lo: int, hi: int) {
    forall x :: x in s ==> lo <= Rank(x) <= hi
  }

  /** Joining two rank-sorted lists, the first's ranks no higher than the second's, keeps the order. */
  lemma RankSortedJoin(a: seq<Statement>, b: seq<Statement>, la: int, ha: int, lb: int, hb: int)
    requires RankSorted(a) && RanksWithin(a, la, ha)
    requires RankSorted(b) && RanksWithin(b, lb, hb) && la <= ha <= lb <= hb
    ensures RankSorted(a + b) && RanksWithin(a + b, la, hb)
  {
    assert forall x :: x in a + b ==> x in a || x in b;
    forall i, j | 0 <= i < j < |a + b| ensures Rank((a + b)[i]) <= Rank((a + b)[j]) {
      if i < |a| {
        assert (a + b)[i] in a;
      } else {
        assert (a + b)[i] in b;
      }
      if j < |a| {
        assert (a + b)[j] in a;
      } else {
        assert (a + b)[j] in b;
      }
    }
  }

  /** The inserts of one table all share its rank. */
  lemma InsertsRank(t: Table, rows: seq<Json>)
    ensures RankSorted(Inserts(t, rows))
    ensures var r := Rank(Insert(t, JNull)); RanksWithin(Inserts(t, rows), r, r)
  {
  }

  /**
   * The order of a restore: BEGIN first, then the five deletes children
   * first (messages, conversations, evaluations, questions, rubrics), then
   * the inserts, COMMIT last.
   */
  lemma PlanShape(data: Json)
    ensures var p := Plan(data);
      p[0] == Begin && p[1..6] == Deletes && p[|p| - 1] == Commit &&
      p[6..|p| - 1] == AllInserts(data)
  {
  }

  /**
   * Every insert comes after every delete, and the parent tables' rows go
   * in before their children's: rubrics, questions, conversations,
   * evaluations, messages.
   */
  lemma PlanRankSorted(data: Json)
    ensures RankSorted(Plan(data))
  {
    var head := [Begin] + Deletes;
    var body := head + AllInserts(data);
    assert RankSorted(head) && RanksWithin(head, 0, 1) by {
      DeletesSorted();
      RankSortedJoin([Begin], Deletes, 0, 0, 1, 1);
    }
    assert RankSorted(body) && RanksWithin(body, 0, 6) by {
      AllInsertsSorted(data);
      RankSortedJoin(head, AllInserts(data), 0, 1, 2, 6);
    }
    RankSortedJoin(body, [Commit], 0, 6, 7, 7);
  }

  /** The deletes all have the same rank. */
  lemma DeletesSorted()
    ensures RankSorted(Deletes) && RanksWithin(Deletes, 1, 1)
  {
  }

  lemma AllInsertsSorted(data: Json)
    ensures RankSorted(AllInserts(data)) && RanksWithin(AllInserts(data), 2, 6)
  {
    var r := Inserts(Rubric, Rows(data, "rubrics"));
    var q := Inserts(Question, Rows(data, "questions"));
    var c := Inserts(Conversation, Rows(data, "conversations"));
    var e := Inserts(Evaluation, Rows(data, "evaluations"));
    var m := Inserts(Message, Rows(data, "messages"));
    InsertsRank(Rubric, Rows(data, "rubrics"));
    InsertsRank(Question, Rows(data, "questions"));
    InsertsRank(Conversation, Rows(data, "conversations"));
    InsertsRank(Evaluation, Rows(data, "evaluations"));
    InsertsRank(Message, Rows(data, "messages"));
    RankSortedJoin(r, q, 2, 2, 3, 3);
    RankSortedJoin(r + q, c, 2, 3, 4, 4);
    RankSortedJoin(r + q + c, e, 2, 4, 5, 5);
    RankSortedJoin(r + q + c + e, m, 2, 5, 6, 6);
  }

  /**
   * COMMIT is the plan's last statement and only that: a restore in which
   * any statement fails never commits, since the log stops at the failure.
   */
  lemma CommitOnlyLast(data: Json)
    ensures forall i :: 0 <= i < |Plan(data)| - 1 ==> Plan(data)[i] != Commit
  {
    var r := Inserts(Rubric, Rows(data, "rubrics"));
    var q := Inserts(Question, Rows(data, "questions"));
    var c := Inserts(Conversation, Rows(data, "conversations"));
    var e := Inserts(Evaluation, Rows(data, "evaluations"));
    var m := Inserts(Message, Rows(data, "messages"));
    var body := [Begin] + Deletes + (r + q + c + e + m);
    assert Plan(data) == body + [Commit];
    forall i | 0 <= i < |body| ensures body[i] != Commit {
      if i >= 6 {
        var x := (r + q + c + e + m)[i - 6];
        assert x in r || x in q || x in c || x in e || x in m;
      }
    }
  }
}
