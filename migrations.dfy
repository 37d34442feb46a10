/**
 * The database migrations the host registers (`src-tauri/src/migrations.rs`):
 * the schema, then the default rubric. The SQL files themselves are not
 * part of this model; a migration names its file.
 */
module Migrations {
  datatype Kind = Up | Down

  datatype Migration = Migration(version: int, description: string, sqlFile: string, kind: Kind)

  /** `main()`: the registered migrations, in order. */
  function All(): seq<Migration> {
    [
      Migration(1, "creates the database schema.", "./migrations/000_create_main.sql", Up),
      Migration(2, "inserts default rubric.", "./migrations/001_insert_default_rubric.sql", Up)
    ]
  }

  /** Versions number the migrations 1, 2, ... in order: unique, ascending, no gaps. */
  predicate NumberedInOrder(ms: seq<Migration>) {
    forall i :: 0 <= i < |ms| ==> ms[i].version == i + 1
  }

  /** Numbering in order makes versions unique and strictly ascending. */
  lemma NumberedAscending(ms: seq<Migration>)
    requires NumberedInOrder(ms)
    ensures forall i, j :: 0 <= i < j < |ms| ==> ms[i].version < ms[j].version
  {
  }

  /** The position of the migration that runs file `file`, if one does. */
  function IndexOf(ms: seq<Migration>, file: string): (r: int)
    ensures -1 <= r < |ms|
    ensures r >= 0 ==> ms[r].sqlFile == file
    ensures r == -1 <==> forall i :: 0 <= i < |ms| ==> ms[i].sqlFile != file
  {
    if ms == [] then -1
    else if ms[0].sqlFile == file then 0
    else
      var k := IndexOf(ms[1..], file);
      if k == -1 then -1 else k + 1
  }

  /**
   * Two migrations, numbered 1 and 2, both upgrades, and the schema is
   * created before the default rubric is inserted.
   */
  lemma RegisteredMigrations()
    ensures |All()| == 2 && NumberedInOrder(All())
    ensures forall m :: m in All() ==> m.kind == Up
    ensures 0 <= IndexOf(All(), "./migrations/000_create_main.sql") <
            IndexOf(All(), "./migrations/001_insert_default_rubric.sql")
  {
  }
}
