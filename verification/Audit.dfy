/** Audited writes: every committed change of a plain table has its trail row, and the trail replays to the data. */
module Audit {
  import opened Common
  import opened Storage
  import opened Database

  // Replaying the trail.

  /** Remove the before row, which must be there, then add the after row, whose key must be free. */
  function ReplayOne(tables: map<Token, Table>, a: AuditRow): Option<map<Token, Table>> {
    var table := TableOf(tables, a.token);
    if a.before.Some? && !(a.before.value.recid in table && table[a.before.value.recid] == a.before.value) then None
    else
      var removed := if a.before.Some? then table - {a.before.value.recid} else table;
      if a.after.None? then Some(tables[a.token := removed])
      else if a.after.value.recid in removed then None
      else Some(tables[a.token := removed[a.after.value.recid := a.after.value]])
  }

  function Replay(tables: map<Token, Table>, trail: seq<AuditRow>): Option<map<Token, Table>>
    decreases |trail|
  {
    if trail == [] then Some(tables)
    else
      var first := ReplayOne(tables, trail[0]);
      if first.None? then None else Replay(first.value, trail[1..])
  }

  /** Replaying everything the trail gained since `init` gives exactly the current rows. */
  ghost predicate Replays(init: Store, s: Store) {
    init.trail <= s.trail && Replay(init.tables, s.trail[|init.trail|..]) == Some(s.tables)
  }

  /** A committed unit of work: nothing at all, or a change of the rows together with trail rows that account for it. */
  ghost predicate AuditStep(s: Store, s': Store) {
    s' == s || exists rows :: AccountedBy(s, s', rows)
  }

  ghost predicate AccountedBy(s: Store, s': Store, rows: seq<AuditRow>) {
    rows != [] && s'.trail == s.trail + rows && Replay(s.tables, rows) == Some(s'.tables) && s'.tables != s.tables
  }

  lemma {:induction false} ReplayConcat(tables: map<Token, Table>, a: seq<AuditRow>, b: seq<AuditRow>)
    ensures Replay(tables, a + b) == var mid := Replay(tables, a); if mid.None? then None else Replay(mid.value, b)
    decreases |a|
  {
    if a == [] {
      assert a + b == b;
    } else {
      assert (a + b)[1..] == a[1..] + b;
      var first := ReplayOne(tables, a[0]);
      if first.Some? {
        ReplayConcat(first.value, a[1..], b);
      }
    }
  }

  lemma StepReplays(init: Store, s: Store, s': Store)
    requires Replays(init, s) && AuditStep(s, s')
    ensures Replays(init, s')
  {
    if s' != s {
      var rows :| AccountedBy(s, s', rows);
      var n := |init.trail|;
      assert s'.trail[n..] == s.trail[n..] + rows;
      ReplayConcat(init.tables, s.trail[n..], rows);
    }
  }

  /** Audit replay over whole runs: whatever units of work commit, in any number, the trail replays to the data. */
  lemma {:induction false} RunReplays(run: seq<Store>, i: nat)
    requires i < |run| && forall k :: 0 <= k < |run| - 1 ==> AuditStep(run[k], run[k + 1])
    ensures Replays(run[0], run[i])
  {
    if i == 0 {
      assert run[0].trail[|run[0].trail|..] == [];
    } else {
      RunReplays(run, i - 1);
      StepReplays(run[0], run[i - 1], run[i]);
    }
  }

  // One write and its trail row.

  /** The posted record: its recid, if posted as an integer, and its other columns, if all of them were posted. */
  datatype Fields = Fields(recid: Option<int>, cells: Option<seq<string>>)

  /** The write of `Table.save`; None when a column is missing. The key column is writable in types only. */
  function SaveStatement(t: Token, saveRecid: int, fields: Fields): Option<Statement> {
    if fields.cells.None? || (t.Types? && fields.recid.None?) then None
    else if saveRecid != 0 then
      Some(Update(t, saveRecid, if t.Types? then fields.recid.value else saveRecid, fields.cells.value))
    else Some(Insert(t, if t.Types? then fields.recid else None, fields.cells.value))
  }

  /** What a write that affected a row did: replaced `before`, if any, by `written`. */
  ghost predicate Wrote(s: Store, s': Store, t: Token, before: Option<Row>, written: Row) {
    var table := TableOf(s.tables, t);
    && (before.Some? ==> before.value.recid in table && table[before.value.recid] == before.value)
    && before != Some(written)
    && var removed := if before.Some? then table - {before.value.recid} else table;
       written.recid !in removed && s' == WithTable(s, t, removed[written.recid := written])
  }

  lemma WriteChangesRows(s: Store, s': Store, t: Token, before: Option<Row>, written: Row)
    requires Keyed(s.tables) && Wrote(s, s', t, before, written)
    ensures s'.tables != s.tables
    ensures written.recid in TableOf(s'.tables, t) && TableOf(s'.tables, t)[written.recid] == written
  {
    var table, table' := TableOf(s.tables, t), TableOf(s'.tables, t);
    assert written.recid in table' && table'[written.recid] == written;
    assert written.recid in table ==> table[written.recid] != written;
  }

  /** A save's trail row replays to the new rows exactly when it carries the row the write stored. */
  lemma SaveRowReplays(s: Store, s': Store, t: Token, before: Option<Row>, written: Row, recordId: int, after: Row)
    requires Keyed(s.tables) && Wrote(s, s', t, before, written)
    requires after.recid in TableOf(s'.tables, t) && TableOf(s'.tables, t)[after.recid] == after
    ensures Replay(s.tables, [AuditRow(t, recordId, before, Some(after))]) == Some(s'.tables) <==> after == written
  {
    var a := AuditRow(t, recordId, before, Some(after));
    assert [a][1..] == [];
    var table := TableOf(s.tables, t);
    var removed := if before.Some? then table - {before.value.recid} else table;
    if after != written {
      assert after.recid != written.recid && after.recid in removed;
    }
  }

  const ONE_TYPE: Table := map[5 := Row(5, ["MX"])]

  function TablesWith(types: Table): map<Token, Table> {
    map[Domains := map[], Monitors := map[], Routings := map[], Views := map[], AuditLog := map[], StatusView := map[],
        Unregistered := map[], Types := types]
  }

  /**
   The key 0 is no key to read back by: after inserting a type with value 0 next to another type, the read-back may
   answer the other row first, and a trail row carrying that one does not replay to the data.
   */
  lemma KeyZeroMayMisrecord(coerce: Coercion, cells: seq<string>)
    ensures var s, zero := Store(TablesWith(ONE_TYPE), []), Row(0, coerce(cells));
            var s' := WithTable(s, Types, ONE_TYPE[0 := zero]);
            && Keyed(s.tables)
            && Executes(coerce, s, Insert(Types, Some(0), cells), s', Reply([], 1, 0))
            && Lists([ONE_TYPE[5], zero], TableOf(s'.tables, Types), TableOf(s'.tables, Types).Keys)
            && Replay(s.tables, [AuditRow(Types, 0, None, Some(ONE_TYPE[5]))]) != Some(s'.tables)
  {
    var s, zero := Store(TablesWith(ONE_TYPE), []), Row(0, coerce(cells));
    forall t: Token
      ensures t in s.tables
    {
      match t {
        case Domains =>
        case Monitors =>
        case Routings =>
        case Views =>
        case Types =>
        case AuditLog =>
        case StatusView =>
        case Unregistered =>
      }
    }
    assert TableOf(s.tables, Types) == ONE_TYPE;
    assert 0 !in ONE_TYPE;
    forall r
      ensures r in [ONE_TYPE[5], zero] <==> r == ONE_TYPE[5] || r == zero
    {
    }
  }

  lemma {:induction false} Listing(table: Table, keys: set<int>) returns (rows: seq<Row>)
    requires forall k :: k in table ==> table[k].recid == k
    ensures Lists(rows, table, keys)
  {
    if k :| k in keys {
      var rest := Listing(table, keys - {k});
      rows := if k in table then [table[k]] + rest else rest;
    } else {
      rows := [];
    }
  }

  /** Any row may come first when the whole table is read. */
  lemma AnyRowMayComeFirst(table: Table, k: int) returns (rows: seq<Row>)
    requires (forall j :: j in table ==> table[j].recid == j) && k in table
    ensures Lists(rows, table, table.Keys) && rows != [] && rows[0] == table[k]
  {
    var rest := Listing(table, table.Keys - {k});
    rows := [table[k]] + rest;
  }

  /** The row `save_data` reads before it writes. */
  function BeforeOf(table: Table, saveRecid: int): Option<Row> {
    if saveRecid != 0 && saveRecid in table then Some(table[saveRecid]) else None
  }

  /** The table holds no row but, possibly, the one under `key`. */
  predicate NoRowBut(table: Table, key: int) {
    forall k :: k in table ==> k == key
  }

  /** Whatever row the read-back of key 0 answers first, the trail row that carries it replays. */
  ghost predicate ReplaysUnderAnyReadBack(s: Store, s': Store, before: Option<Row>) {
    forall rows :: Lists(rows, TableOf(s'.tables, Types), TableOf(s'.tables, Types).Keys) && rows != [] ==>
      Replay(s.tables, [AuditRow(Types, 0, before, Some(rows[0]))]) == Some(s'.tables)
  }

  /**
   Writing a type under key 0 leaves a trail row that replays under every read-back exactly when the table held no row
   before the write except, possibly, the one being updated.
   */
  lemma KeyZeroReplaysExactly(s: Store, s': Store, saveRecid: int, written: Row)
    requires Keyed(s.tables) && written.recid == 0
    requires Wrote(s, s', Types, BeforeOf(TableOf(s.tables, Types), saveRecid), written)
    ensures ReplaysUnderAnyReadBack(s, s', BeforeOf(TableOf(s.tables, Types), saveRecid))
            <==> NoRowBut(TableOf(s.tables, Types), saveRecid)
  {
    var table, table' := TableOf(s.tables, Types), TableOf(s'.tables, Types);
    var before := BeforeOf(table, saveRecid);
    if NoRowBut(table, saveRecid) {
      forall rows | Lists(rows, table', table'.Keys) && rows != []
        ensures Replay(s.tables, [AuditRow(Types, 0, before, Some(rows[0]))]) == Some(s'.tables)
      {
        assert rows[0] in rows;
        SaveRowReplays(s, s', Types, before, written, 0, rows[0]);
      }
    } else {
      var k :| k in table && k != saveRecid;
      assert k in table' && k != 0 && table'[k] == table[k];
      var rows := AnyRowMayComeFirst(table', k);
      SaveRowReplays(s, s', Types, before, written, 0, rows[0]);
    }
  }

  /** The deletion rows of `rows`, in order. */
  function Deletions(t: Token, rows: seq<Row>): (d: seq<AuditRow>)
    ensures |d| == |rows|
    ensures forall i :: 0 <= i < |d| ==> d[i] == AuditRow(t, rows[i].recid, Some(rows[i]), None)
  {
    seq(|rows|, i requires 0 <= i < |rows| => AuditRow(t, rows[i].recid, Some(rows[i]), None))
  }

  function Keys(rows: seq<Row>): set<int> {
    set i | 0 <= i < |rows| :: rows[i].recid
  }

  lemma {:induction false} DeletionsReplay(tables: map<Token, Table>, t: Token, rows: seq<Row>)
    requires t in tables && Distinct(rows)
    requires forall r :: r in rows ==> r.recid in tables[t] && tables[t][r.recid] == r
    ensures Replay(tables, Deletions(t, rows)) == Some(tables[t := tables[t] - Keys(rows)])
    decreases |rows|
  {
    if rows == [] {
      assert tables[t] - Keys(rows) == tables[t];
      assert tables[t := tables[t]] == tables;
    } else {
      var first := rows[0];
      assert first in rows;
      var next := tables[t := tables[t] - {first.recid}];
      forall r | r in rows[1..]
        ensures r.recid in next[t] && next[t][r.recid] == r
      {
        assert r in rows && r != first;
      }
      DeletionsReplay(next, t, rows[1..]);
      assert Deletions(t, rows)[1..] == Deletions(t, rows[1..]);
      KeysUnfold(rows);
      assert tables[t] - Keys(rows) == next[t] - Keys(rows[1..]);
      assert tables[t := tables[t] - Keys(rows)] == next[t := next[t] - Keys(rows[1..])];
    }
  }

  lemma KeysUnfold(rows: seq<Row>)
    requires rows != []
    ensures Keys(rows) == {rows[0].recid} + Keys(rows[1..])
  {
    forall k
      ensures k in Keys(rows) <==> k == rows[0].recid || k in Keys(rows[1..])
    {
      if k in Keys(rows) && k != rows[0].recid {
        var i :| 0 <= i < |rows| && rows[i].recid == k;
        assert rows[1..][i - 1].recid == k;
      }
      if k in Keys(rows[1..]) {
        var i :| 0 <= i < |rows[1..]| && rows[1..][i].recid == k;
        assert rows[i + 1].recid == k;
      }
    }
  }

  // The write methods.

  /** Where an exit that is no `Exception`, such as an interrupt, may hit the block of a write. */
  datatype Point = AtStart | BeforeWrite | BeforeReadBack | BeforeTrail | AtEnd

  /** The rows are written by then and the trail is not. */
  predicate BetweenWriteAndTrail(interrupt: Option<Point>) {
    interrupt == Some(BeforeReadBack) || interrupt == Some(BeforeTrail)
  }

  /** The block is running on a live session with autocommit off. */
  ghost predicate InBlock(db: MySQLDatabase)
    reads db
  {
    db.Valid() && db.inTransaction
  }

  /** What every statement of a block keeps. */
  twostate predicate SameBlock(db: MySQLDatabase)
    reads db
  {
    InBlock(db) && db.durable == old(db.durable) && db.connection.sid == old(db.connection.sid)
    && db.reconnects == old(db.reconnects)
  }

  /** The session lives and nothing will fail. */
  ghost predicate Sound(db: MySQLDatabase)
    reads db
  {
    db.connection.alive && db.Quiet()
  }

  /** One statement of the block. */
  method RunInBlock(db: MySQLDatabase, stmt: Statement) returns (r: Option<Reply>)
    requires InBlock(db)
    modifies db
    ensures SameBlock(db) && (r.Some? ==> db.connection.alive)
    ensures old(Sound(db)) && !Violates(db.coerce, old(db.View()), stmt) ==> r.Some?
    ensures r.Some? ==>
              Executes(db.coerce, old(db.View()), stmt, db.View(), r.value) && db.lastInsertId == r.value.insertId
  {
    r := db.Run(stmt);
  }

  /** `AUDIT.record` for rows to insert. */
  method AppendTrail(db: MySQLDatabase, rows: seq<AuditRow>) returns (ok: bool)
    requires InBlock(db)
    modifies db
    ensures SameBlock(db) && (ok ==> db.connection.alive) && (old(Sound(db)) ==> ok)
    ensures ok ==> db.View() == old(db.View()).(trail := old(db.View()).trail + rows)
  {
    var r := RunInBlock(db, InsertTrail(rows));
    ok := r.Some?;
  }

  /** The rows whose key is in `keys`, or every row. */
  method ReadRows(db: MySQLDatabase, t: Token, keys: Option<set<int>>) returns (rows: Option<seq<Row>>)
    requires InBlock(db)
    modifies db
    ensures SameBlock(db) && (rows.Some? ==> db.connection.alive) && (old(Sound(db)) ==> rows.Some?)
    ensures rows.Some? ==>
              var table := TableOf(db.View().tables, t);
              db.View() == old(db.View()) && Lists(rows.value, table, if keys.Some? then keys.value else table.Keys)
  {
    var r := RunInBlock(db, if keys.Some? then SelectIn(t, keys.value) else SelectAll(t));
    rows := if r.Some? then Some(r.value.rows) else None;
  }

  lemma ListedRow(rows: seq<Row>, table: Table, keys: set<int>, k: int)
    requires Lists(rows, table, keys) && forall j :: j in table ==> table[j].recid == j
    ensures k in keys && k in table ==> table[k] in rows
  {
  }

  /** `_read_row`: None for an error, otherwise the first row, if any. A key of 0 reads every row. */
  method ReadRow(db: MySQLDatabase, t: Token, recid: int) returns (r: Option<Option<Row>>)
    requires InBlock(db)
    modifies db
    ensures SameBlock(db) && (r.Some? ==> db.View() == old(db.View()))
    ensures (r.Some? ==> db.connection.alive) && (old(Sound(db)) ==> r.Some?)
    ensures r == Some(None) && recid == 0 ==> forall k :: k !in TableOf(db.View().tables, t)
    ensures r.Some? && recid != 0 ==>
              var table := TableOf(db.View().tables, t);
              r.value == if recid in table then Some(table[recid]) else None
    ensures r.Some? && r.value.Some? ==>
              var row, table := r.value.value, TableOf(db.View().tables, t);
              row.recid in table && table[row.recid] == row
  {
    var rows := ReadRows(db, t, if recid == 0 then None else Some({recid}));
    if rows.None? {
      return None;
    }
    ghost var table := TableOf(db.View().tables, t);
    ListedRow(rows.value, table, if recid == 0 then table.Keys else {recid}, recid);
    if rows.value == [] {
      forall k
        ensures recid == 0 ==> k !in table
      {
        ListedRow(rows.value, table, if recid == 0 then table.Keys else {recid}, k);
      }
      return Some(None);
    }
    assert rows.value[0] in rows.value;
    return Some(Some(rows.value[0]));
  }

  /** `key` is a key that saving `fields` may write: the posted, the targeted or a generated one. */
  predicate KeyIs(t: Token, saveRecid: int, fields: Fields, key: int) {
    if t.Types? then fields.recid == Some(key) else if saveRecid != 0 then key == saveRecid else key > 0
  }

  lemma SaveWrites(coerce: Coercion, s: Store, stmt: Statement, s': Store, r: Reply, t: Token, saveRecid: int,
                   fields: Fields, before: Option<Row>)
    requires Keyed(s.tables) && SaveStatement(t, saveRecid, fields) == Some(stmt) && Executes(coerce, s, stmt, s', r)
    requires before == BeforeOf(TableOf(s.tables, t), saveRecid)
    ensures r.affected == 0 ==> s' == s
    ensures r.affected > 0 ==>
              var key := if t.Types? then fields.recid.value else if saveRecid != 0 then saveRecid else r.insertId;
              KeyIs(t, saveRecid, fields, key) && Wrote(s, s', t, before, Row(key, coerce(fields.cells.value)))
  {
    var table := TableOf(s.tables, t);
    if saveRecid == 0 {
      var k :| k !in table
        && (if stmt.key.Some? then k == stmt.key.value && r.insertId == 0 else k > 0 && r.insertId == k)
        && s' == WithTable(s, t, table[k := Row(k, coerce(stmt.cells))]) && r.affected == 1;
    }
  }

  /** All columns are posted; for types that includes the key. */
  predicate Complete(t: Token, fields: Fields) {
    fields.cells.Some? && (t.Types? ==> fields.recid.Some?)
  }

  /** The key that is written is not another row's: only types has a writable key. */
  predicate KeyFree(s: Store, t: Token, saveRecid: int, fields: Fields)
    requires Complete(t, fields)
  {
    t.Types? ==>
      var (key, table) := (fields.recid.value, TableOf(s.tables, t));
      if saveRecid == 0 then key !in table else saveRecid in table && key != saveRecid ==> key !in table
  }

  /** How many rows a save changes: one for an insert or a changed row, none for a missing or identical one. */
  function SaveCount(coerce: Coercion, s: Store, t: Token, saveRecid: int, fields: Fields): nat
    requires Complete(t, fields)
  {
    var table := TableOf(s.tables, t);
    var key := if t.Types? then fields.recid.value else saveRecid;
    if saveRecid == 0 then 1
    else if saveRecid !in table || table[saveRecid] == Row(key, coerce(fields.cells.value)) then 0
    else 1
  }

  lemma SaveFits(coerce: Coercion, s: Store, t: Token, saveRecid: int, fields: Fields)
    requires Keyed(s.tables)
    ensures SaveStatement(t, saveRecid, fields).Some? <==> Complete(t, fields)
    ensures Complete(t, fields) ==>
              (KeyFree(s, t, saveRecid, fields) <==>
               !Violates(coerce, s, SaveStatement(t, saveRecid, fields).value))
  {
  }

  lemma SaveCounts(coerce: Coercion, s: Store, s': Store, r: Reply, t: Token, saveRecid: int, fields: Fields)
    requires Complete(t, fields) && Executes(coerce, s, SaveStatement(t, saveRecid, fields).value, s', r)
    ensures r.affected == SaveCount(coerce, s, t, saveRecid, fields)
    ensures !Violates(coerce, s, SaveStatement(t, saveRecid, fields).value)
  {
  }

  /** The key of the row a write of `t` touched; None when an insert generated no key. */
  function WrittenRecid(t: Token, saveRecid: int, fields: Fields, lastInsertId: int): Option<int> {
    if t.Types? then fields.recid
    else if saveRecid != 0 then Some(saveRecid)
    else if lastInsertId != 0 then Some(lastInsertId)
    else None
  }

  /** The write of `save_data`: the rows change as `Wrote` says, or not at all. */
  method WriteRow(db: MySQLDatabase, t: Token, saveRecid: int, fields: Fields, before: Option<Row>)
      returns (affected: Option<nat>)
    requires InBlock(db)
    requires before == BeforeOf(TableOf(db.View().tables, t), saveRecid)
    modifies db
    ensures SameBlock(db) && (affected.Some? ==> db.connection.alive)
    ensures affected.Some? ==>
              && Complete(t, fields) && KeyFree(old(db.View()), t, saveRecid, fields)
              && affected.value == SaveCount(db.coerce, old(db.View()), t, saveRecid, fields)
    ensures old(Sound(db)) && Complete(t, fields) && KeyFree(old(db.View()), t, saveRecid, fields) ==> affected.Some?
    ensures affected == Some(0) ==> db.View() == old(db.View())
    ensures affected.Some? && affected.value > 0 ==>
              var key := WrittenRecid(t, saveRecid, fields, db.lastInsertId);
              key.Some? && fields.cells.Some?
              && KeyIs(t, saveRecid, fields, key.value)
              && Wrote(old(db.View()), db.View(), t, before, Row(key.value, db.coerce(fields.cells.value)))
  {
    var stmt := SaveStatement(t, saveRecid, fields);
    SaveFits(db.coerce, db.View(), t, saveRecid, fields);
    if stmt.None? {
      return None;
    }
    var reply := RunInBlock(db, stmt.value);
    if reply.None? {
      return None;
    }
    SaveCounts(db.coerce, old(db.View()), db.View(), reply.value, t, saveRecid, fields);
    SaveWrites(db.coerce, old(db.View()), stmt.value, db.View(), reply.value, t, saveRecid, fields, before);
    affected := Some(reply.value.affected);
  }

  /**
   What a save that affected a row leaves: the posted row stands under `key` in place of the before row, and the trail
   gained one row with `key`, the before row and `after`, the row read back. That is the posted row, except that under
   key 0 with other rows around it may be any.
   */
  ghost predicate SavedAs(coerce: Coercion, s: Store, s': Store, t: Token, saveRecid: int, fields: Fields, key: int,
                          after: Row) {
    && fields.cells.Some? && KeyIs(t, saveRecid, fields, key)
    && var before, written := BeforeOf(TableOf(s.tables, t), saveRecid), Row(key, coerce(fields.cells.value));
       && Wrote(s, s'.(trail := s.trail), t, before, written)
       && s'.trail == s.trail + [AuditRow(t, key, before, Some(after))]
       && ReadBack(s', t, written, after)
  }

  ghost predicate Saved(coerce: Coercion, s: Store, s': Store, t: Token, saveRecid: int, fields: Fields) {
    exists key, after :: SavedAs(coerce, s, s', t, saveRecid, fields, key, after)
  }

  /** A caller's check: the key is not 0, or the types table holds no row but the one being updated. */
  predicate SafeKey(s: Store, t: Token, saveRecid: int, fields: Fields) {
    t.Types? && fields.recid == Some(0) ==> NoRowBut(TableOf(s.tables, t), saveRecid)
  }

  /** Under a safe key the trail row carries the posted row, and so accounts for the change. */
  lemma SavedIsAccounted(coerce: Coercion, s: Store, s': Store, t: Token, saveRecid: int, fields: Fields)
    requires Keyed(s.tables) && Saved(coerce, s, s', t, saveRecid, fields) && SafeKey(s, t, saveRecid, fields)
    ensures AuditStep(s, s')
    ensures fields.cells.Some?
    ensures exists key :: SavedAs(coerce, s, s', t, saveRecid, fields, key, Row(key, coerce(fields.cells.value)))
  {
    var key, after :| SavedAs(coerce, s, s', t, saveRecid, fields, key, after);
    var before, written := BeforeOf(TableOf(s.tables, t), saveRecid), Row(key, coerce(fields.cells.value));
    var mid := s'.(trail := s.trail);
    assert key == 0 ==> NoRowBut(TableOf(s'.tables, t), 0);
    assert after == written;
    WriteChangesRows(s, mid, t, before, written);
    SaveRowReplays(s, mid, t, before, written, key, written);
    assert AccountedBy(s, s', [AuditRow(t, key, before, Some(written))]);
  }

  /** What a save leaves that is cut off between its write and its trail: the posted row stands, and no trail row. */
  ghost predicate SavedUnaudited(coerce: Coercion, s: Store, s': Store, t: Token, saveRecid: int, fields: Fields) {
    exists key :: WroteKey(coerce, s, s', t, saveRecid, fields, key)
  }

  ghost predicate WroteKey(coerce: Coercion, s: Store, s': Store, t: Token, saveRecid: int, fields: Fields, key: int) {
    && fields.cells.Some? && KeyIs(t, saveRecid, fields, key)
    && Wrote(s, s', t, BeforeOf(TableOf(s.tables, t), saveRecid), Row(key, coerce(fields.cells.value)))
  }

  /** `after` is what the read-back of `written` may answer. */
  ghost predicate ReadBack(s: Store, t: Token, written: Row, after: Row) {
    after == written || (written.recid == 0 && !NoRowBut(TableOf(s.tables, t), 0))
  }

  /** The rest of `save_data`: read the row back and record both states. */
  method RecordSave(db: MySQLDatabase, t: Token, recid: int, before: Option<Row>, interrupt: Option<Point>,
                    ghost s: Store, ghost written: Row) returns (exit: Exit)
    requires InBlock(db) && Keyed(s.tables) && written.recid == recid && Wrote(s, db.View(), t, before, written)
    modifies db
    ensures SameBlock(db) && (exit.Returned? ==> db.connection.alive)
    ensures old(Sound(db)) && interrupt.None? ==> exit.Returned?
    ensures exit.Escaped? ==> interrupt.Some? && (interrupt == Some(AtEnd) || BetweenWriteAndTrail(interrupt))
    ensures exit.Escaped? && BetweenWriteAndTrail(interrupt) ==> db.View() == old(db.View())
    ensures exit.Returned? || (exit.Escaped? && interrupt == Some(AtEnd)) ==>
              && db.View().tables == old(db.View().tables)
              && exists after :: ReadBack(db.View(), t, written, after)
                   && db.View().trail == s.trail + [AuditRow(t, recid, before, Some(after))]
  {
    ghost var s' := db.View();
    WriteChangesRows(s, s', t, before, written);
    if interrupt == Some(BeforeReadBack) {
      return Escaped;
    }
    var after := ReadRow(db, t, recid);
    if after.None? || after.value.None? {
      return Raised;
    }
    if interrupt == Some(BeforeTrail) {
      return Escaped;
    }
    assert ReadBack(db.View(), t, written, after.value.value);
    var ok := AppendTrail(db, [AuditRow(t, recid, before, after.value)]);
    exit := if !ok then Raised else if interrupt == Some(AtEnd) then Escaped else Returned;
  }

  /** The posted record is complete and its key is free. */
  predicate SaveAccepted(s: Store, t: Token, saveRecid: int, fields: Fields) {
    Complete(t, fields) && KeyFree(s, t, saveRecid, fields)
  }

  /** The body of `save_data` inside its transaction. */
  method SaveBlock(db: MySQLDatabase, t: Token, saveRecid: int, fields: Fields, interrupt: Option<Point>)
      returns (exit: Exit, affected: nat)
    requires InBlock(db)
    modifies db
    ensures SameBlock(db) && (exit.Returned? ==> db.connection.alive)
    ensures exit.Returned? ==> IsPlain(t) && SaveAccepted(old(db.View()), t, saveRecid, fields)
                               && affected == SaveCount(db.coerce, old(db.View()), t, saveRecid, fields)
    ensures old(Sound(db)) && interrupt.None? && IsPlain(t) && SaveAccepted(old(db.View()), t, saveRecid, fields) ==>
              exit.Returned?
    ensures !IsPlain(t) && exit.Escaped? ==> db.View() == old(db.View())
    ensures exit.Returned? && affected == 0 ==> db.View() == old(db.View())
    ensures exit.Returned? && affected > 0 ==> Saved(db.coerce, old(db.View()), db.View(), t, saveRecid, fields)
    ensures exit.Escaped? ==>
              || db.View() == old(db.View())
              || (interrupt == Some(AtEnd) && Saved(db.coerce, old(db.View()), db.View(), t, saveRecid, fields))
              || (BetweenWriteAndTrail(interrupt)
                  && SavedUnaudited(db.coerce, old(db.View()), db.View(), t, saveRecid, fields))
  {
    ghost var s := db.View();
    assert Keyed(s.tables);
    if interrupt == Some(AtStart) {
      return Escaped, 0;
    }
    var before: Option<Row> := None;
    if saveRecid != 0 {
      var read := ReadRow(db, t, saveRecid);
      if read.None? {
        return Raised, 0;
      }
      before := read.value;
    }
    if !IsPlain(t) {
      return Raised, 0;
    }
    if interrupt == Some(BeforeWrite) {
      return Escaped, 0;
    }
    var wrote := WriteRow(db, t, saveRecid, fields, before);
    if wrote.None? {
      return Raised, 0;
    }
    if wrote.value == 0 {
      exit := if interrupt == Some(AtEnd) then Escaped else Returned;
      return exit, 0;
    }
    var recid := WrittenRecid(t, saveRecid, fields, db.lastInsertId);
    ghost var mid := db.View();
    ghost var written := Row(recid.value, db.coerce(fields.cells.value));
    exit := RecordSave(db, t, recid.value, before, interrupt, s, written);
    affected := wrote.value;
    assert WroteKey(db.coerce, s, mid, t, saveRecid, fields, recid.value);
    if exit.Returned? || (exit.Escaped? && interrupt == Some(AtEnd)) {
      ghost var after :| ReadBack(db.View(), t, written, after)
        && db.View().trail == s.trail + [AuditRow(t, recid.value, before, Some(after))];
      assert db.View().(trail := s.trail) == mid;
      assert SavedAs(db.coerce, s, db.View(), t, saveRecid, fields, recid.value, after);
    }
  }

  /** `DELETE ... WHERE key IN (...)` of rows that are there. */
  method RemoveRows(db: MySQLDatabase, t: Token, keys: set<int>) returns (affected: Option<nat>)
    requires InBlock(db) && keys <= TableOf(db.View().tables, t).Keys
    modifies db
    ensures SameBlock(db) && (affected.Some? ==> db.connection.alive) && (old(Sound(db)) ==> affected.Some?)
    ensures affected.Some? ==>
              affected.value == |keys|
              && db.View() == WithTable(old(db.View()), t, TableOf(old(db.View()).tables, t) - keys)
  {
    ghost var table := TableOf(db.View().tables, t);
    assert keys * table.Keys == keys;
    var gone := RunInBlock(db, DeleteIn(t, keys));
    affected := if gone.Some? then Some(gone.value.affected) else None;
  }

  /** What a delete that removed `count` rows leaves: they are gone, and the trail gained their deletion rows. */
  ghost predicate Removed(s: Store, s': Store, t: Token, keys: set<int>, count: nat) {
    var table := TableOf(s.tables, t);
    && count == |keys * table.Keys|
    && exists records :: Lists(records, table, keys)
         && s' == WithTable(s, t, table - keys).(trail := s.trail + Deletions(t, records))
  }

  /** What a delete leaves that is cut off between its write and its trail: rows are gone, and no trail row is there. */
  ghost predicate RemovedUnaudited(s: Store, s': Store, t: Token, keys: set<int>) {
    var table := TableOf(s.tables, t);
    keys * table.Keys != {} && s' == WithTable(s, t, table - keys)
  }

  lemma RemovedIsAccounted(s: Store, s': Store, t: Token, keys: set<int>, count: nat)
    requires Keyed(s.tables) && Removed(s, s', t, keys, count) && count > 0
    ensures AuditStep(s, s')
  {
    var table := TableOf(s.tables, t);
    var records :| Lists(records, table, keys)
      && s' == WithTable(s, t, table - keys).(trail := s.trail + Deletions(t, records));
    ListedKeys(records, table, keys);
    assert table - keys == table - Keys(records);
    DeletionsReplay(s.tables, t, records);
    var k :| k in keys * table.Keys;
    assert k in table && k !in table - keys;
    assert table[k] in records;
    assert AccountedBy(s, s', Deletions(t, records));
  }

  /** The body of `delete_data` inside its transaction; `ids` is None when the ids do not convert, matching nothing. */
  method DeleteBlock(db: MySQLDatabase, t: Token, ids: Option<set<int>>, interrupt: Option<Point>)
      returns (exit: Exit, deleted: nat)
    requires InBlock(db)
    modifies db
    ensures SameBlock(db) && (exit.Returned? ==> db.connection.alive && IsPlain(t))
    ensures old(Sound(db)) && interrupt.None? && IsPlain(t) ==> exit.Returned?
    ensures !IsPlain(t) && exit.Escaped? ==> db.View() == old(db.View())
    ensures exit.Returned? && deleted == 0 ==> db.View() == old(db.View())
    ensures exit.Returned? ==>
              deleted == |Wanted(ids) * TableOf(old(db.View()).tables, t).Keys|
              && (deleted > 0 ==> Removed(old(db.View()), db.View(), t, Wanted(ids), deleted))
    ensures exit.Escaped? ==>
              || db.View() == old(db.View())
              || (interrupt == Some(AtEnd) && deleted > 0
                  && Removed(old(db.View()), db.View(), t, Wanted(ids), deleted))
              || (BetweenWriteAndTrail(interrupt) && RemovedUnaudited(old(db.View()), db.View(), t, Wanted(ids)))
  {
    ghost var s := db.View();
    assert Keyed(s.tables);
    ghost var table := TableOf(s.tables, t);
    if interrupt == Some(AtStart) {
      return Escaped, 0;
    }
    var found := ReadRows(db, t, Some(Wanted(ids)));
    if found.None? || !IsPlain(t) {
      return Raised, 0;
    }
    var records := found.value;
    ListedKeys(records, table, Wanted(ids));
    if interrupt == Some(BeforeWrite) {
      return Escaped, 0;
    }
    if records == [] {
      exit := if interrupt == Some(AtEnd) then Escaped else Returned;
      return exit, 0;
    }
    var gone := RemoveRows(db, t, Keys(records));
    if gone.None? {
      return Raised, 0;
    }
    deleted := gone.value;
    assert records[0].recid in Keys(records);
    assert table - Wanted(ids) == table - Keys(records);
    if BetweenWriteAndTrail(interrupt) {
      return Escaped, deleted;
    }
    var ok := AppendTrail(db, Deletions(t, records));
    exit := if !ok then Raised else if interrupt == Some(AtEnd) then Escaped else Returned;
  }

  function Wanted(ids: Option<set<int>>): set<int> {
    if ids.Some? then ids.value else {}
  }

  lemma ListedKeys(rows: seq<Row>, table: Table, keys: set<int>)
    requires Lists(rows, table, keys) && forall k :: k in table ==> table[k].recid == k
    ensures Keys(rows) == keys * table.Keys
  {
    forall k
      ensures k in Keys(rows) <==> k in keys && k in table
    {
      if k in keys && k in table {
        assert table[k] in rows;
        var i :| 0 <= i < |rows| && rows[i] == table[k];
      }
      if k in Keys(rows) {
        var i :| 0 <= i < |rows| && rows[i].recid == k;
        assert rows[i] in rows;
      }
    }
  }

  datatype Operation =
    | Save(token: Token, saveRecid: int, fields: Fields)
    | Delete(token: Token, ids: Option<set<int>>)
  {
    /** For a save, the caller's check on the key. */
    predicate Safe(s: Store) {
      Save? ==> SafeKey(s, token, saveRecid, fields)
    }

    /** The token names one of the five plain tables, and a save is complete and writes a free key. */
    predicate Accepted(s: Store) {
      token in {Domains, Monitors, Routings, Views, Types} && (Save? ==> SaveAccepted(s, token, saveRecid, fields))
    }

    /** The rows it changes: for a delete all that match. */
    function Count(coerce: Coercion, s: Store): nat
      requires Accepted(s)
    {
      if Save? then SaveCount(coerce, s, token, saveRecid, fields) else |Wanted(ids) * TableOf(s.tables, token).Keys|
    }

    /** What the operation leaves when it reports `count`. */
    ghost predicate Effect(coerce: Coercion, s: Store, s': Store, count: nat) {
      if count == 0 then s' == s
      else if Save? then Saved(coerce, s, s', token, saveRecid, fields)
      else Removed(s, s', token, Wanted(ids), count)
    }

    /** The operation changed the rows and left no trail of it. */
    ghost predicate Unaudited(coerce: Coercion, s: Store, s': Store) {
      if Save? then SavedUnaudited(coerce, s, s', token, saveRecid, fields)
      else RemovedUnaudited(s, s', token, Wanted(ids))
    }

    /** The operation left the data alone or had its effect. */
    ghost predicate MayLeave(coerce: Coercion, s: Store, s': Store) {
      s' == s || exists count :: Effect(coerce, s, s', count)
    }
  }

  lemma EffectIsAccounted(coerce: Coercion, s: Store, s': Store, op: Operation, count: nat)
    requires Keyed(s.tables) && op.Effect(coerce, s, s', count) && op.Safe(s)
    ensures AuditStep(s, s')
  {
    if count > 0 {
      match op {
        case Save(t, saveRecid, fields) => SavedIsAccounted(coerce, s, s', t, saveRecid, fields);
        case Delete(t, ids) => RemovedIsAccounted(s, s', t, Wanted(ids), count);
      }
    }
  }

  /** A change without a trail row is no accounted step. */
  lemma UnauditedIsNoStep(coerce: Coercion, s: Store, s': Store, op: Operation)
    requires Keyed(s.tables) && op.Unaudited(coerce, s, s')
    ensures s'.tables != s.tables && s'.trail == s.trail && !AuditStep(s, s') && !Replays(s, s')
  {
    match op {
      case Save(t, saveRecid, fields) =>
        var key :| WroteKey(coerce, s, s', t, saveRecid, fields, key);
        WriteChangesRows(s, s', t, BeforeOf(TableOf(s.tables, t), saveRecid), Row(key, coerce(fields.cells.value)));
      case Delete(t, ids) =>
        var gone := Wanted(ids) * TableOf(s.tables, t).Keys;
        assert (forall k :: k !in gone) ==> gone == {};
        var k: int :| k in gone;
        assert k in TableOf(s.tables, t) && k !in TableOf(s'.tables, t);
    }
    assert s'.trail[|s.trail|..] == [];
  }

  /**
   `save_data` and `delete_data`: one transaction each, whatever fails and wherever, and wherever an interrupt hits. On
   success what becomes durable is what the operation reports, rows and trail together; on failure that or nothing.
   It succeeds only if it is accepted, and then reports the rows it changed; when nothing fails and no interrupt comes,
   it succeeds exactly then. A token that names no plain table changes nothing.
   Only an interrupt between the write and its trail may leave a change without a trail row. Under a safe key the step
   is accounted for exactly unless it is such a change. An interrupted request closes its connection.
   */
  method Perform(db: MySQLDatabase, op: Operation, interrupt: Option<Point>) returns (ok: bool, count: nat)
    requires db.Idle() && forall n :: !db.rollbackFaults(n).Rejected?
    modifies db
    ensures db.Idle()
    ensures ok ==> op.Accepted(old(db.durable)) && count == op.Count(db.coerce, old(db.durable))
    ensures old(db.Quiet()) && interrupt.None? ==> (ok <==> op.Accepted(old(db.durable)))
    ensures op.token !in {Domains, Monitors, Routings, Views, Types} ==> !ok && db.durable == old(db.durable)
    ensures ok ==> op.Effect(db.coerce, old(db.durable), db.durable, count)
    ensures || op.MayLeave(db.coerce, old(db.durable), db.durable)
            || (BetweenWriteAndTrail(interrupt) && op.Unaudited(db.coerce, old(db.durable), db.durable))
    ensures op.Safe(old(db.durable)) ==>
              (AuditStep(old(db.durable), db.durable) <==> !op.Unaudited(db.coerce, old(db.durable), db.durable))
  {
    ghost var s := db.durable;
    ok, count := false, 0;
    if !op.token.Unregistered? {
      var begun := db.Begin();
      if begun {
        var exit;
        match op {
          case Save(t, saveRecid, fields) => exit, count := SaveBlock(db, t, saveRecid, fields, interrupt);
          case Delete(t, ids) => exit, count := DeleteBlock(db, t, ids, interrupt);
        }
        ghost var seen := db.View();
        assert exit.Returned? ==> op.Effect(db.coerce, s, seen, count);
        if exit.Escaped? && op.Save? && Saved(db.coerce, s, seen, op.token, op.saveRecid, op.fields) {
          assert op.Effect(db.coerce, s, seen, 1);
        } else if exit.Escaped? && op.Delete? && count > 0 && Removed(s, seen, op.token, Wanted(op.ids), count) {
          assert op.Effect(db.coerce, s, seen, count);
        }
        ok := db.Leave(exit);
        assert db.durable == s || db.durable == seen;
        if exit.Escaped? {
          db.Close();
        }
      }
    }
    StepsAreJudged(db.coerce, s, db.durable, op);
  }

  /** Of what an operation may leave, exactly the unaudited change is no accounted step. */
  lemma StepsAreJudged(coerce: Coercion, s: Store, s': Store, op: Operation)
    requires Keyed(s.tables) && (op.MayLeave(coerce, s, s') || op.Unaudited(coerce, s, s'))
    ensures op.Safe(s) ==> (AuditStep(s, s') <==> !op.Unaudited(coerce, s, s'))
  {
    if op.Unaudited(coerce, s, s') {
      UnauditedIsNoStep(coerce, s, s', op);
    } else if s' != s && op.Safe(s) {
      var count :| op.Effect(coerce, s, s', count);
      EffectIsAccounted(coerce, s, s', op, count);
    }
  }

  /** Every operation of a run was safe on the data it met, and none was cut off between its write and its trail. */
  ghost predicate AllSafe(ops: seq<Operation>, interrupts: seq<Option<Point>>, states: seq<Store>)
    requires |interrupts| == |ops|
  {
    && |states| == |ops| + 1
    && forall i :: 0 <= i < |ops| ==> ops[i].Safe(states[i]) && !BetweenWriteAndTrail(interrupts[i])
  }

  /** How one operation of a run ended: whether it succeeded, and the number of rows it reported. */
  datatype Outcome = Outcome(ok: bool, count: nat)

  /** What a reported success says, and when success is certain: `quiet` is that no driver call fails. */
  ghost predicate Reports(coerce: Coercion, op: Operation, interrupt: Option<Point>, quiet: bool, s: Store, s': Store,
                          outcome: Outcome) {
    && (outcome.ok ==>
          op.Accepted(s) && outcome.count == op.Count(coerce, s) && op.Effect(coerce, s, s', outcome.count))
    && (quiet && interrupt.None? && op.Accepted(s) ==> outcome.ok)
  }

  /** What one operation of a run may do to the durable data. */
  ghost predicate MayStep(coerce: Coercion, op: Operation, interrupt: Option<Point>, s: Store, s': Store) {
    && (op.MayLeave(coerce, s, s') || (BetweenWriteAndTrail(interrupt) && op.Unaudited(coerce, s, s')))
    && (op.token !in {Domains, Monitors, Routings, Views, Types} ==> s' == s)
    && (op.Safe(s) ==> (AuditStep(s, s') <==> !op.Unaudited(coerce, s, s')))
  }

  /**
   Any sequence of saves and deletes, with a failure allowed at any driver call and an interrupt anywhere; `states` is
   the durable data before, between and after them. If every operation met data on which its key is safe and none was
   interrupted between its write and its trail, the trail replays to the data. `outcomes` says how each one ended.
   */
  method PerformAll(db: MySQLDatabase, ops: seq<Operation>, interrupts: seq<Option<Point>>)
      returns (outcomes: seq<Outcome>, ghost states: seq<Store>)
    requires db.Idle() && |interrupts| == |ops| && forall n :: !db.rollbackFaults(n).Rejected?
    modifies db
    ensures db.Idle() && |states| == |ops| + 1 && states[0] == old(db.durable) && states[|ops|] == db.durable
    ensures forall i :: 0 <= i < |ops| ==> MayStep(db.coerce, ops[i], interrupts[i], states[i], states[i + 1])
    ensures |outcomes| == |ops| && forall i :: 0 <= i < |ops| ==>
              Reports(db.coerce, ops[i], interrupts[i], old(db.Quiet()), states[i], states[i + 1], outcomes[i])
    ensures AllSafe(ops, interrupts, states) ==> Replays(old(db.durable), db.durable)
  {
    outcomes, states := [], [db.durable];
    for i := 0 to |ops|
      invariant db.Idle() && |states| == i + 1 && states[0] == old(db.durable) && states[i] == db.durable
      invariant forall k :: 0 <= k <= i ==> Keyed(states[k].tables)
      invariant forall k :: 0 <= k < i ==> MayStep(db.coerce, ops[k], interrupts[k], states[k], states[k + 1])
      invariant |outcomes| == i && forall k :: 0 <= k < i ==>
                  Reports(db.coerce, ops[k], interrupts[k], old(db.Quiet()), states[k], states[k + 1], outcomes[k])
    {
      var ok, count := Perform(db, ops[i], interrupts[i]);
      outcomes, states := outcomes + [Outcome(ok, count)], states + [db.durable];
    }
    if AllSafe(ops, interrupts, states) {
      forall k | 0 <= k < |ops|
        ensures AuditStep(states[k], states[k + 1])
      {
        SafeStep(db.coerce, ops[k], interrupts[k], states[k], states[k + 1]);
      }
      RunReplays(states, |ops|);
    }
  }

  lemma SafeStep(coerce: Coercion, op: Operation, interrupt: Option<Point>, s: Store, s': Store)
    requires Keyed(s.tables) && MayStep(coerce, op, interrupt, s, s') && op.Safe(s) && !BetweenWriteAndTrail(interrupt)
    ensures AuditStep(s, s')
  {
    if s' != s {
      var count :| op.Effect(coerce, s, s', count);
      EffectIsAccounted(coerce, s, s', op, count);
    }
  }
}
