/** The stored data and what one statement does to it. */
module Storage {
  import opened Common

  /** The data tokens; users and records are not modelled, Unregistered stands for a token without a table. */
  datatype Token = Domains | Monitors | Routings | Views | Types | AuditLog | StatusView | Unregistered

  predicate IsPlain(t: Token) {
    t.Domains? || t.Monitors? || t.Routings? || t.Views? || t.Types?
  }

  /** A stored row: its key, exposed as recid, and its other columns. */
  datatype Row = Row(recid: int, cells: seq<string>)

  type Table = map<int, Row>

  datatype AuditRow = AuditRow(token: Token, recordId: int, before: Option<Row>, after: Option<Row>)

  datatype Store = Store(tables: map<Token, Table>, trail: seq<AuditRow>)

  function TableOf(tables: map<Token, Table>, t: Token): Table {
    if t in tables then tables[t] else map[]
  }

  function WithTable(s: Store, t: Token, table: Table): Store {
    s.(tables := s.tables[t := table])
  }

  /** Every token has its table, and every row is stored under its own key. */
  ghost predicate Keyed(tables: map<Token, Table>) {
    (forall t: Token :: t in tables) && forall t, k :: t in tables && k in tables[t] ==> tables[t][k].recid == k
  }

  datatype Statement =
    | SelectAll(token: Token)
    | SelectIn(token: Token, keys: set<int>)
    | Insert(token: Token, key: Option<int>, cells: seq<string>)
    | Update(token: Token, at: int, newKey: int, cells: seq<string>)
    | DeleteIn(token: Token, keys: set<int>)
    | InsertTrail(rows: seq<AuditRow>)

  datatype Reply = Reply(rows: seq<Row>, affected: nat, insertId: int)

  /** `rows` lists the rows of `table` whose key is in `keys`, each once, in any order. */
  ghost predicate Lists(rows: seq<Row>, table: Table, keys: set<int>) {
    Distinct(rows)
    && forall r :: r in rows <==> r.recid in keys && r.recid in table && table[r.recid] == r
  }

  /** What the server stores for posted cells. */
  type Coercion = seq<string> -> seq<string>

  /** The statement turns `s` into `s'` and answers `r`; a violated key makes it fail instead. */
  ghost predicate Executes(coerce: Coercion, s: Store, stmt: Statement, s': Store, r: Reply) {
    match stmt
    case SelectAll(t) => s' == s && Lists(r.rows, TableOf(s.tables, t), TableOf(s.tables, t).Keys)
    case SelectIn(t, keys) => s' == s && Lists(r.rows, TableOf(s.tables, t), keys)
    case Insert(t, key, cells) =>
      var table := TableOf(s.tables, t);
      exists k ::
        && k !in table && (if key.Some? then k == key.value && r.insertId == 0 else k > 0 && r.insertId == k)
        && s' == WithTable(s, t, table[k := Row(k, coerce(cells))]) && r.affected == 1
    case Update(t, at, newKey, cells) =>
      var table, row := TableOf(s.tables, t), Row(newKey, coerce(cells));
      if at !in table || table[at] == row then s' == s && r.affected == 0
      else
        && (newKey == at || newKey !in table)
        && s' == WithTable(s, t, (table - {at})[newKey := row]) && r.affected == 1
    case DeleteIn(t, keys) =>
      var table := TableOf(s.tables, t);
      s' == WithTable(s, t, table - keys) && r.affected == |keys * table.Keys|
    case InsertTrail(rows) => s' == s.(trail := s.trail + rows) && r.affected == |rows|
  }

  /** The statement would write a key that another row has. */
  predicate Violates(coerce: Coercion, s: Store, stmt: Statement) {
    match stmt
    case Insert(t, key, cells) => key.Some? && key.value in TableOf(s.tables, t)
    case Update(t, at, newKey, cells) =>
      var table := TableOf(s.tables, t);
      at in table && table[at] != Row(newKey, coerce(cells)) && newKey != at && newKey in table
    case _ => false
  }

  /** The statement writes no key of the caller's. */
  predicate NeverViolates(stmt: Statement) {
    !stmt.Update? && !(stmt.Insert? && stmt.key.Some?)
  }

  /** Some key is free: the AUTO_INCREMENT of a table. */
  method FreshKey(table: Table) returns (k: int)
    ensures k > 0 && k !in table
  {
    k := 1;
    var rest := table.Keys;
    while k in table
      invariant k > 0 && rest <= table.Keys && forall j :: j in table && j >= k ==> j in rest
      decreases rest
    {
      rest := rest - {k};
      k := k + 1;
    }
  }

  /** The rows under `keys` in some order. */
  method ListRows(table: Table, keys: set<int>) returns (rows: seq<Row>)
    requires forall k :: k in table ==> table[k].recid == k
    ensures Lists(rows, table, keys)
  {
    rows := [];
    var todo := keys * table.Keys;
    while todo != {}
      invariant todo <= keys * table.Keys && Distinct(rows)
      invariant forall r ::
                  r in rows <==> r.recid in keys && r.recid in table && r.recid !in todo && table[r.recid] == r
      decreases todo
    {
      assert (forall x :: x in todo ==> false) ==> todo == {};
      var k: int :| k in todo;
      todo := todo - {k};
      rows := rows + [table[k]];
    }
  }

  /** The server executing one statement. */
  method ServerExecute(coerce: Coercion, s: Store, stmt: Statement) returns (ok: bool, s': Store, r: Reply)
    requires Keyed(s.tables)
    ensures ok ==> Executes(coerce, s, stmt, s', r) && Keyed(s'.tables)
    ensures ok <==> !Violates(coerce, s, stmt)
  {
    ok, s', r := true, s, Reply([], 0, 0);
    match stmt {
      case SelectAll(t) =>
        var rows := ListRows(TableOf(s.tables, t), TableOf(s.tables, t).Keys);
        r := Reply(rows, |rows|, 0);
      case SelectIn(t, keys) =>
        var rows := ListRows(TableOf(s.tables, t), keys);
        r := Reply(rows, |rows|, 0);
      case Insert(t, key, cells) =>
        var table := TableOf(s.tables, t);
        var k := if key.Some? then key.value else 0;
        if key.None? {
          k := FreshKey(table);
        }
        ok := k !in table;
        s' := WithTable(s, t, table[k := Row(k, coerce(cells))]);
        r := Reply([], 1, if key.Some? then 0 else k);
      case Update(t, at, newKey, cells) =>
        var table, row := TableOf(s.tables, t), Row(newKey, coerce(cells));
        if at in table && table[at] != row {
          ok := newKey == at || newKey !in table;
          s' := WithTable(s, t, (table - {at})[newKey := row]);
          r := Reply([], 1, 0);
        }
      case DeleteIn(t, keys) =>
        var table := TableOf(s.tables, t);
        s' := WithTable(s, t, table - keys);
        r := Reply([], |keys * table.Keys|, 0);
      case InsertTrail(rows) =>
        s' := s.(trail := s.trail + rows);
        r := Reply([], |rows|, 0);
    }
  }
}

/** The connection facade: statements, the one-shot reconnect and the transaction block. */
module Database {
  import opened Common
  import opened Storage

  /**
   How one driver call ends. Rejected: an error, nothing happened, the session lives. Aborted: an error that also
   discarded the open transaction. Lost: the session died before the call took effect. LostAfter: it took effect, then
   the session died before the answer came.
   */
  datatype Fault = Fine | Rejected | Aborted | Lost | LostAfter

  /** How a transaction block ends: normally, by an `Exception`, or by something that is not one. */
  datatype Exit = Returned | Raised | Escaped

  /** A server session; `working` is its open transaction, which dies with it. */
  datatype Session = Session(sid: nat, alive: bool, autocommit: bool, working: Option<Store>) {
    predicate Ok() {
      !alive || autocommit ==> working.None?
    }

    /** The session after a driver call that was no statement and ended as `f`. */
    function After(f: Fault): Session {
      if Kills(f) then this.(alive := false, working := None)
      else if f.Aborted? then this.(working := None)
      else this
    }

    /** A ping that ends as `f` finds the session live. */
    predicate Pings(f: Fault) {
      alive && f.Fine?
    }
  }

  predicate TakesEffect(f: Fault) {
    f.Fine? || f.LostAfter?
  }

  predicate Kills(f: Fault) {
    f.Lost? || f.LostAfter?
  }

  /** A statement sent to the server, with the session it went to. */
  datatype Sent = Sent(sid: nat, stmt: Statement)

  class MySQLDatabase {
    /** Committed data, on the server. */
    var durable: Store
    var connection: Session
    var inTransaction: bool
    var lastInsertId: int

    /** Any behaviour of the driver: the n-th call ends as `faults(n)`, a rollback as `rollbackFaults(n)`. */
    const faults: nat -> Fault
    const rollbackFaults: nat -> Fault
    const coerce: Coercion
    var calls: nat

    /** History: the statements sent and the reconnects made. */
    ghost var sent: seq<Sent>
    ghost var reconnects: nat

    constructor (durable: Store, faults: nat -> Fault, rollbackFaults: nat -> Fault, coerce: Coercion)
      requires Keyed(durable.tables)
      ensures Idle() && this.durable == durable && connection == Session(0, true, true, None) && calls == 0
      ensures this.faults == faults && this.rollbackFaults == rollbackFaults && this.coerce == coerce
    {
      this.durable := durable;
      this.faults := faults;
      this.rollbackFaults := rollbackFaults;
      this.coerce := coerce;
      connection := Session(0, true, true, None);
      inTransaction, lastInsertId, calls, sent, reconnects := false, 0, 0, [], 0;
    }

    ghost predicate Valid()
      reads this
    {
      && connection.Ok() && Keyed(durable.tables)
      && (connection.working.Some? ==> Keyed(connection.working.value.tables))
      && (inTransaction && connection.alive ==> !connection.autocommit)
    }

    /** Outside any transaction, with nothing pending. */
    ghost predicate Idle()
      reads this
    {
      Valid() && !inTransaction && connection.working.None?
    }

    /** What the next statement sees. */
    function View(): Store
      reads this
    {
      if connection.working.Some? then connection.working.value else durable
    }

    method NextFault() returns (f: Fault)
      modifies this`calls
      ensures calls == old(calls) + 1 && f == faults(old(calls))
    {
      f := faults(calls);
      calls := calls + 1;
    }

    method Die()
      modifies this`connection
      ensures connection == old(connection).(alive := false, working := None)
    {
      connection := connection.(alive := false, working := None);
    }

    /** Leaving the `with` block of the connection: closed, whatever that says; what was pending is gone. */
    method Close()
      requires Valid() && !inTransaction
      modifies this`connection
      ensures Idle() && !connection.alive
    {
      Die();
    }

    /** The driver's ping: false on any error. */
    method IsConnected() returns (yes: bool)
      requires Valid()
      modifies this`calls, this`connection
      ensures Valid() && calls == old(calls) + 1
      ensures connection == old(connection).After(faults(old(calls)))
      ensures yes == old(connection).Pings(faults(old(calls)))
    {
      var f := NextFault();
      connection := connection.After(f);
      yes := connection.alive && f.Fine?;
    }

    /** Close the old connection, whatever that says, and connect again; a new session has autocommit on. */
    method Reconnect() returns (ok: bool)
      requires Valid() && !inTransaction
      modifies this`calls, this`connection, this`reconnects
      ensures Idle() && reconnects == old(reconnects) + 1
      ensures connection.sid == if ok then old(connection.sid) + 1 else old(connection.sid)
      ensures ok == connection.alive && (ok ==> connection.autocommit) && ok == faults(old(calls)).Fine?
    {
      Die();
      reconnects := reconnects + 1;
      var f := NextFault();
      ok := f.Fine?;
      if ok {
        connection := Session(connection.sid + 1, true, true, None);
      }
    }

    /** The driver's `cursor()`, which pings first. */
    method Cursor() returns (ok: bool)
      requires Valid()
      modifies this`calls, this`connection
      ensures Valid() && calls == old(calls) + 1
      ensures connection == old(connection).After(faults(old(calls)))
      ensures ok == old(connection).Pings(faults(old(calls)))
    {
      ok := IsConnected();
    }

    /** No transaction is open, `cursor()` fails now, and the connection does not ping afterwards either. */
    ghost predicate NeedsReconnect()
      reads this
    {
      && !inTransaction && !connection.Pings(faults(calls))
      && !connection.After(faults(calls)).Pings(faults(calls + 1))
    }

    /** Reconnects once exactly when no transaction is open and the connection pings neither in `cursor()` nor after. */
    method OpenCursor() returns (ok: bool)
      requires Valid()
      modifies this`calls, this`connection, this`reconnects
      ensures Valid()
      ensures reconnects == old(reconnects) + if old(NeedsReconnect()) then 1 else 0
      ensures old(connection).Pings(faults(old(calls))) ==> ok && calls == old(calls) + 1
      ensures inTransaction ==> connection.sid == old(connection.sid)
      ensures ok ==> connection.alive
      ensures ok && reconnects == old(reconnects) ==> connection == old(connection)
      ensures reconnects > old(reconnects) ==> connection.working.None? && (ok ==> connection.autocommit)
      ensures old(connection.working).None? ==> connection.working.None?
      ensures inTransaction && connection.working.Some? ==> connection == old(connection)
      ensures Quiet() && (old(connection.alive) || !inTransaction) ==> ok
    {
      ok := Cursor();
      if ok {
        return;
      }
      if inTransaction {
        return;
      }
      var live := IsConnected();
      if live {
        return;
      }
      ok := Reconnect();
      if ok {
        ok := Cursor();
      }
    }

    /** `cursor.execute`: sends the statement once. */
    method Send(stmt: Statement) returns (r: Option<Reply>)
      requires Valid() && connection.alive
      modifies this`calls, this`connection, this`durable, this`sent
      ensures Valid() && connection.sid == old(connection.sid) && connection.autocommit == old(connection.autocommit)
      ensures sent == old(sent) + [Sent(old(connection.sid), stmt)]
      ensures !connection.autocommit ==> durable == old(durable)
      ensures r.Some? ==> connection.alive && Executes(coerce, old(View()), stmt, View(), r.value)
      ensures r.Some? && !connection.autocommit ==> connection.working.Some?
      ensures durable == old(durable) || exists reply :: Executes(coerce, old(durable), stmt, durable, reply)
      ensures faults(old(calls)).Fine? && !Violates(coerce, old(View()), stmt) ==> r.Some?
    {
      var f := NextFault();
      sent := sent + [Sent(connection.sid, stmt)];
      if !TakesEffect(f) {
        connection := connection.After(f);
        return None;
      }
      var ok, s', reply := ServerExecute(coerce, View(), stmt);
      if !ok {
        return None;
      }
      if connection.autocommit {
        durable := s';
      } else {
        connection := connection.(working := Some(s'));
      }
      if f.LostAfter? {
        Die();
        return None;
      }
      r := Some(reply);
    }

    /** What a successful statement started from: the view it had, or the durable data of a new session. */
    twostate function Base(): Store
      reads this
    {
      if reconnects == old(reconnects) then old(View()) else old(durable)
    }

    /**
     `select` and `modify`. The statement is sent at most once, the connection is replaced at most once and never
     inside a transaction.

     Inside a transaction nothing becomes durable. Outside, a successful statement is durable exactly when autocommit
     is on, and it is on exactly when it was on before or the connection was replaced; with autocommit off the
     statement succeeds and stays pending. A failed one took effect at most once.
     */
    method Run(stmt: Statement) returns (r: Option<Reply>)
      requires Valid()
      modifies this
      ensures Valid() && inTransaction == old(inTransaction)
      ensures sent == old(sent) || exists sid :: sent == old(sent) + [Sent(sid, stmt)]
      ensures r.Some? ==> sent == old(sent) + [Sent(connection.sid, stmt)]
      ensures reconnects == old(reconnects) + if old(NeedsReconnect()) then 1 else 0
      ensures inTransaction ==> connection.sid == old(connection.sid) && durable == old(durable)
      ensures inTransaction ==> sent == old(sent) || sent == old(sent) + [Sent(old(connection.sid), stmt)]
      ensures r.Some? ==>
                connection.alive && lastInsertId == r.value.insertId
                && connection.autocommit == (old(connection.autocommit) || reconnects > old(reconnects))
                && Executes(coerce, Base(), stmt, View(), r.value)
                && if connection.autocommit then connection.working.None? && durable == View()
                   else connection.working.Some? && durable == old(durable)
      ensures r.None? ==>
                durable == old(durable) || exists reply :: Executes(coerce, old(durable), stmt, durable, reply)
      ensures old(Idle()) && old(connection.autocommit) ==> Idle()
      ensures old(connection).Pings(faults(old(calls))) && faults(old(calls) + 1).Fine?
              && !Violates(coerce, old(View()), stmt) ==>
                r.Some?
      ensures Quiet() && (old(connection.alive) || !inTransaction) && NeverViolates(stmt) ==> r.Some?
    {
      var ok := OpenCursor();
      if !ok {
        return None;
      }
      r := Send(stmt);
      if r.Some? {
        lastInsertId := r.value.insertId;
      }
    }

    /** Setting autocommit is a statement; switching it on commits what is pending. */
    method SetAutocommit(on: bool) returns (ok: bool)
      requires Valid() && !inTransaction
      modifies this`calls, this`connection, this`durable
      ensures Valid() && connection.sid == old(connection.sid) && calls == old(calls) + 1
      ensures connection.alive <==> old(connection.alive) && !Kills(faults(old(calls)))
      ensures connection.alive ==>
                connection.autocommit == if faults(old(calls)).Fine? then on else old(connection.autocommit)
      ensures ok <==> old(connection).Pings(faults(old(calls)))
      ensures !on ==> durable == old(durable)
      ensures !on && connection.alive && !faults(old(calls)).Aborted? ==> connection.working == old(connection.working)
      ensures on ==>
                durable == if old(connection.alive) && old(connection.working).Some? && TakesEffect(faults(old(calls)))
                           then old(connection.working).value else old(durable)
      ensures old(connection.working).None? ==> connection.working.None?
    {
      var f := NextFault();
      if connection.alive && TakesEffect(f) {
        if on && connection.working.Some? {
          durable := connection.working.value;
          connection := connection.(working := None);
        }
        connection := connection.(autocommit := on);
      }
      ok := connection.alive && f.Fine?;
      connection := connection.After(f);
    }

    /** Nothing fails. */
    ghost predicate Quiet()
      reads this
    {
      forall n :: faults(n).Fine?
    }

    /** Entering `transaction()`: check the connection, reconnect once if needed, suspend autocommit. */
    method Begin() returns (ok: bool)
      requires Idle()
      modifies this
      ensures Valid() && durable == old(durable) && sent == old(sent) && connection.working.None?
      ensures reconnects == old(reconnects) + if old(connection).Pings(faults(old(calls))) then 0 else 1
      ensures inTransaction == ok && (ok ==> connection.alive && !connection.autocommit)
      ensures Quiet() ==> ok
      ensures old(connection).Pings(faults(old(calls))) ==>
                calls == old(calls) + 2 && ok == faults(old(calls) + 1).Fine?
    {
      ok := IsConnected();
      if !ok {
        ok := Reconnect();
        if !ok {
          return;
        }
      }
      ok := SetAutocommit(false);
      inTransaction := ok;
    }

    /** The driver's commit: it takes effect exactly on a live session whose call does. */
    method Commit() returns (ok: bool)
      requires Valid()
      modifies this`calls, this`connection, this`durable
      ensures Valid() && connection.sid == old(connection.sid) && connection.autocommit == old(connection.autocommit)
      ensures calls == old(calls) + 1
      ensures ok <==> old(connection).Pings(faults(old(calls)))
      ensures durable == if old(connection.alive) && TakesEffect(faults(old(calls))) then old(View()) else old(durable)
      ensures connection.alive <==> old(connection.alive) && !Kills(faults(old(calls)))
      ensures connection.working == if faults(old(calls)).Rejected? then old(connection.working) else None
    {
      var f := NextFault();
      if connection.alive && TakesEffect(f) {
        durable := View();
        connection := connection.(working := None);
      }
      ok := connection.alive && f.Fine?;
      connection := connection.After(f);
    }

    /** The driver's rollback, its error suppressed. Only a rejected rollback leaves the transaction open. */
    method Rollback()
      requires Valid()
      modifies this`calls, this`connection
      ensures Valid() && connection.sid == old(connection.sid) && calls == old(calls) + 1
      ensures connection.autocommit == old(connection.autocommit)
      ensures connection.alive <==> old(connection.alive) && !Kills(rollbackFaults(old(calls)))
      ensures connection.working == if rollbackFaults(old(calls)).Rejected? then old(connection.working) else None
      ensures rollbackFaults(old(calls)).Rejected? ==> connection == old(connection)
    {
      var f := rollbackFaults(calls);
      calls := calls + 1;
      if !f.Rejected? {
        connection := connection.(working := None);
      }
      connection := connection.After(f);
    }

    /**
     Leaving `transaction()`: commit when the block returned, roll back when it raised or the commit failed, and in any
     case clear the flag and switch autocommit back on.

     A normal exit has committed everything. When the block raised, nothing becomes durable, except exactly when the
     rollback is rejected by a living session that then accepts autocommit, which commits what was pending. When the
     block returned, all of it becomes durable exactly when the commit took effect, reported or not, or in the same
     exceptional way after a rejected commit; otherwise nothing does. An exception that is no `Exception` skips the
     rollback, so there switching autocommit on commits the statements that ran. On a session that lives on, autocommit
     is back on exactly when the call that switches it on succeeds.
     */
    method Leave(exit: Exit) returns (ok: bool)
      requires Valid() && inTransaction
      modifies this
      ensures Valid() && !inTransaction && sent == old(sent) && reconnects == old(reconnects)
      ensures connection.sid == old(connection.sid)
      ensures ok <==> exit.Returned? && old(connection).Pings(faults(old(calls))) && faults(old(calls) + 1).Fine?
      ensures ok ==> durable == old(View()) && Idle() && connection.autocommit
      ensures exit.Returned? ==> durable == if old(Commits() || LeaksAfterCommit()) then old(View()) else old(durable)
      ensures exit.Raised? ==> durable == if old(Leaks(calls)) then old(View()) else old(durable)
      ensures exit.Escaped? ==> durable == if old(Commits()) then old(View()) else old(durable)
      ensures !exit.Escaped? && (forall n :: !rollbackFaults(n).Rejected?) ==> Idle()
      ensures calls > old(calls) && (connection.alive ==> (connection.autocommit <==> faults(calls - 1).Fine?))
      ensures exit.Raised? ==> calls == old(calls) + 2
      ensures exit.Raised? && old(connection.alive) && !Kills(rollbackFaults(old(calls)))
              && !Kills(faults(old(calls) + 1)) ==>
                connection.alive
    {
      ok := exit.Returned?;
      if exit.Returned? {
        ok := Commit();
      }
      if !ok && !exit.Escaped? {
        Rollback();
      }
      inTransaction := false;
      var restored := SetAutocommit(true);
      ok := ok && restored;
    }

    /** The next call takes effect on the server. */
    ghost predicate Commits()
      reads this
    {
      connection.alive && TakesEffect(faults(calls))
    }

    /** A rollback made as call `n` would be rejected with a transaction open, and the call after it then commits it. */
    ghost predicate Leaks(n: nat)
      reads this
    {
      connection.alive && connection.working.Some? && rollbackFaults(n).Rejected? && TakesEffect(faults(n + 1))
    }

    /** The commit made now would be rejected, and then the rollback too. */
    ghost predicate LeaksAfterCommit()
      reads this
    {
      faults(calls).Rejected? && Leaks(calls + 1)
    }
  }

  // Whole transaction blocks.

  /** Running all of `stmts` in order can turn `s` into `s'`. */
  ghost predicate ExecutesAll(coerce: Coercion, s: Store, stmts: seq<Statement>, s': Store)
    decreases |stmts|
  {
    if stmts == [] then s' == s
    else
      var n := |stmts| - 1;
      exists mid, reply :: ExecutesAll(coerce, s, stmts[..n], mid) && Executes(coerce, mid, stmts[n], s', reply)
  }

  function SentTo(sid: nat, stmts: seq<Statement>): (r: seq<Sent>)
    ensures |r| == |stmts|
  {
    seq(|stmts|, i requires 0 <= i < |stmts| => Sent(sid, stmts[i]))
  }

  lemma OneMoreExecuted(coerce: Coercion, s: Store, stmts: seq<Statement>, i: nat, mid: Store, s': Store, reply: Reply)
    requires i < |stmts| && ExecutesAll(coerce, s, stmts[..i], mid) && Executes(coerce, mid, stmts[i], s', reply)
    ensures ExecutesAll(coerce, s, stmts[..i + 1], s')
  {
    assert stmts[..i + 1][..i] == stmts[..i];
  }

  lemma OneMoreSent(sid: nat, stmts: seq<Statement>, i: nat)
    requires i < |stmts|
    ensures SentTo(sid, stmts[..i + 1]) == SentTo(sid, stmts[..i]) + [Sent(sid, stmts[i])]
  {
  }

  /** The block ran the first `k` statements at most, each sent once, in order, all to one session. */
  ghost predicate SentOnce(before: seq<Sent>, after: seq<Sent>, stmts: seq<Statement>, sid: nat, k: nat) {
    k <= |stmts| && after == before + SentTo(sid, stmts[..k])
  }

  /** The statements of a block, up to the first that fails. */
  method RunAll(db: MySQLDatabase, stmts: seq<Statement>) returns (ok: bool)
    requires db.Valid() && db.inTransaction && db.connection.working.None?
    modifies db
    ensures db.Valid() && db.inTransaction && db.durable == old(db.durable)
    ensures db.connection.sid == old(db.connection.sid) && db.reconnects == old(db.reconnects)
    ensures exists k :: SentOnce(old(db.sent), db.sent, stmts, db.connection.sid, k) && (ok ==> k == |stmts|)
    ensures ok ==> ExecutesAll(db.coerce, old(db.durable), stmts, db.View())
    ensures ok && old(db.connection.alive) ==> db.connection.alive
    ensures db.Quiet() && old(db.connection.alive) && (forall i :: 0 <= i < |stmts| ==> NeverViolates(stmts[i])) ==> ok
  {
    for i := 0 to |stmts|
      invariant old(db.connection.alive) ==> db.connection.alive
      invariant db.Valid() && db.inTransaction && db.durable == old(db.durable)
      invariant db.connection.sid == old(db.connection.sid) && db.reconnects == old(db.reconnects)
      invariant SentOnce(old(db.sent), db.sent, stmts, db.connection.sid, i)
      invariant ExecutesAll(db.coerce, old(db.durable), stmts[..i], db.View())
    {
      ghost var mid := db.View();
      var reply := db.Run(stmts[i]);
      OneMoreSent(db.connection.sid, stmts, i);
      if reply.None? {
        assert SentOnce(old(db.sent), db.sent, stmts, db.connection.sid, i)
               || SentOnce(old(db.sent), db.sent, stmts, db.connection.sid, i + 1);
        return false;
      }
      OneMoreExecuted(db.coerce, old(db.durable), stmts, i, mid, db.View(), reply.value);
    }
    assert stmts[..|stmts|] == stmts;
    ok := true;
  }

  /**
   A whole `transaction()` block, under any behaviour of the connection; `ran` says that every statement succeeded. Its
   statements are sent at most once each, in order, to one session, after at most one reconnect; a normal exit has made
   all of them durable. Unless a living session rejects the rollback, a block that a failing statement stopped leaves
   nothing durable, and one whose commit failed leaves all or nothing. When nothing fails, a block that writes no key of
   its own succeeds.
   */
  method Transact(db: MySQLDatabase, stmts: seq<Statement>) returns (ran: bool, ok: bool)
    requires db.Idle()
    modifies db
    ensures db.Valid() && !db.inTransaction && db.reconnects <= old(db.reconnects) + 1
    ensures exists sid, k :: SentOnce(old(db.sent), db.sent, stmts, sid, k) && (ran ==> k == |stmts|)
    ensures ok ==> ran && db.Idle() && ExecutesAll(db.coerce, old(db.durable), stmts, db.durable)
    ensures db.Quiet() && (forall i :: 0 <= i < |stmts| ==> NeverViolates(stmts[i])) ==> ok
    ensures (forall n :: !db.rollbackFaults(n).Rejected?) ==>
              && db.Idle()
              && (!ran ==> db.durable == old(db.durable))
              && (db.durable == old(db.durable) || ExecutesAll(db.coerce, old(db.durable), stmts, db.durable))
  {
    ok := db.Begin();
    ran := false;
    if !ok {
      assert SentOnce(old(db.sent), db.sent, stmts, 0, 0);
      return;
    }
    ran := RunAll(db, stmts);
    ok := db.Leave(if ran then Returned else Raised);
  }

  /**
   A single statement does not always persist on its own. Here a block raises and is rolled back, the session lives but
   rejects switching autocommit back on, and the next write outside any transaction succeeds and is not durable.
   */
  method WriteStaysPending(durable: Store, coerce: Coercion, row: AuditRow)
      returns (db: MySQLDatabase, r: Option<Reply>)
    requires Keyed(durable.tables)
    ensures fresh(db) && db.Valid() && !db.inTransaction && db.connection.alive
    ensures r.Some? && db.durable == durable && db.View() == durable.(trail := durable.trail + [row])
  {
    db := new MySQLDatabase(durable, n => if n == 3 then Rejected else Fine, n => Fine, coerce);
    var begun := db.Begin();
    assert begun;
    var left := db.Leave(Raised);
    assert db.connection.alive && !db.connection.autocommit;
    r := db.Run(InsertTrail([row]));
  }
}
