/** The records and status tables: paging record keys first and joining the page afterwards. */
module RecordsTable {
  import opened Common
  import opened Ordering
  import opened Grid

  datatype RecordRow = RecordRow(id: int, rrsetId: int, content: string, monitorId: int, viewId: int,
                                 disabled: bool, weight: nat)

  datatype RrsetRow = RrsetRow(domainId: int, name: string, typeValue: int, ttl: nat, routingId: int)

  /** The joined tables; primary keys are unique and NOT NULL foreign keys always resolve. */
  datatype Db = Db(records: seq<RecordRow>, rrsets: map<int, RrsetRow>, domains: map<int, string>,
                   types: map<int, string>, routings: map<int, string>, monitors: map<int, string>,
                   views: map<int, string>)
  {
    ghost predicate Valid() {
      DistinctIds(records) && forall r :: r in records ==> Resolves(r)
    }

    predicate Resolves(r: RecordRow) {
      r.rrsetId in rrsets && r.monitorId in monitors && r.viewId in views
      && var s := rrsets[r.rrsetId];
         s.domainId in domains && s.typeValue in types && s.routingId in routings
    }
  }

  ghost predicate DistinctIds(records: seq<RecordRow>) {
    forall i, j :: 0 <= i < j < |records| ==> records[i].id != records[j].id
  }

  const LOCAL_FIELDS: set<string> := {"recid", "disabled", "weight", "content"}
  const STATUS_LOCAL_FIELDS: set<string> := LOCAL_FIELDS + {"status"}
  const JOINED_FIELDS: set<string> := {"domain", "name", "ttl", "policy", "name_type", "monitor", "view"}
  const RECORD_FIELDS: set<string> := LOCAL_FIELDS + JOINED_FIELDS
  const STATUS_FIELDS: set<string> := RECORD_FIELDS + {"status"}

  // What the base SELECTs project.

  function LocalRow(r: RecordRow): Row {
    map["disabled" := Num(if r.disabled then 1 else 0), "weight" := Num(r.weight), "content" := Text(r.content),
        "recid" := Num(r.id)]
  }

  /** The columns that come from the lookup tables. */
  function LookupColumns(db: Db, r: RecordRow): Row {
    if !db.Resolves(r) then map[]
    else
      var s := db.rrsets[r.rrsetId];
      map["domain" := Text(db.domains[s.domainId]), "name" := Text(s.name), "ttl" := Num(s.ttl),
          "policy" := Text(db.routings[s.routingId]), "name_type" := Text(db.types[s.typeValue]),
          "monitor" := Text(db.monitors[r.monitorId]), "view" := Text(db.views[r.viewId])]
  }

  /** One row of the full join. */
  function JoinRow(db: Db, r: RecordRow): Row {
    LookupColumns(db, r) + LocalRow(r)
  }

  /** The status CASE over disabled and the down-id snapshot. */
  function StatusText(down: seq<int>, r: RecordRow): Value {
    Text(if r.disabled || r.id in down then "Off" else "On")
  }

  function LocalOf(): RecordRow -> Row {
    r => LocalRow(r)
  }

  function JoinOf(db: Db): RecordRow -> Row {
    r => JoinRow(db, r)
  }

  function StatusLocalOf(down: seq<int>): RecordRow -> Row {
    r => LocalRow(r)["status" := StatusText(down, r)]
  }

  function StatusJoinOf(db: Db, down: seq<int>): RecordRow -> Row {
    r => JoinRow(db, r)["status" := StatusText(down, r)]
  }

  /** The page refers to local fields only, whether or not its clauses turn out usable. */
  predicate IsLocal(page: PageRequest, local: set<string>) {
    (forall s :: s in page.searches ==> s.field in local) && (forall s :: s in page.sorts ==> s.field in local)
  }

  // The page join.

  function RecidOf(row: Row): Value {
    Cell(row, "recid")
  }

  /**
   The rows the join with an IN list of the page's ids may return, in any order: those records, but for the ones
   deleted since the page was read; `gone` holds their recids.
   */
  ghost predicate MayFetch(db: Db, gone: set<Value>, idRows: seq<Row>, fetched: seq<Row>) {
    multiset(fetched) == multiset(Filter(Map(JoinOf(db), db.records), Fetchable(gone, idRows)))
  }

  ghost function Fetchable(gone: set<Value>, idRows: seq<Row>): Row -> bool {
    row => RecidOf(row) !in gone && exists x :: x in idRows && RecidOf(x) == RecidOf(row)
  }

  function StillThere(gone: set<Value>): Row -> bool {
    row => RecidOf(row) !in gone
  }

  /** `{row['recid']: row for row in rows}`. */
  function ById(rows: seq<Row>): map<Value, Row> {
    if rows == [] then map[] else ById(rows[..|rows| - 1])[RecidOf(rows[|rows| - 1]) := rows[|rows| - 1]]
  }

  /** `[by_id[recid] for recid in ids if recid in by_id]`. */
  function InPageOrder(byId: map<Value, Row>, idRows: seq<Row>): seq<Row> {
    if idRows == [] then []
    else (if RecidOf(idRows[0]) in byId then [byId[RecidOf(idRows[0])]] else []) + InPageOrder(byId, idRows[1..])
  }

  function JoinPage(fetched: seq<Row>, idRows: seq<Row>): seq<Row> {
    InPageOrder(ById(fetched), idRows)
  }

  /** Status: each joined row takes the status its page row carries. */
  function WithStatus(rows: seq<Row>, byId: map<Value, Row>): (r: seq<Row>)
    ensures |r| == |rows|
    ensures forall i :: 0 <= i < |rows| && RecidOf(rows[i]) in byId ==>
              r[i] == rows[i]["status" := Cell(byId[RecidOf(rows[i])], "status")]
  {
    seq(|rows|, i requires 0 <= i < |rows| =>
      if RecidOf(rows[i]) in byId then rows[i]["status" := Cell(byId[RecidOf(rows[i])], "status")] else rows[i])
  }

  lemma {:induction false} ByIdHolds(rows: seq<Row>, k: Value)
    ensures k in ById(rows) <==> exists row :: row in rows && RecidOf(row) == k
    ensures k in ById(rows) ==> ById(rows)[k] in rows && RecidOf(ById(rows)[k]) == k
    decreases |rows|
  {
    if rows != [] {
      var n := |rows| - 1;
      ByIdHolds(rows[..n], k);
      assert rows == rows[..n] + [rows[n]];
    }
  }

  /** The status loop never misses a key: a joined row stands on the page under its own recid. */
  lemma {:induction false} JoinedRowsAreOnPage(fetched: seq<Row>, idRows: seq<Row>, row: Row)
    requires row in JoinPage(fetched, idRows)
    ensures row in fetched && RecidOf(row) in ById(idRows)
    decreases |idRows|
  {
    assert idRows == [idRows[0]] + idRows[1..];
    var k := RecidOf(idRows[0]);
    ByIdHolds(fetched, k);
    ByIdHolds(idRows, RecidOf(row));
    if !(k in ById(fetched) && row == ById(fetched)[k]) {
      JoinedRowsAreOnPage(fetched, idRows[1..], row);
      ByIdHolds(idRows[1..], RecidOf(row));
    }
  }

  /** `Status._join_page`: the dictionary of statuses, then the loop that sets `row['status']`. */
  method StatusJoinPage(fetched: seq<Row>, idRows: seq<Row>) returns (rows: seq<Row>)
    ensures rows == WithStatus(JoinPage(fetched, idRows), ById(idRows))
  {
    var joined := JoinPage(fetched, idRows);
    var status := ById(idRows);
    rows := joined;
    for i := 0 to |rows|
      invariant |rows| == |joined|
      invariant forall k :: 0 <= k < i ==> rows[k] == WithStatus(joined, status)[k]
      invariant forall k :: i <= k < |rows| ==> rows[k] == joined[k]
    {
      JoinedRowsAreOnPage(fetched, idRows, joined[i]);
      var row := rows[i]["status" := Cell(status[RecidOf(rows[i])], "status")];
      rows := rows[i := row];
    }
  }

  // The two plans agree.

  /** `full` extends `local`: same recid, and the same cells in the local fields. */
  ghost predicate Extends(local: RecordRow -> Row, full: RecordRow -> Row, fields: set<string>) {
    forall r, f :: f in fields ==> Cell(local(r), f) == Cell(full(r), f)
  }

  ghost predicate CarriesId(local: RecordRow -> Row) {
    forall r :: "recid" in local(r) && local(r)["recid"] == Num(r.id)
  }

  function FindRecord(records: seq<RecordRow>, key: Value): Option<RecordRow> {
    if records == [] then None
    else if Num(records[0].id) == key then Some(records[0])
    else FindRecord(records[1..], key)
  }

  /** The full row of the record a page row stands for. */
  function Lift(records: seq<RecordRow>, full: RecordRow -> Row): Row -> Row {
    row => var r := FindRecord(records, RecidOf(row)); if r.Some? then full(r.value) else row
  }

  lemma {:induction false} FindFinds(records: seq<RecordRow>, r: RecordRow)
    requires DistinctIds(records) && r in records
    ensures FindRecord(records, Num(r.id)) == Some(r)
  {
    assert records == [records[0]] + records[1..];
    if records[0] != r {
      FindFinds(records[1..], r);
    }
  }

  lemma LiftGivesFull(records: seq<RecordRow>, local: RecordRow -> Row, full: RecordRow -> Row, r: RecordRow)
    requires DistinctIds(records) && r in records && CarriesId(local)
    ensures Lift(records, full)(local(r)) == full(r)
  {
    FindFinds(records, r);
    assert RecidOf(local(r)) == Num(r.id);
  }

  lemma {:induction false} ClausesAreSearches(server: Server, fields: set<string>, searches: seq<Search>)
    ensures forall c :: c in Clauses(server, fields, searches) && c.Test? ==> c.search in searches
  {
    if searches != [] {
      ClausesAreSearches(server, fields, searches[1..]);
      assert searches == [searches[0]] + searches[1..];
    }
  }

  /** Filtering by local searches reads local cells only. */
  lemma WhereIsLocal(server: Server, fields: set<string>, localFields: set<string>, page: PageRequest, a: Row, b: Row)
    requires IsLocal(page, localFields) && forall f :: f in localFields ==> Cell(a, f) == Cell(b, f)
    ensures Where(server, fields, page, a) == Where(server, fields, page, b)
  {
    ClausesAreSearches(server, fields, page.searches);
    forall c | c in Clauses(server, fields, page.searches)
      ensures Holds(server, c, a) == Holds(server, c, b)
    {
    }
  }

  lemma {:induction false} OrderIsLocal(server: Server, localFields: set<string>, terms: seq<Sort>, a: Row, b: Row,
                                        c: Row, d: Row)
    requires forall t :: t in terms ==> t.field in localFields
    requires forall f :: f in localFields ==> Cell(a, f) == Cell(c, f) && Cell(b, f) == Cell(d, f)
    ensures RowLeq(server, terms, a, b) == RowLeq(server, terms, c, d)
  {
    if terms != [] {
      assert terms[0] in terms;
      OrderIsLocal(server, localFields, terms[1..], a, b, c, d);
    }
  }

  lemma MatchingLifts(server: Server, fields: set<string>, localFields: set<string>, page: PageRequest,
                      records: seq<RecordRow>, local: RecordRow -> Row, full: RecordRow -> Row)
    requires IsLocal(page, localFields) && Extends(local, full, localFields) && CarriesId(local) && DistinctIds(records)
    ensures Matching(server, fields, page, Map(full, records))
            == Map(Lift(records, full), Matching(server, fields, page, Map(local, records)))
  {
    var w, lift := WhereOf(server, fields, page), Lift(records, full);
    forall r | r in records
      ensures w(local(r)) == w(full(r)) && lift(local(r)) == full(r)
    {
      WhereIsLocal(server, fields, localFields, page, local(r), full(r));
      LiftGivesFull(records, local, full, r);
    }
    FilterOfMap(records, local, full, w, lift);
  }

  /** Every row in an order of the matching rows is the row of some record. */
  lemma OrderedRowsAreLocal(server: Server, fields: set<string>, page: PageRequest, records: seq<RecordRow>,
                            local: RecordRow -> Row, order: seq<Row>, row: Row) returns (r: RecordRow)
    requires multiset(order) == multiset(Matching(server, fields, page, Map(local, records))) && row in order
    ensures r in records && row == local(r)
  {
    assert row in multiset(order);
    r := InMap(local, records, row);
  }

  /** Any order the server may give the local rows is, joined, an order it may give the full join. */
  lemma OrderLifts(server: Server, fields: set<string>, localFields: set<string>, page: PageRequest,
                   records: seq<RecordRow>, local: RecordRow -> Row, full: RecordRow -> Row, order: seq<Row>)
    requires server.Valid() && DistinctIds(records) && "recid" in localFields
    requires IsLocal(page, localFields) && Extends(local, full, localFields) && CarriesId(local)
    requires MayOrder(server, fields, page, Map(local, records), order)
    ensures MayOrder(server, fields, page, Map(full, records), Map(Lift(records, full), order))
  {
    var lift := Lift(records, full);
    var lifted := Map(lift, order);
    MatchingLifts(server, fields, localFields, page, records, local, full);
    MapMultiset(lift, order, Matching(server, fields, page, Map(local, records)));
    var terms := OrderTerms(fields, page);
    forall i, j | 0 <= i < j < |order|
      ensures RowLeq(server, terms, lifted[i], lifted[j])
    {
      var a := OrderedRowsAreLocal(server, fields, page, records, local, order, order[i]);
      var b := OrderedRowsAreLocal(server, fields, page, records, local, order, order[j]);
      LiftGivesFull(records, local, full, a);
      LiftGivesFull(records, local, full, b);
      OrderIsLocal(server, localFields, terms, local(a), local(b), full(a), full(b));
      assert OrderOf(server, terms)(order[i], order[j]);
    }
  }

  lemma WindowMaps(lift: Row -> Row, order: seq<Row>, page: PageRequest)
    ensures Map(lift, Window(order, page)) == Window(Map(lift, order), page)
  {
  }

  /** A local page of rows is, joined, a page the full read may return, with the same total. */
  lemma ReadLifts(server: Server, fields: set<string>, localFields: set<string>, page: PageRequest,
                  records: seq<RecordRow>, local: RecordRow -> Row, full: RecordRow -> Row, idRows: seq<Row>,
                  total: nat)
    requires server.Valid() && DistinctIds(records) && "recid" in localFields
    requires IsLocal(page, localFields) && Extends(local, full, localFields) && CarriesId(local)
    requires MayRead(server, fields, page, Map(local, records), idRows, total)
    ensures MayRead(server, fields, page, Map(full, records), Map(Lift(records, full), idRows), total)
  {
    var order :| MayOrder(server, fields, page, Map(local, records), order) && idRows == Window(order, page);
    OrderLifts(server, fields, localFields, page, records, local, full, order);
    WindowMaps(Lift(records, full), order, page);
    MatchingLifts(server, fields, localFields, page, records, local, full);
  }

  /** Every row of `idRows` is the local row of some record. */
  ghost predicate LocalRowsOf(records: seq<RecordRow>, local: RecordRow -> Row, idRows: seq<Row>) {
    forall row :: row in idRows ==> exists r :: r in records && row == local(r)
  }

  lemma WindowMembers(order: seq<Row>, page: PageRequest, row: Row)
    requires row in Window(order, page)
    ensures row in order
  {
  }

  lemma ReadGivesLocalRows(server: Server, fields: set<string>, page: PageRequest, records: seq<RecordRow>,
                           local: RecordRow -> Row, idRows: seq<Row>, total: nat)
    requires MayRead(server, fields, page, Map(local, records), idRows, total)
    ensures LocalRowsOf(records, local, idRows)
  {
    var order :| MayOrder(server, fields, page, Map(local, records), order) && idRows == Window(order, page);
    forall row | row in idRows
      ensures exists r :: r in records && row == local(r)
    {
      WindowMembers(order, page, row);
      var r := OrderedRowsAreLocal(server, fields, page, records, local, order, row);
    }
  }

  lemma JoinCarriesId(db: Db, r: RecordRow)
    ensures RecidOf(JoinRow(db, r)) == Num(r.id)
  {
  }

  lemma FetchedAre(db: Db, gone: set<Value>, idRows: seq<Row>, fetched: seq<Row>, row: Row)
    requires MayFetch(db, gone, idRows, fetched)
    ensures row in fetched <==> row in Map(JoinOf(db), db.records) && Fetchable(gone, idRows)(row)
  {
    assert row in fetched <==> row in multiset(fetched);
  }

  lemma JoinedRowIs(db: Db, row: Row, r: RecordRow)
    requires db.Valid() && r in db.records && row in Map(JoinOf(db), db.records) && RecidOf(row) == Num(r.id)
    ensures row == JoinRow(db, r)
  {
    var m :| 0 <= m < |db.records| && Map(JoinOf(db), db.records)[m] == row;
    JoinCarriesId(db, db.records[m]);
  }

  /**
   The dictionary finds, for a record of the page that is still there, its joined row, and nothing for a deleted one.
   */
  lemma FetchedRowIsJoined(db: Db, gone: set<Value>, idRows: seq<Row>, fetched: seq<Row>, row: Row, r: RecordRow)
    requires db.Valid() && MayFetch(db, gone, idRows, fetched)
    requires row in idRows && r in db.records && RecidOf(row) == Num(r.id)
    ensures Num(r.id) in ById(fetched) <==> Num(r.id) !in gone
    ensures Num(r.id) !in gone ==> ById(fetched)[Num(r.id)] == JoinRow(db, r)
  {
    ByIdHolds(fetched, Num(r.id));
    if Num(r.id) in ById(fetched) {
      var found := ById(fetched)[Num(r.id)];
      FetchedAre(db, gone, idRows, fetched, found);
      JoinedRowIs(db, found, r);
    }
    if Num(r.id) !in gone {
      var joined := JoinRow(db, r);
      JoinCarriesId(db, r);
      var k :| 0 <= k < |db.records| && db.records[k] == r;
      assert Map(JoinOf(db), db.records)[k] == joined;
      FetchedAre(db, gone, idRows, fetched, joined);
    }
  }

  lemma {:induction false} InOrderIsMap(byId: map<Value, Row>, idRows: seq<Row>, f: Row -> Row, p: Row -> bool)
    requires forall row :: row in idRows ==>
               (RecidOf(row) in byId <==> p(row)) && (p(row) ==> byId[RecidOf(row)] == f(row))
    ensures InPageOrder(byId, idRows) == Map(f, Filter(idRows, p))
  {
    if idRows != [] {
      assert idRows == [idRows[0]] + idRows[1..];
      InOrderIsMap(byId, idRows[1..], f, p);
      if p(idRows[0]) {
        MapCons(f, idRows[0], Filter(idRows[1..], p));
      }
    }
  }

  /**
   Joining a page gives the joined row of each of its records that is still there, in page order, whatever order the
   join came in.
   */
  lemma JoinPageIsLift(db: Db, gone: set<Value>, local: RecordRow -> Row, idRows: seq<Row>, fetched: seq<Row>)
    requires db.Valid() && CarriesId(local) && MayFetch(db, gone, idRows, fetched)
    requires LocalRowsOf(db.records, local, idRows)
    ensures JoinPage(fetched, idRows) == Map(Lift(db.records, JoinOf(db)), Filter(idRows, StillThere(gone)))
  {
    var lift, still := Lift(db.records, JoinOf(db)), StillThere(gone);
    forall row | row in idRows
      ensures RecidOf(row) in ById(fetched) <==> still(row)
      ensures still(row) ==> ById(fetched)[RecidOf(row)] == lift(row)
    {
      var r :| r in db.records && row == local(r);
      assert local(r)["recid"] == Num(r.id);
      FetchedRowIsJoined(db, gone, idRows, fetched, row, r);
      LiftGivesFull(db.records, local, JoinOf(db), r);
    }
    InOrderIsMap(ById(fetched), idRows, lift, still);
  }

  /** Leaving rows out before or after lifting is the same: lifting keeps the recid. */
  lemma {:induction false} LiftKeepsThere(records: seq<RecordRow>, local: RecordRow -> Row, full: RecordRow -> Row,
                                          gone: set<Value>, idRows: seq<Row>)
    requires DistinctIds(records) && CarriesId(local) && CarriesId(full) && LocalRowsOf(records, local, idRows)
    ensures Map(Lift(records, full), Filter(idRows, StillThere(gone)))
            == Filter(Map(Lift(records, full), idRows), StillThere(gone))
  {
    if idRows != [] {
      var row, rest, lift, still := idRows[0], idRows[1..], Lift(records, full), StillThere(gone);
      assert idRows == [row] + rest && row in idRows;
      var r :| r in records && row == local(r);
      assert local(r)["recid"] == Num(r.id) == full(r)["recid"];
      LiftGivesFull(records, local, full, r);
      assert forall x :: x in rest ==> x in idRows;
      LiftKeepsThere(records, local, full, gone, rest);
      MapCons(lift, row, rest);
      FilterCons(row, rest, still);
      FilterCons(lift(row), Map(lift, rest), still);
      if still(row) {
        MapCons(lift, row, Filter(rest, still));
      }
    }
  }

  lemma LocalExtends(db: Db, down: seq<int>)
    ensures CarriesId(LocalOf()) && Extends(LocalOf(), JoinOf(db), LOCAL_FIELDS)
    ensures CarriesId(StatusLocalOf(down)) && Extends(StatusLocalOf(down), StatusJoinOf(db, down), STATUS_LOCAL_FIELDS)
  {
  }

  lemma StatusOfLocalRow(db: Db, down: seq<int>, row: Row, r: RecordRow)
    requires db.Valid() && r in db.records && RecidOf(row) == Num(r.id)
    requires exists o :: o in db.records && row == StatusLocalOf(down)(o)
    ensures Cell(row, "status") == StatusText(down, r)
  {
    LocalExtends(db, down);
    var o :| o in db.records && row == StatusLocalOf(down)(o);
    assert StatusLocalOf(down)(o)["recid"] == Num(o.id);
  }

  lemma StatusRowsAreKeyed(db: Db, down: seq<int>, idRows: seq<Row>, row: Row, r: RecordRow)
    requires db.Valid() && r in db.records && LocalRowsOf(db.records, StatusLocalOf(down), idRows)
    requires row in idRows && RecidOf(row) == Num(r.id)
    ensures Num(r.id) in ById(idRows) && Cell(ById(idRows)[Num(r.id)], "status") == StatusText(down, r)
  {
    ByIdHolds(idRows, Num(r.id));
    var found := ById(idRows)[Num(r.id)];
    StatusOfLocalRow(db, down, found, r);
  }

  lemma StatusPageIsLift(db: Db, gone: set<Value>, down: seq<int>, idRows: seq<Row>, fetched: seq<Row>)
    requires db.Valid() && MayFetch(db, gone, idRows, fetched)
    requires LocalRowsOf(db.records, StatusLocalOf(down), idRows)
    ensures WithStatus(JoinPage(fetched, idRows), ById(idRows))
            == Map(Lift(db.records, StatusJoinOf(db, down)), Filter(idRows, StillThere(gone)))
  {
    LocalExtends(db, down);
    var local := StatusLocalOf(down);
    JoinPageIsLift(db, gone, local, idRows, fetched);
    var joined, there := JoinPage(fetched, idRows), Filter(idRows, StillThere(gone));
    var lifted := Map(Lift(db.records, StatusJoinOf(db, down)), there);
    forall i | 0 <= i < |there|
      ensures RecidOf(joined[i]) in ById(idRows) && WithStatus(joined, ById(idRows))[i] == lifted[i]
    {
      var row := there[i];
      assert row in there && row in idRows;
      var r :| r in db.records && row == local(r);
      LiftGivesFull(db.records, local, JoinOf(db), r);
      LiftGivesFull(db.records, local, StatusJoinOf(db, down), r);
      JoinCarriesId(db, r);
      assert local(r)["recid"] == Num(r.id);
      StatusRowsAreKeyed(db, down, idRows, row, r);
    }
  }

  lemma {:induction false} NoneGone(rows: seq<Row>)
    ensures Filter(rows, StillThere({})) == rows
  {
    if rows != [] {
      NoneGone(rows[1..]);
    }
  }

  lemma FullSourceIsKeyed(db: Db, full: RecordRow -> Row)
    requires db.Valid() && CarriesId(full)
    ensures KeyedRows(Map(full, db.records))
  {
    var source := Map(full, db.records);
    forall i | 0 <= i < |source|
      ensures "recid" in source[i] && source[i]["recid"] == Num(db.records[i].id)
    {
      assert source[i] == full(db.records[i]);
    }
  }

  /** Two answers to the same read differ at most in how ties are broken; under a limit they do not differ. */
  ghost predicate SameUpToTies(server: Server, page: PageRequest, x: seq<Row>, y: seq<Row>, fields: set<string>) {
    && (page.limit.Some? ==> x == y)
    && multiset(x) == multiset(y) && |x| == |y|
    && forall i :: 0 <= i < |x| ==> Tied(OrderOf(server, OrderTerms(fields, page)), x[i], y[i])
  }

  lemma ReadsAgree(server: Server, fields: set<string>, page: PageRequest, source: seq<Row>,
                   x: seq<Row>, tx: nat, y: seq<Row>, ty: nat)
    requires server.Valid() && KeyedRows(source)
    requires MayRead(server, fields, page, source, x, tx) && MayRead(server, fields, page, source, y, ty)
    ensures SameUpToTies(server, page, x, y, fields) && tx == ty
  {
    var terms := OrderTerms(fields, page);
    OrderIsPreorder(server, terms);
    if page.limit.Some? {
      LimitedSelectIsUnique(server, fields, page, source, x, y);
      assert forall r :: RowLeq(server, terms, r, r) by {
        forall r { RowLeqTotal(server, terms, r, r); }
      }
    } else {
      SortedUpToTies(x, y, OrderOf(server, terms));
    }
  }

  /** What the fast path answers, against the full join of `source`: `whole` without the rows deleted on the way. */
  ghost predicate FastPathAgrees(server: Server, fields: set<string>, page: PageRequest, source: seq<Row>,
                                 gone: set<Value>, rows: seq<Row>, total: nat, whole: seq<Row>) {
    && MayRead(server, fields, page, source, whole, total)
    && rows == Filter(whole, StillThere(gone)) && (gone == {} ==> rows == whole)
    && forall full, fullTotal :: MayRead(server, fields, page, source, full, fullTotal) ==>
         SameUpToTies(server, page, whole, full, fields) && total == fullTotal
  }

  /**
   Fast path of the records table. For a page that searches and sorts only by local fields, paging the record keys and
   then joining the page gives, but for records deleted between the two, rows and a total that the full join may give;
   and against any answer of the full join the total is the same, the rows are identical under a limit and otherwise
   differ only in the order of ties.
   */
  lemma RecordsFastPath(server: Server, db: Db, page: PageRequest, gone: set<Value>, idRows: seq<Row>, total: nat,
                        fetched: seq<Row>) returns (whole: seq<Row>)
    requires server.Valid() && db.Valid() && IsLocal(page, LOCAL_FIELDS)
    requires MayRead(server, RECORD_FIELDS, page, Map(LocalOf(), db.records), idRows, total)
    requires MayFetch(db, gone, idRows, fetched)
    ensures FastPathAgrees(server, RECORD_FIELDS, page, Map(JoinOf(db), db.records), gone, JoinPage(fetched, idRows),
                           total, whole)
  {
    var local, join := LocalOf(), JoinOf(db);
    whole := Map(Lift(db.records, join), idRows);
    LocalExtends(db, []);
    JoinedCarryIds(db, []);
    ReadGivesLocalRows(server, RECORD_FIELDS, page, db.records, local, idRows, total);
    ReadLifts(server, RECORD_FIELDS, LOCAL_FIELDS, page, db.records, local, join, idRows, total);
    JoinPageIsLift(db, gone, local, idRows, fetched);
    LiftKeepsThere(db.records, local, join, gone, idRows);
    NoneGone(whole);
    FullReadsAgree(server, RECORD_FIELDS, page, db, join, whole, total);
  }

  lemma JoinedCarryIds(db: Db, down: seq<int>)
    ensures CarriesId(JoinOf(db)) && CarriesId(StatusJoinOf(db, down))
  {
  }

  lemma FullReadsAgree(server: Server, fields: set<string>, page: PageRequest, db: Db, join: RecordRow -> Row,
                       whole: seq<Row>, total: nat)
    requires server.Valid() && db.Valid() && CarriesId(join)
    requires MayRead(server, fields, page, Map(join, db.records), whole, total)
    ensures forall full, fullTotal :: MayRead(server, fields, page, Map(join, db.records), full, fullTotal) ==>
              SameUpToTies(server, page, whole, full, fields) && total == fullTotal
  {
    var source := Map(join, db.records);
    FullSourceIsKeyed(db, join);
    forall full, fullTotal | MayRead(server, fields, page, source, full, fullTotal)
      ensures SameUpToTies(server, page, whole, full, fields) && total == fullTotal
    {
      ReadsAgree(server, fields, page, source, whole, total, full, fullTotal);
    }
  }

  /** The same for the status table and any snapshot of down ids, with status as one more local field. */
  lemma StatusFastPath(server: Server, db: Db, down: seq<int>, page: PageRequest, gone: set<Value>, idRows: seq<Row>,
                       total: nat, fetched: seq<Row>) returns (whole: seq<Row>)
    requires server.Valid() && db.Valid() && IsLocal(page, STATUS_LOCAL_FIELDS)
    requires MayRead(server, STATUS_FIELDS, page, Map(StatusLocalOf(down), db.records), idRows, total)
    requires MayFetch(db, gone, idRows, fetched)
    ensures FastPathAgrees(server, STATUS_FIELDS, page, Map(StatusJoinOf(db, down), db.records), gone,
                           WithStatus(JoinPage(fetched, idRows), ById(idRows)), total, whole)
  {
    var local, join := StatusLocalOf(down), StatusJoinOf(db, down);
    whole := Map(Lift(db.records, join), idRows);
    LocalExtends(db, down);
    JoinedCarryIds(db, down);
    ReadGivesLocalRows(server, STATUS_FIELDS, page, db.records, local, idRows, total);
    ReadLifts(server, STATUS_FIELDS, STATUS_LOCAL_FIELDS, page, db.records, local, join, idRows, total);
    StatusPageIsLift(db, gone, down, idRows, fetched);
    LiftKeepsThere(db.records, local, join, gone, idRows);
    NoneGone(whole);
    FullReadsAgree(server, STATUS_FIELDS, page, db, join, whole, total);
  }
}
