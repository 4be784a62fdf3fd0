/** What the rows of the records and status tables show. */
module RecordRows {
  import opened Common
  import opened Grid
  import opened GridRows
  import opened RecordsTable

  /** Every column of the row is that of the record, or of the row its foreign key names. */
  ghost predicate Shows(db: Db, row: Row, r: RecordRow)
    requires db.Valid() && r in db.records
  {
    var s := db.rrsets[r.rrsetId];
    && Cell(row, "recid") == Num(r.id) && Cell(row, "content") == Text(r.content)
    && Cell(row, "weight") == Num(r.weight)
    && Cell(row, "disabled") == Num(if r.disabled then 1 else 0)
    && Cell(row, "monitor") == Text(db.monitors[r.monitorId]) && Cell(row, "view") == Text(db.views[r.viewId])
    && Cell(row, "name") == Text(s.name) && Cell(row, "ttl") == Num(s.ttl)
    && Cell(row, "domain") == Text(db.domains[s.domainId]) && Cell(row, "name_type") == Text(db.types[s.typeValue])
    && Cell(row, "policy") == Text(db.routings[s.routingId])
  }

  /** Every row of a records page shows one of the records. */
  lemma RecordsPageShows(server: Server, db: Db, page: PageRequest, rows: seq<Row>, total: nat, i: nat)
      returns (r: RecordRow)
    requires db.Valid() && i < |rows|
    requires MayRead(server, RECORD_FIELDS, page, Map(JoinOf(db), db.records), rows, total)
    ensures r in db.records && Shows(db, rows[i], r)
  {
    PageRowIsSource(server, RECORD_FIELDS, page, Map(JoinOf(db), db.records), rows, total, i);
    r := InMap(JoinOf(db), db.records, rows[i]);
    JoinRowShows(db, r);
  }

  lemma JoinRowShows(db: Db, r: RecordRow)
    requires db.Valid() && r in db.records
    ensures Shows(db, JoinRow(db, r), r)
  {
  }

  /** Every row of a status page shows one of the records, Off exactly if it is disabled or its id is down. */
  lemma StatusPageShows(server: Server, db: Db, down: seq<int>, page: PageRequest, rows: seq<Row>, total: nat, i: nat)
      returns (r: RecordRow)
    requires db.Valid() && i < |rows|
    requires MayRead(server, STATUS_FIELDS, page, Map(StatusJoinOf(db, down), db.records), rows, total)
    ensures r in db.records && Shows(db, rows[i], r)
    ensures Cell(rows[i], "status") == Text(if r.disabled || r.id in down then "Off" else "On")
  {
    PageRowIsSource(server, STATUS_FIELDS, page, Map(StatusJoinOf(db, down), db.records), rows, total, i);
    r := InMap(StatusJoinOf(db, down), db.records, rows[i]);
    StatusRowShows(db, down, r);
  }

  lemma StatusRowShows(db: Db, down: seq<int>, r: RecordRow)
    requires db.Valid() && r in db.records
    ensures Shows(db, StatusJoinOf(db, down)(r), r)
    ensures Cell(StatusJoinOf(db, down)(r), "status") == Text(if r.disabled || r.id in down then "Off" else "On")
  {
    JoinRowShows(db, r);
  }

  /** A page takes the fast path exactly when every field it names is a column of the records table itself. */
  lemma FastPathPages(page: PageRequest)
    ensures IsLocal(page, LOCAL_FIELDS)
            <==> && (forall i :: 0 <= i < |page.searches| ==>
                       page.searches[i].field in {"recid", "disabled", "weight", "content"})
                 && (forall i :: 0 <= i < |page.sorts| ==>
                       page.sorts[i].field in {"recid", "disabled", "weight", "content"})
    ensures IsLocal(page, STATUS_LOCAL_FIELDS)
            <==> && (forall i :: 0 <= i < |page.searches| ==>
                       page.searches[i].field in {"recid", "disabled", "weight", "content", "status"})
                 && (forall i :: 0 <= i < |page.sorts| ==>
                       page.sorts[i].field in {"recid", "disabled", "weight", "content", "status"})
  {
    assert forall i :: 0 <= i < |page.searches| ==> page.searches[i] in page.searches;
    assert forall i :: 0 <= i < |page.sorts| ==> page.sorts[i] in page.sorts;
  }
}
