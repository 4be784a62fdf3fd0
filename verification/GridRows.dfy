/** What the rows of a page are, said with cells and the server's comparisons alone. */
module GridRows {
  import opened Common
  import opened Ordering
  import opened Grid

  // Which rows match.

  /** The search counts: its type and operator are known. */
  predicate Usable(s: Search) {
    || (s.kind == "text" && s.operator in {"is", "begins", "contains", "ends"})
    || (s.kind == "int" && s.operator in {"is", "in", "not in", "between"})
    || (s.kind == "date" && s.operator in {"is", "between"})
  }

  /** The search holds of the row: its field is exposed, its value converts, and the server finds it true. */
  predicate Hits(server: Server, fields: set<string>, s: Search, row: Row) {
    s.field in fields && server.converts(s) && server.holds(s, Cell(row, s.field))
  }

  /**
   Which rows a page matches. Under AND those of which every usable search holds; under OR those of which some usable
   search holds. So without any usable search all rows match under AND, and under OR only if nothing was searched.
   */
  lemma WhereExactly(server: Server, fields: set<string>, page: PageRequest, row: Row)
    ensures Where(server, fields, page, row)
            <==>
            if page.orLogic then
              page.searches == [] || exists s :: s in page.searches && Usable(s) && Hits(server, fields, s, row)
            else
              forall s :: s in page.searches && Usable(s) ==> Hits(server, fields, s, row)
  {
    ClausesExactly(server, fields, page.searches, row);
  }

  ghost predicate SomeHolds(server: Server, clauses: seq<Condition>, row: Row) {
    exists c :: c in clauses && Holds(server, c, row)
  }

  ghost predicate AllHold(server: Server, clauses: seq<Condition>, row: Row) {
    forall c :: c in clauses ==> Holds(server, c, row)
  }

  lemma ClauseExactly(server: Server, fields: set<string>, s: Search, row: Row)
    ensures SearchClause(server, fields, s).Some? <==> Usable(s)
    ensures Usable(s) ==> (Holds(server, SearchClause(server, fields, s).value, row) <==> Hits(server, fields, s, row))
  {
  }

  lemma {:induction false} ClausesExactly(server: Server, fields: set<string>, searches: seq<Search>, row: Row)
    ensures var clauses := Clauses(server, fields, searches);
            && (clauses == [] <==> forall s :: s in searches ==> !Usable(s))
            && (SomeHolds(server, clauses, row)
                <==> exists s :: s in searches && Usable(s) && Hits(server, fields, s, row))
            && (AllHold(server, clauses, row)
                <==> forall s :: s in searches && Usable(s) ==> Hits(server, fields, s, row))
  {
    if searches != [] {
      var first, rest := searches[0], searches[1..];
      assert searches == [first] + rest && first in searches;
      ClausesExactly(server, fields, rest, row);
      ClauseExactly(server, fields, first, row);
      var tail := Clauses(server, fields, rest);
      if Usable(first) {
        var c := SearchClause(server, fields, first).value;
        assert Clauses(server, fields, searches) == [c] + tail;
        ConsHolds(server, c, tail, row);
      } else {
        assert Clauses(server, fields, searches) == [] + tail == tail;
      }
    }
  }

  lemma ConsHolds(server: Server, c: Condition, tail: seq<Condition>, row: Row)
    ensures SomeHolds(server, [c] + tail, row) <==> Holds(server, c, row) || SomeHolds(server, tail, row)
    ensures AllHold(server, [c] + tail, row) <==> Holds(server, c, row) && AllHold(server, tail, row)
  {
    assert c in [c] + tail;
    if d :| d in tail && Holds(server, d, row) {
      assert d in [c] + tail;
    }
    assert forall d :: d in tail ==> d in [c] + tail;
  }

  /** Without a limit a page is every matching row once, with that many as its total. */
  lemma UnlimitedPage(server: Server, fields: set<string>, page: PageRequest, source: seq<Row>, rows: seq<Row>,
                      total: nat)
    requires page.limit.None? && MayRead(server, fields, page, source, rows, total)
    ensures multiset(rows) == multiset(Matching(server, fields, page, source)) && total == |rows|
  {
  }

  // In which order.

  /** The cells of `a` may stand before those of `b` in the term's direction. */
  predicate InDirection(server: Server, term: Sort, a: Row, b: Row) {
    if term.desc then server.leq(term.field, Cell(b, term.field), Cell(a, term.field))
    else server.leq(term.field, Cell(a, term.field), Cell(b, term.field))
  }

  /** The cells of the two rows are the same to the server's order. */
  predicate SameCells(server: Server, field: string, a: Row, b: Row) {
    server.leq(field, Cell(a, field), Cell(b, field)) && server.leq(field, Cell(b, field), Cell(a, field))
  }

  /** The sort terms of exposed fields, as requested. */
  function KnownSorts(fields: set<string>, page: PageRequest): seq<Sort> {
    Filter(page.sorts, (s: Sort) => s.field in fields)
  }

  lemma {:induction false} FirstDifferenceDecides(server: Server, terms: seq<Sort>, a: Row, b: Row, k: nat)
    requires k < |terms| && RowLeq(server, terms, a, b)
    requires forall m :: 0 <= m < k ==> SameCells(server, terms[m].field, a, b)
    ensures InDirection(server, terms[k], a, b)
  {
    if k > 0 {
      assert SameCells(server, terms[0].field, a, b);
      assert forall m :: 0 <= m < k - 1 ==> terms[1..][m] == terms[m + 1];
      FirstDifferenceDecides(server, terms[1..], a, b, k - 1);
    }
  }

  /** Any two rows of a page stand in the order of the page's terms. */
  lemma PageIsOrdered(server: Server, fields: set<string>, page: PageRequest, source: seq<Row>, rows: seq<Row>,
                      total: nat, i: nat, j: nat)
    requires MayRead(server, fields, page, source, rows, total) && i < j < |rows|
    ensures RowLeq(server, OrderTerms(fields, page), rows[i], rows[j])
  {
    var order :| MayOrder(server, fields, page, source, order) && rows == Window(order, page);
    var start := WindowStart(order, page);
    assert rows[i] == order[start + i] && rows[j] == order[start + j];
    assert OrderOf(server, OrderTerms(fields, page))(order[start + i], order[start + j]);
  }

  lemma WindowStart(order: seq<Row>, page: PageRequest) returns (start: nat)
    ensures start + |Window(order, page)| <= |order|
    ensures forall i :: 0 <= i < |Window(order, page)| ==> Window(order, page)[i] == order[start + i]
  {
    start := if page.limit.None? then 0 else Min(if page.offset.Some? then page.offset.value else 0, |order|);
  }

  /**
   The order of a page. Of two rows, the earlier one has, in the first requested term in which they differ, the smaller
   cell if the term is ascending and the larger one if it is descending.
   */
  lemma RowsAreSorted(server: Server, fields: set<string>, page: PageRequest, source: seq<Row>, rows: seq<Row>,
                      total: nat, i: nat, j: nat, k: nat)
    requires MayRead(server, fields, page, source, rows, total) && i < j < |rows| && k < |KnownSorts(fields, page)|
    requires forall m :: 0 <= m < k ==> SameCells(server, KnownSorts(fields, page)[m].field, rows[i], rows[j])
    ensures var (term, a, b) := (KnownSorts(fields, page)[k], rows[i], rows[j]);
            if term.desc then server.leq(term.field, Cell(b, term.field), Cell(a, term.field))
            else server.leq(term.field, Cell(a, term.field), Cell(b, term.field))
  {
    PageIsOrdered(server, fields, page, source, rows, total, i, j);
    var terms := OrderTerms(fields, page);
    assert KnownSorts(fields, page) <= terms;
    FirstDifferenceDecides(server, terms, rows[i], rows[j], k);
  }

  predicate RecidBefore(a: Row, b: Row) {
    Cell(a, "recid").Num? && Cell(b, "recid").Num? && Cell(a, "recid").n < Cell(b, "recid").n
  }

  /**
   The tiebreaker. Under a limit, two rows that are the same in every requested term, none of which is recid, stand in
   ascending order of recid.
   */
  lemma TiesByRecid(server: Server, fields: set<string>, page: PageRequest, source: seq<Row>, rows: seq<Row>,
                    total: nat, i: nat, j: nat)
    requires server.Valid() && KeyedRows(source) && page.limit.Some?
    requires MayRead(server, fields, page, source, rows, total) && i < j < |rows|
    requires forall s :: s in KnownSorts(fields, page) ==> s.field != "recid"
    requires forall s :: s in KnownSorts(fields, page) ==> SameCells(server, s.field, rows[i], rows[j])
    ensures RecidBefore(rows[i], rows[j])
  {
    var sorts, terms := KnownSorts(fields, page), OrderTerms(fields, page);
    assert terms == sorts + [Sort("recid", false)];
    PageIsOrdered(server, fields, page, source, rows, total, i, j);
    forall m | 0 <= m < |sorts|
      ensures SameCells(server, terms[m].field, rows[i], rows[j])
    {
      assert sorts[m] in sorts;
    }
    FirstDifferenceDecides(server, terms, rows[i], rows[j], |sorts|);
    RowsAreDifferent(server, fields, page, source, rows, total, i, j);
  }

  /** Every row of a page is a row of the source. */
  lemma PageRowIsSource(server: Server, fields: set<string>, page: PageRequest, source: seq<Row>, rows: seq<Row>,
                        total: nat, i: nat)
    requires MayRead(server, fields, page, source, rows, total) && i < |rows|
    ensures rows[i] in source
  {
    var order :| MayOrder(server, fields, page, source, order) && rows == Window(order, page);
    var start := WindowStart(order, page);
    assert rows[i] == order[start + i] && order[start + i] in multiset(order);
  }

  /** No row of a page is there twice. */
  lemma NoRowTwice(server: Server, fields: set<string>, page: PageRequest, source: seq<Row>, rows: seq<Row>,
                   total: nat, i: nat, j: nat)
    requires KeyedRows(source) && MayRead(server, fields, page, source, rows, total) && i < j < |rows|
    ensures rows[i] != rows[j]
  {
    var order :| MayOrder(server, fields, page, source, order) && rows == Window(order, page);
    var start := WindowStart(order, page);
    OrderHasNoTwins(server, fields, page, source, order, start + i, start + j);
  }

  lemma OrderHasNoTwins(server: Server, fields: set<string>, page: PageRequest, source: seq<Row>, order: seq<Row>,
                        i: nat, j: nat)
    requires KeyedRows(source) && MayOrder(server, fields, page, source, order) && i < j < |order|
    ensures order[i] != order[j]
  {
    FilterIsPart(source, WhereOf(server, fields, page));
    KeyedOnce(source);
    var row := order[i];
    assert row in multiset(order) && multiset(order)[row] <= multiset(source)[row];
    TwiceInOrder(order, i, j);
  }

  /** Two rows of a page have different recids. */
  lemma RowsAreDifferent(server: Server, fields: set<string>, page: PageRequest, source: seq<Row>, rows: seq<Row>,
                         total: nat, i: nat, j: nat)
    requires KeyedRows(source) && MayRead(server, fields, page, source, rows, total) && i < j < |rows|
    ensures Cell(rows[i], "recid").Num? && Cell(rows[j], "recid").Num?
    ensures Cell(rows[i], "recid") != Cell(rows[j], "recid")
  {
    PageRowIsSource(server, fields, page, source, rows, total, i);
    PageRowIsSource(server, fields, page, source, rows, total, j);
    NoRowTwice(server, fields, page, source, rows, total, i, j);
    if Cell(rows[i], "recid") == Cell(rows[j], "recid") {
      KeyDecides(source, rows[i], rows[j]);
    }
  }

  lemma {:induction false} KeyedOnce(source: seq<Row>)
    requires KeyedRows(source)
    ensures forall r :: r in source ==> multiset(source)[r] == 1
  {
    if source != [] {
      var first, rest := source[0], source[1..];
      assert source == [first] + rest;
      KeyedOnce(rest);
      assert first !in rest;
    }
  }

  lemma TwiceInOrder(order: seq<Row>, i: nat, j: nat)
    requires i < j < |order|
    ensures order[i] == order[j] ==> multiset(order)[order[i]] >= 2
  {
    assert order == order[..i] + [order[i]] + order[i + 1..j] + [order[j]] + order[j + 1..];
  }

  /** A limited page without a known sort term has strictly increasing recids. */
  lemma UnsortedPageByRecid(server: Server, fields: set<string>, page: PageRequest, source: seq<Row>, rows: seq<Row>,
                            total: nat)
    requires server.Valid() && KeyedRows(source) && page.limit.Some?
    requires MayRead(server, fields, page, source, rows, total)
    requires forall s :: s in page.sorts ==> s.field !in fields
    ensures forall i, j :: 0 <= i < j < |rows| ==> RecidBefore(rows[i], rows[j])
  {
    assert forall s :: s in KnownSorts(fields, page) ==> false;
    forall i, j | 0 <= i < j < |rows|
      ensures RecidBefore(rows[i], rows[j])
    {
      TiesByRecid(server, fields, page, source, rows, total, i, j);
    }
  }

  /** A limit without an offset reads from the start, and reports the number of rows it read. */
  lemma NoOffsetIsStart(server: Server, fields: set<string>, page: PageRequest, source: seq<Row>, rows: seq<Row>,
                        total: nat)
    requires page.limit.Some? && page.offset.None? && MayRead(server, fields, page, source, rows, total)
    ensures MaySelect(server, fields, page.(offset := Some(0)), source, rows) && total == |rows|
  {
    var order :| MayOrder(server, fields, page, source, order) && rows == Window(order, page);
    var same := page.(offset := Some(0));
    SameClauses(server, fields, page, same, source);
    assert OrderTerms(fields, page) == OrderTerms(fields, same);
    assert MayOrder(server, fields, same, source, order) && rows == Window(order, same);
  }
}
