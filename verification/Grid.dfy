/** The grid read pipeline: search, sort and paging clauses, and what the server may answer to them. */
module Grid {
  import opened Common
  import opened Ordering

  datatype Value = Num(n: int) | Text(s: string)

  type Row = map<string, Value>

  datatype Search = Search(field: string, kind: string, operator: string, value: string)

  datatype Sort = Sort(field: string, desc: bool)

  datatype PageRequest = PageRequest(searches: seq<Search>, orLogic: bool, sorts: seq<Sort>,
                                     limit: Option<nat>, offset: Option<nat>)

  /**
   What the server and Python's conversions decide: whether a search value converts (a value that does not matches
   nothing), whether a converted search holds of a cell, and how cells of a column compare.
   */
  datatype Server = Server(converts: Search -> bool, holds: (Search, Value) -> bool,
                           leq: (string, Value, Value) -> bool)
  {
    /** Every column is ordered by a total preorder; recid is a number. */
    ghost predicate Valid() {
      && (forall f, a, b :: leq(f, a, b) || leq(f, b, a))
      && (forall f, a, b, c :: leq(f, a, b) && leq(f, b, c) ==> leq(f, a, c))
      && (forall a: int, b: int :: leq("recid", Num(a), Num(b)) <==> a <= b)
    }
  }

  /** A whitelisted column is always there; the default is never reached for one. */
  function Cell(row: Row, field: string): Value {
    if field in row then row[field] else Text("")
  }

  // The WHERE clause.

  predicate KnownOperator(kind: string, operator: string) {
    (kind == "text" && operator in {"is", "begins", "contains", "ends"})
    || (kind == "int" && operator in {"is", "in", "not in", "between"})
    || (kind == "date" && operator in {"is", "between"})
  }

  datatype Condition = NoMatch | Test(search: Search)

  /** None when the search type or operator is unknown: the clause is dropped. */
  function SearchClause(server: Server, fields: set<string>, search: Search): Option<Condition> {
    if !KnownOperator(search.kind, search.operator) then None
    else if search.field !in fields || !server.converts(search) then Some(NoMatch)
    else Some(Test(search))
  }

  function Clauses(server: Server, fields: set<string>, searches: seq<Search>): seq<Condition> {
    if searches == [] then []
    else
      var first := SearchClause(server, fields, searches[0]);
      (if first.Some? then [first.value] else []) + Clauses(server, fields, searches[1..])
  }

  predicate Holds(server: Server, condition: Condition, row: Row) {
    condition.Test? && server.holds(condition.search, Cell(row, condition.search.field))
  }

  /** The WHERE clause: no usable clause keeps everything, except under OR where it matches nothing. */
  predicate Where(server: Server, fields: set<string>, page: PageRequest, row: Row) {
    var clauses := Clauses(server, fields, page.searches);
    if clauses == [] then !(page.searches != [] && page.orLogic)
    else if page.orLogic then exists c :: c in clauses && Holds(server, c, row)
    else forall c :: c in clauses ==> Holds(server, c, row)
  }

  function WhereOf(server: Server, fields: set<string>, page: PageRequest): Row -> bool {
    row => Where(server, fields, page, row)
  }

  function Matching(server: Server, fields: set<string>, page: PageRequest, source: seq<Row>): seq<Row> {
    Filter(source, WhereOf(server, fields, page))
  }

  // The ORDER BY clause.

  /** The known sort terms; a limited page without a recid term gets one appended as tiebreaker. */
  function OrderTerms(fields: set<string>, page: PageRequest): seq<Sort> {
    var sorts := Filter(page.sorts, (s: Sort) => s.field in fields);
    if page.limit.Some? && !exists s :: s in sorts && s.field == "recid" then sorts + [Sort("recid", false)] else sorts
  }

  predicate TermLeq(server: Server, term: Sort, a: Row, b: Row) {
    if term.desc then server.leq(term.field, Cell(b, term.field), Cell(a, term.field))
    else server.leq(term.field, Cell(a, term.field), Cell(b, term.field))
  }

  /** Lexicographic over the terms. */
  predicate RowLeq(server: Server, terms: seq<Sort>, a: Row, b: Row) {
    terms == []
    || (TermLeq(server, terms[0], a, b) && (TermLeq(server, terms[0], b, a) ==> RowLeq(server, terms[1..], a, b)))
  }

  function OrderOf(server: Server, terms: seq<Sort>): (Row, Row) -> bool {
    (a, b) => RowLeq(server, terms, a, b)
  }

  // The answer.

  /** LIMIT and OFFSET. */
  function Window<T>(s: seq<T>, page: PageRequest): seq<T> {
    if page.limit.None? then s
    else
      var start := Min(if page.offset.Some? then page.offset.value else 0, |s|);
      Take(s[start..], page.limit.value)
  }

  /** `order` is one of the orders the server may produce: the matching rows, sorted by the terms, ties any way. */
  ghost predicate MayOrder(server: Server, fields: set<string>, page: PageRequest, source: seq<Row>, order: seq<Row>) {
    multiset(order) == multiset(Matching(server, fields, page, source))
    && SortedBy(order, OrderOf(server, OrderTerms(fields, page)))
  }

  ghost predicate MaySelect(server: Server, fields: set<string>, page: PageRequest, source: seq<Row>, rows: seq<Row>) {
    exists order :: MayOrder(server, fields, page, source, order) && rows == Window(order, page)
  }

  /** The total: the row count of an unpaged read, what the page decides, or else the second COUNT query. */
  function Total(server: Server, fields: set<string>, page: PageRequest, source: seq<Row>, rows: seq<Row>): nat {
    if page.limit.None? || page.offset.None? then |rows|
    else if |rows| < page.limit.value && (rows != [] || page.offset.value == 0) then page.offset.value + |rows|
    else |Matching(server, fields, page, source)|
  }

  /** `_read`: one select and, when the page cannot decide it, one count. */
  ghost predicate MayRead(server: Server, fields: set<string>, page: PageRequest, source: seq<Row>,
                          rows: seq<Row>, total: nat) {
    MaySelect(server, fields, page, source, rows) && total == Total(server, fields, page, source, rows)
  }

  // Order facts.

  lemma {:induction false} RowLeqTotal(server: Server, terms: seq<Sort>, a: Row, b: Row)
    requires server.Valid()
    ensures RowLeq(server, terms, a, b) || RowLeq(server, terms, b, a)
  {
    if terms != [] {
      RowLeqTotal(server, terms[1..], a, b);
    }
  }

  lemma {:induction false} RowLeqTransitive(server: Server, terms: seq<Sort>, a: Row, b: Row, c: Row)
    requires server.Valid() && RowLeq(server, terms, a, b) && RowLeq(server, terms, b, c)
    ensures RowLeq(server, terms, a, c)
  {
    if terms != [] && TermLeq(server, terms[0], c, a) {
      RowLeqTransitive(server, terms[1..], a, b, c);
    }
  }

  lemma OrderIsPreorder(server: Server, terms: seq<Sort>)
    requires server.Valid()
    ensures TotalPreorder(OrderOf(server, terms))
  {
    forall a: Row, b: Row
      ensures RowLeq(server, terms, a, b) || RowLeq(server, terms, b, a)
    {
      RowLeqTotal(server, terms, a, b);
    }
    forall a: Row, b: Row, c: Row | RowLeq(server, terms, a, b) && RowLeq(server, terms, b, c)
      ensures RowLeq(server, terms, a, c)
    {
      RowLeqTransitive(server, terms, a, b, c);
    }
  }

  /** Every page has an answer, so what is proved of all answers is not vacuous. */
  lemma ReadExists(server: Server, fields: set<string>, page: PageRequest, source: seq<Row>)
      returns (rows: seq<Row>, total: nat)
    requires server.Valid()
    ensures MayRead(server, fields, page, source, rows, total)
  {
    var matching, leq := Matching(server, fields, page, source), OrderOf(server, OrderTerms(fields, page));
    OrderIsPreorder(server, OrderTerms(fields, page));
    SortPermutes(matching, leq);
    SortSorts(matching, leq);
    var order := SortBy(matching, leq);
    assert MayOrder(server, fields, page, source, order);
    rows := Window(order, page);
    total := Total(server, fields, page, source, rows);
  }

  lemma {:induction false} TiesAgreeOn(server: Server, terms: seq<Sort>, a: Row, b: Row, i: nat)
    requires i < |terms| && RowLeq(server, terms, a, b) && RowLeq(server, terms, b, a)
    ensures TermLeq(server, terms[i], a, b) && TermLeq(server, terms[i], b, a)
  {
    if i > 0 {
      TiesAgreeOn(server, terms[1..], a, b, i - 1);
    }
  }

  /** Every row has its own recid. */
  ghost predicate KeyedRows(source: seq<Row>) {
    && (forall i :: 0 <= i < |source| ==> "recid" in source[i] && source[i]["recid"].Num?)
    && (forall i, j :: 0 <= i < j < |source| ==> source[i]["recid"] != source[j]["recid"])
  }

  lemma KeyDecides(source: seq<Row>, a: Row, b: Row)
    requires KeyedRows(source) && a in source && b in source && Cell(a, "recid") == Cell(b, "recid")
    ensures a == b
  {
  }

  /** Under a limit no two rows tie, so the order is determined. */
  lemma LimitedOrderIsUnique(server: Server, fields: set<string>, page: PageRequest, source: seq<Row>,
                             x: seq<Row>, y: seq<Row>)
    requires server.Valid() && KeyedRows(source) && page.limit.Some?
    requires MayOrder(server, fields, page, source, x) && MayOrder(server, fields, page, source, y)
    ensures x == y
  {
    var terms := OrderTerms(fields, page);
    var known := Filter(page.sorts, (s: Sort) => s.field in fields);
    var t :| t in terms && t.field == "recid";
    var k :| 0 <= k < |terms| && terms[k] == t;
    forall i, j | 0 <= i < |x| && 0 <= j < |x|
      && RowLeq(server, terms, x[i], x[j]) && RowLeq(server, terms, x[j], x[i])
      ensures x[i] == x[j]
    {
      TiesAgreeOn(server, terms, x[i], x[j], k);
      assert x[i] in multiset(x) && x[j] in multiset(x);
      assert x[i] in source && x[j] in source;
      KeyDecides(source, x[i], x[j]);
    }
    SortedIsUnique(x, y, OrderOf(server, terms));
  }

  lemma LimitedSelectIsUnique(server: Server, fields: set<string>, page: PageRequest, source: seq<Row>,
                              x: seq<Row>, y: seq<Row>)
    requires server.Valid() && KeyedRows(source) && page.limit.Some?
    requires MaySelect(server, fields, page, source, x) && MaySelect(server, fields, page, source, y)
    ensures x == y
  {
    var a :| MayOrder(server, fields, page, source, a) && x == Window(a, page);
    var b :| MayOrder(server, fields, page, source, b) && y == Window(b, page);
    LimitedOrderIsUnique(server, fields, page, source, a, b);
  }

  /** A page with limit and offset reports the number of matching rows, whether or not COUNT ran. */
  lemma PagedTotalIsExact(server: Server, fields: set<string>, page: PageRequest, source: seq<Row>,
                          rows: seq<Row>, total: nat)
    requires page.limit.Some? && page.offset.Some? && MayRead(server, fields, page, source, rows, total)
    ensures total == |Matching(server, fields, page, source)|
  {
    var order :| MayOrder(server, fields, page, source, order) && rows == Window(order, page);
    assert |order| == |multiset(order)| == |multiset(Matching(server, fields, page, source))|;
  }

  function PageAt(page: PageRequest, size: nat, i: nat): PageRequest {
    page.(limit := Some(size), offset := Some(i * size))
  }

  function Concat(pages: seq<seq<Row>>): seq<Row> {
    if pages == [] then [] else Concat(pages[..|pages| - 1]) + pages[|pages| - 1]
  }

  lemma {:induction false} WindowsTile(order: seq<Row>, page: PageRequest, size: nat, pages: seq<seq<Row>>)
    requires forall i :: 0 <= i < |pages| ==> pages[i] == Window(order, PageAt(page, size, i))
    ensures Concat(pages) == Take(order, |pages| * size)
    decreases |pages|
  {
    if pages != [] {
      var n := |pages| - 1;
      WindowsTile(order, page, size, pages[..n]);
      var start := n * size;
      assert pages[n] == Window(order, PageAt(page, size, n));
      assert pages[n] == Take(order[Min(start, |order|)..], size);
      OneMoreTimes(n, size);
      OnePageMore(order, size, start);
    }
  }

  lemma OnePageMore(order: seq<Row>, size: nat, start: nat)
    ensures Take(order, start + size) == Take(order, start) + Take(order[Min(start, |order|)..], size)
  {
  }

  /** Every page is a window of one and the same order. */
  lemma OnePage(server: Server, fields: set<string>, page: PageRequest, source: seq<Row>, size: nat, i: nat,
                order: seq<Row>, rows: seq<Row>, total: nat)
    requires server.Valid() && KeyedRows(source) && MayOrder(server, fields, PageAt(page, size, 0), source, order)
    requires MayRead(server, fields, PageAt(page, size, i), source, rows, total)
    ensures rows == Window(order, PageAt(page, size, i)) && total == |Matching(server, fields, page, source)|
  {
    var first, p := PageAt(page, size, 0), PageAt(page, size, i);
    SameClauses(server, fields, page, p, source);
    SameClauses(server, fields, page, first, source);
    assert OrderTerms(fields, p) == OrderTerms(fields, first);
    var o :| MayOrder(server, fields, p, source, o) && rows == Window(o, p);
    LimitedOrderIsUnique(server, fields, p, source, o, order);
    PagedTotalIsExact(server, fields, p, source, rows, total);
  }

  /**
   Pages tile the result. Read the pages at offsets 0, L, 2L, ... up to the end, each by its own query that may break
   ties its own way: together they are the matching rows, each once, sorted by the page's terms, and every page
   reports the true match count.
   */
  lemma PagesTile(server: Server, fields: set<string>, page: PageRequest, source: seq<Row>, size: nat,
                  pages: seq<seq<Row>>, totals: seq<nat>)
    requires server.Valid() && KeyedRows(source) && size > 0 && |totals| == |pages| > 0
    requires |pages| * size >= |Matching(server, fields, page, source)|
    requires forall i :: 0 <= i < |pages| ==>
              MayRead(server, fields, PageAt(page, size, i), source, pages[i], totals[i])
    ensures multiset(Concat(pages)) == multiset(Matching(server, fields, page, source))
    ensures SortedBy(Concat(pages), OrderOf(server, OrderTerms(fields, PageAt(page, size, 0))))
    ensures forall i :: 0 <= i < |pages| ==> totals[i] == |Matching(server, fields, page, source)|
  {
    var first := PageAt(page, size, 0);
    assert MayRead(server, fields, first, source, pages[0], totals[0]);
    var order :| MayOrder(server, fields, first, source, order) && pages[0] == Window(order, first);
    SameClauses(server, fields, page, first, source);
    forall i | 0 <= i < |pages|
      ensures pages[i] == Window(order, PageAt(page, size, i)) && totals[i] == |Matching(server, fields, page, source)|
    {
      OnePage(server, fields, page, source, size, i, order, pages[i], totals[i]);
    }
    WindowsTile(order, page, size, pages);
    WholeOrder(order, Matching(server, fields, page, source), |pages| * size);
  }

  lemma WholeOrder(order: seq<Row>, matching: seq<Row>, n: nat)
    requires multiset(order) == multiset(matching) && n >= |matching|
    ensures Take(order, n) == order
  {
    assert |order| == |multiset(order)| == |multiset(matching)| == |matching|;
  }

  /** The WHERE clause depends on the searches only. */
  lemma {:induction false} SameClauses(server: Server, fields: set<string>, p: PageRequest, q: PageRequest,
                                       source: seq<Row>)
    requires p.searches == q.searches && p.orLogic == q.orLogic
    ensures Matching(server, fields, p, source) == Matching(server, fields, q, source)
  {
    if source != [] {
      SameClauses(server, fields, p, q, source[1..]);
    }
  }
}
