/**
 `GET /admin/appointments?date=…&status=…&page=…&limit=…`: the appointments matching the
 truthy filters, joined with their service, newest date first and earliest time first within
 a date, one page at a time; `total` counts the matching appointments before the join.
 */
module Listing {
  import opened JsText
  import opened Store
  import opened Admin

  const DefaultLimit := 50

  /** The query string; page and limit as the integers they denote, None when absent. */
  datatype ListQuery = ListQuery(date: Option<string>, status: Option<string>, page: Option<int>, limit: Option<int>)

  datatype ListReply = ListReply(appointments: seq<AppointmentView>, total: nat, page: int, limit: int)

  /** The `WHERE` clause: each filter applies only when its parameter is truthy. */
  predicate Selected(q: ListQuery, a: Appointment) {
    (!Filled(q.date) || a.date == q.date.value) && (!Filled(q.status) || a.status == q.status.value)
  }

  function SelectedBy(q: ListQuery): Appointment -> bool {
    (a: Appointment) => Selected(q, a)
  }

  /** The inner join, row by row in table order: rows whose service is missing are dropped. */
  function JoinAll(services: seq<Service>, rows: seq<Appointment>): (r: seq<AppointmentView>)
    ensures |r| <= |rows|
    ensures (forall i :: 0 <= i < |rows| ==> FindService(services, rows[i].serviceId).Some?) ==> |r| == |rows|
  {
    Collect(rows, JoinedBy(services))
  }

  function JoinedBy(services: seq<Service>): Appointment -> Option<AppointmentView> {
    (a: Appointment) => Joined(services, a)
  }

  /** Every joined row comes from the table and carries its service's name. */
  lemma JoinAllSound(services: seq<Service>, rows: seq<Appointment>, j: int)
    requires 0 <= j < |JoinAll(services, rows)|
    ensures var v := JoinAll(services, rows)[j];
            v.appointment in rows && Joined(services, v.appointment) == Some(v)
  {
    var v := JoinAll(services, rows)[j];
    CollectSound(rows, JoinedBy(services), j);
    var k :| 0 <= k < |rows| && JoinedBy(services)(rows[k]) == Some(v);
    assert Joined(services, rows[k]) == Some(v);
  }

  /** No row that has a service is lost by the join. */
  lemma JoinAllComplete(services: seq<Service>, rows: seq<Appointment>, i: int)
    requires 0 <= i < |rows| && FindService(services, rows[i].serviceId).Some?
    ensures exists j :: 0 <= j < |JoinAll(services, rows)| && JoinAll(services, rows)[j].appointment == rows[i]
  {
    var vs := JoinAll(services, rows);
    CollectComplete(rows, JoinedBy(services), i);
    var v := Joined(services, rows[i]).value;
    assert v in vs;
    var j :| 0 <= j < |vs| && vs[j] == v;
    assert vs[j].appointment == rows[i];
  }

  // ---------- ORDER BY a.appointment_date DESC, a.appointment_time ASC ----------

  /** x may be listed before y: a later date, or the same date and an earlier or equal time. */
  predicate ListedBefore(x: AppointmentView, y: AppointmentView) {
    var dx, dy := x.appointment.date, y.appointment.date;
    LexLt(dy, dx) || (dx == dy && LexLe(x.appointment.time, y.appointment.time))
  }

  predicate InListingOrder(vs: seq<AppointmentView>) {
    forall i, j :: 0 <= i < j < |vs| ==> ListedBefore(vs[i], vs[j])
  }

  lemma ListedBeforeTotal(x: AppointmentView, y: AppointmentView)
    ensures ListedBefore(x, y) || ListedBefore(y, x)
  {
    var dx, dy := x.appointment.date, y.appointment.date;
    LexLeTotal(dx, dy);
    LexLeTotal(x.appointment.time, y.appointment.time);
  }

  lemma ListedBeforeTransitive(x: AppointmentView, y: AppointmentView, z: AppointmentView)
    requires ListedBefore(x, y) && ListedBefore(y, z)
    ensures ListedBefore(x, z)
  {
    var dx, dy, dz := x.appointment.date, y.appointment.date, z.appointment.date;
    if dx == dy && dy == dz {
      LexLeTransitive(x.appointment.time, y.appointment.time, z.appointment.time);
    } else {
      LexLeReflexive(dx);
      LexLeReflexive(dy);
      assert LexLe(dz, dy) && LexLe(dy, dx);
      LexLeTransitive(dz, dy, dx);
      if dz == dx {
        LexLeAntisymmetric(dx, dy);
      }
    }
  }

  /** Puts x before the first row it may precede. */
  function Insert(x: AppointmentView, vs: seq<AppointmentView>): (r: seq<AppointmentView>)
    ensures multiset(r) == multiset(vs) + multiset{x}
    ensures |r| == |vs| + 1
    decreases |vs|
  {
    if vs == [] || ListedBefore(x, vs[0]) then [x] + vs
    else
      assert vs == [vs[0]] + vs[1..];
      [vs[0]] + Insert(x, vs[1..])
  }

  lemma {:induction false} InsertKeepsOrder(x: AppointmentView, vs: seq<AppointmentView>)
    requires InListingOrder(vs)
    ensures InListingOrder(Insert(x, vs))
    decreases |vs|
  {
    if vs == [] {
    } else if ListedBefore(x, vs[0]) {
      PrependKeepsOrder(x, vs);
    } else {
      ListedBeforeTotal(x, vs[0]);
      var tail := vs[1..];
      TailInOrder(vs);
      InsertKeepsOrder(x, tail);
      var rest := Insert(x, tail);
      forall k | 0 <= k < |rest| ensures ListedBefore(vs[0], rest[k]) {
        assert rest[k] in multiset(rest);
        if rest[k] != x {
          assert rest[k] in multiset(tail);
          var m :| 0 <= m < |tail| && tail[m] == rest[k];
          assert vs[m + 1] == tail[m];
        }
      }
      PrependKeepsOrder(vs[0], rest);
    }
  }

  lemma TailInOrder(vs: seq<AppointmentView>)
    requires vs != [] && InListingOrder(vs)
    ensures InListingOrder(vs[1..])
  {
    var tail := vs[1..];
    forall i, j | 0 <= i < j < |tail| ensures ListedBefore(tail[i], tail[j]) {
      assert tail[i] == vs[i + 1] && tail[j] == vs[j + 1];
    }
  }

  /** A row that may precede the head of an ordered listing may precede all of it. */
  lemma PrependKeepsOrder(x: AppointmentView, vs: seq<AppointmentView>)
    requires InListingOrder(vs)
    requires vs == [] || ListedBefore(x, vs[0])
    ensures InListingOrder([x] + vs)
  {
    var r := [x] + vs;
    forall i, j | 0 <= i < j < |r| ensures ListedBefore(r[i], r[j]) {
      if i == 0 {
        if j > 1 { ListedBeforeTransitive(x, vs[0], vs[j - 1]); }
      } else {
        assert r[i] == vs[i - 1] && r[j] == vs[j - 1];
      }
    }
  }

  /** Insertion sort; a row is placed before the rows it ties with that came after it in the table. */
  function SortListing(vs: seq<AppointmentView>): (r: seq<AppointmentView>)
    ensures multiset(r) == multiset(vs)
    ensures |r| == |vs|
    decreases |vs|
  {
    if vs == [] then []
    else
      assert vs == [vs[0]] + vs[1..];
      Insert(vs[0], SortListing(vs[1..]))
  }

  lemma {:induction false} SortListingOrdered(vs: seq<AppointmentView>)
    ensures InListingOrder(SortListing(vs))
    decreases |vs|
  {
    if vs != [] {
      SortListingOrdered(vs[1..]);
      InsertKeepsOrder(vs[0], SortListing(vs[1..]));
    }
  }

  // ---------- LIMIT … OFFSET … ----------

  /** `(page - 1) * limit`. */
  function Offset(page: int, limit: int): (offset: int)
    ensures page == 1 ==> offset == 0
    ensures page >= 1 && limit >= 0 ==> offset >= 0
  {
    (page - 1) * limit
  }

  /** `LIMIT limit OFFSET offset`: a negative offset counts as 0, a negative limit means no limit. */
  function PageOf<T>(rows: seq<T>, limit: int, offset: int): (r: seq<T>)
    ensures limit >= 0 ==> |r| <= limit
    ensures var lo := if offset < 0 then 0 else if offset > |rows| then |rows| else offset;
            && lo + |r| <= |rows| && r == rows[lo..lo + |r|]
            && |r| == (if limit < 0 || lo + limit > |rows| then |rows| - lo else limit)
  {
    var lo := if offset < 0 then 0 else if offset > |rows| then |rows| else offset;
    var hi := if limit < 0 || lo + limit > |rows| then |rows| else lo + limit;
    rows[lo..hi]
  }

  /** Pages 1 to n, one after the other. */
  function FirstPages<T>(rows: seq<T>, limit: int, n: nat): seq<T>
    decreases n
  {
    if n == 0 then [] else FirstPages(rows, limit, n - 1) + PageOf(rows, limit, Offset(n, limit))
  }

  /** Walking the pages from the first loses and repeats nothing: pages 1 to n are the first n * limit rows. */
  lemma {:induction false} PagesTile<T>(rows: seq<T>, limit: nat, n: nat)
    ensures FirstPages(rows, limit, n) == rows[..if n * limit > |rows| then |rows| else n * limit]
    decreases n
  {
    if n > 0 {
      PagesTile(rows, limit, n - 1);
      PagesStep(rows, limit, n);
    }
  }

  /** Page n continues pages 1 to n - 1. */
  lemma PagesStep<T>(rows: seq<T>, limit: nat, n: nat)
    requires n > 0
    requires FirstPages(rows, limit, n - 1) == rows[..if (n - 1) * limit > |rows| then |rows| else (n - 1) * limit]
    ensures FirstPages(rows, limit, n) == rows[..if n * limit > |rows| then |rows| else n * limit]
  {
    var o := (n - 1) * limit;
    OffsetStep(n, limit);
    TileStep(rows, limit, o);
  }

  lemma OffsetStep(n: nat, limit: nat)
    requires n > 0
    ensures Offset(n, limit) == (n - 1) * limit >= 0 && n * limit == (n - 1) * limit + limit
  {
  }

  /** The page at offset o continues the rows before it. */
  lemma TileStep<T>(rows: seq<T>, limit: nat, o: nat)
    ensures rows[..if o > |rows| then |rows| else o] + PageOf(rows, limit, o)
         == rows[..if o + limit > |rows| then |rows| else o + limit]
  {
    var a := if o > |rows| then |rows| else o;
    var b := if o + limit > |rows| then |rows| else o + limit;
    assert PageOf(rows, limit, o) == rows[a..b];
    assert rows[..a] + rows[a..b] == rows[..b];
  }

  // ---------- the handler ----------

  /** The page requested (1 by default) with `limit` rows (50 by default) of the sorted, joined selection. */
  function ListAppointments(db: Db, q: ListQuery): (reply: ListReply)
    ensures reply.page == (if q.page.Some? then q.page.value else 1)
    ensures reply.limit == (if q.limit.Some? then q.limit.value else DefaultLimit)
    ensures InListingOrder(reply.appointments)
    ensures forall i :: 0 <= i < |reply.appointments| ==>
              var v := reply.appointments[i];
              Selected(q, v.appointment) && v.appointment in db.appointments
              && Joined(db.services, v.appointment) == Some(v)
    ensures reply.limit >= 0 ==> |reply.appointments| <= reply.limit
    ensures reply.total == |Where(db.appointments, SelectedBy(q))|
    ensures reply.appointments == PageOf(Sorted(db, q), reply.limit, Offset(reply.page, reply.limit))
  {
    var page := if q.page.Some? then q.page.value else 1;
    var limit := if q.limit.Some? then q.limit.value else DefaultLimit;
    var rows := PageOf(Sorted(db, q), limit, Offset(page, limit));
    PageRowsSelected(db, q, limit, Offset(page, limit));
    SortedPageInOrder(db, q, limit, Offset(page, limit));
    CountIsWhere(db.appointments, SelectedBy(q));
    ListReply(rows, CountWhere(db.appointments, SelectedBy(q)), page, limit)
  }

  /** Every row of the selection, joined and sorted, across all pages. */
  function Sorted(db: Db, q: ListQuery): (r: seq<AppointmentView>)
    ensures multiset(r) == multiset(JoinAll(db.services, Where(db.appointments, SelectedBy(q))))
    ensures InListingOrder(r)
  {
    SortListingOrdered(JoinAll(db.services, Where(db.appointments, SelectedBy(q))));
    SortListing(JoinAll(db.services, Where(db.appointments, SelectedBy(q))))
  }

  lemma SortedPageInOrder(db: Db, q: ListQuery, limit: int, offset: int)
    ensures InListingOrder(PageOf(Sorted(db, q), limit, offset))
  {
    SortListingOrdered(JoinAll(db.services, Where(db.appointments, SelectedBy(q))));
    PageKeepsOrder(Sorted(db, q), limit, offset);
  }

  /** A page of an ordered listing is ordered. */
  lemma PageKeepsOrder(vs: seq<AppointmentView>, limit: int, offset: int)
    requires InListingOrder(vs)
    ensures InListingOrder(PageOf(vs, limit, offset))
  {
    var r := PageOf(vs, limit, offset);
    var lo := if offset < 0 then 0 else if offset > |vs| then |vs| else offset;
    forall i, j | 0 <= i < j < |r| ensures ListedBefore(r[i], r[j]) {
      assert r[i] == vs[lo + i] && r[j] == vs[lo + j];
    }
  }

  /** Each row of a page passes the filters, comes from the table and carries its service's name. */
  lemma PageRowsSelected(db: Db, q: ListQuery, limit: int, offset: int)
    ensures forall i :: 0 <= i < |PageOf(Sorted(db, q), limit, offset)| ==>
              var v := PageOf(Sorted(db, q), limit, offset)[i];
              Selected(q, v.appointment) && v.appointment in db.appointments
              && Joined(db.services, v.appointment) == Some(v)
  {
    var all := Sorted(db, q);
    var good := (v: AppointmentView) => Selected(q, v.appointment) && v.appointment in db.appointments
                                        && Joined(db.services, v.appointment) == Some(v);
    forall i | 0 <= i < |all| ensures good(all[i]) {
      SortedRowSelected(db, q, i);
    }
    PageRowsSatisfy(all, limit, offset, good);
  }

  /** A page holds only rows of the table, so what every row satisfies every page row does. */
  lemma PageRowsSatisfy<T>(rows: seq<T>, limit: int, offset: int, p: T -> bool)
    requires forall i :: 0 <= i < |rows| ==> p(rows[i])
    ensures forall i :: 0 <= i < |PageOf(rows, limit, offset)| ==> p(PageOf(rows, limit, offset)[i])
  {
    forall i | 0 <= i < |PageOf(rows, limit, offset)| ensures p(PageOf(rows, limit, offset)[i]) {
      PageElement(rows, limit, offset, i);
    }
  }

  /** The i-th row of a page is the row i places after the offset. */
  lemma PageElement<T>(rows: seq<T>, limit: int, offset: int, i: int)
    requires 0 <= i < |PageOf(rows, limit, offset)|
    ensures var lo := if offset < 0 then 0 else if offset > |rows| then |rows| else offset;
            lo + i < |rows| && PageOf(rows, limit, offset)[i] == rows[lo + i]
  {
  }

  /** Each sorted row passes the filters, comes from the table and carries its service's name. */
  lemma SortedRowSelected(db: Db, q: ListQuery, i: int)
    requires 0 <= i < |Sorted(db, q)|
    ensures var v := Sorted(db, q)[i];
            Selected(q, v.appointment) && v.appointment in db.appointments
            && Joined(db.services, v.appointment) == Some(v)
  {
    var picked := Where(db.appointments, SelectedBy(q));
    var joined := JoinAll(db.services, picked);
    var all := Sorted(db, q);
    assert all[i] in multiset(joined);
    var j :| 0 <= j < |joined| && joined[j] == all[i];
    JoinAllSound(db.services, picked, j);
    var k :| 0 <= k < |picked| && picked[k] == joined[j].appointment;
    assert SelectedBy(q)(picked[k]);
  }

  /** Paging through the whole listing yields every selected appointment that has a service, each once. */
  lemma ListingCoversSelection(db: Db, q: ListQuery, limit: nat, n: nat)
    requires n * limit >= |Sorted(db, q)|
    ensures multiset(FirstPages(Sorted(db, q), limit, n))
         == multiset(JoinAll(db.services, Where(db.appointments, SelectedBy(q))))
  {
    PagesTile(Sorted(db, q), limit, n);
    assert Sorted(db, q)[..|Sorted(db, q)|] == Sorted(db, q);
  }
}
