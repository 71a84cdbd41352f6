/** The `items` table behind `POST /api/items` (report) and
    `PATCH /api/items/:id/resolve` (resolve), and the listing read of
    `GET /api/items`. The uuid generator is an oracle passed in as the fresh
    id, and CURRENT_TIMESTAMP is a creation counter that grows by one per
    inserted row. */
module Store {
  import opened Wrappers
  import opened Items
  import opened Sql
  import opened Query

  /** The multipart form fields of a report. */
  datatype ReportForm = ReportForm(
    title: string,
    description: string,
    category: string,
    location: string,
    date: string,
    status: string,
    reporterId: string,
    contactInfo: string)

  /** The INSERT failed: a duplicate id or a reporter that is not a user
      (`{success: false, error: 'Failed to report item'}`). */
  datatype ReportError = InsertFailed

  /** The row a report inserts: the form's fields, the new id, the uploaded
      file's URL or NULL, `is_resolved` at its default 0, and the creation
      time. */
  function Created(form: ReportForm, id: string, upload: Option<string>, now: nat): (x: Item)
    ensures x.id == id && x.createdAt == now && !x.isResolved
    ensures x.imageUrl.None? <==> upload.None?
    ensures upload.Some? ==> x.imageUrl.value == "/uploads/" + upload.value
    ensures x.title == form.title && x.description == form.description && x.category == form.category
    ensures x.status == form.status && x.reporterId == form.reporterId
    ensures x.location == form.location && x.date == form.date && x.contactInfo == form.contactInfo
  {
    Item(id, form.title, form.description, form.category, form.location, form.date, form.status,
         if upload.Some? then Some("/uploads/" + upload.value) else None,
         form.reporterId, form.contactInfo, false, now)
  }

  function Ids(rows: seq<Item>): set<string>
  {
    set x | x in rows :: x.id
  }

  /** The table's invariant: ids are a primary key, rows are stored in
      creation order, and every creation time is before the counter. */
  predicate WellFormed(rows: seq<Item>, clock: nat)
  {
    (forall i, j :: 0 <= i < j < |rows| ==> rows[i].id != rows[j].id && rows[i].createdAt < rows[j].createdAt)
    && (forall i :: 0 <= i < |rows| ==> rows[i].createdAt < clock)
  }

  /** `UPDATE items SET is_resolved = 1 WHERE id = ?`. */
  function ResolvedAt(rows: seq<Item>, id: string): seq<Item>
  {
    seq(|rows|, i requires 0 <= i < |rows| => if rows[i].id == id then rows[i].(isResolved := true) else rows[i])
  }

  class ItemStore {
    var rows: seq<Item>
    var clock: nat

    ghost predicate Valid()
      reads this
    {
      WellFormed(rows, clock)
    }

    constructor ()
      ensures Valid() && rows == [] && clock == 0
    {
      rows := [];
      clock := 0;
    }

    /** `POST /api/items`: inserts one row under the fresh id. The insert
        fails, and nothing changes, when the id is already a key or when the
        reporter id is not a user's id (the foreign key on `reporter_id`,
        which better-sqlite3 enforces). */
    method Report(form: ReportForm, id: string, upload: Option<string>, users: map<string, string>)
      returns (r: Result<string, ReportError>)
      requires Valid()
      modifies this
      ensures Valid()
      ensures r.Ok? <==> id !in Ids(old(rows)) && form.reporterId in users
      ensures r.Ok? ==> r.value == id && clock == old(clock) + 1
                        && rows == old(rows) + [Created(form, id, upload, old(clock))]
      ensures r.Err? ==> rows == old(rows) && clock == old(clock)
    {
      if id in Ids(rows) || form.reporterId !in users {
        r := Err(InsertFailed);
      } else {
        var x := Created(form, id, upload, clock);
        ReportPreservesWellFormed(rows, clock, x);
        rows := rows + [x];
        clock := clock + 1;
        r := Ok(id);
      }
    }

    /** `PATCH /api/items/:id/resolve`: marks the row with that id resolved
        and answers success whether or not such a row exists; no check of
        who asks. */
    method Resolve(id: string) returns (ok: bool)
      requires Valid()
      modifies this
      ensures Valid()
      ensures rows == ResolvedAt(old(rows), id) && clock == old(clock)
      ensures ok
    {
      ResolvePreservesWellFormed(rows, clock, id);
      rows := ResolvedAt(rows, id);
      ok := true;
    }

    /** `GET /api/items`: builds the query, prepares it and runs it with its
        parameters. */
    method List(f: Filters, users: map<string, string>) returns (listings: seq<Listing>)
      requires Valid()
      ensures listings == ActiveListings(rows, users, f)
    {
      var query, params := BuildQuery(f);
      QueryMeaning(rows, users, f);
      var result := Execute(rows, users, query, params);
      listings := result.value;
    }
  }

  lemma ReportPreservesWellFormed(rows: seq<Item>, clock: nat, x: Item)
    requires WellFormed(rows, clock) && x.id !in Ids(rows) && x.createdAt == clock
    ensures WellFormed(rows + [x], clock + 1)
  {
    var r := rows + [x];
    forall i, j | 0 <= i < j < |r| ensures r[i].id != r[j].id && r[i].createdAt < r[j].createdAt {
      if j == |rows| {
        assert r[i] in rows;
      }
    }
  }

  lemma ResolvePreservesWellFormed(rows: seq<Item>, clock: nat, id: string)
    requires WellFormed(rows, clock)
    ensures WellFormed(ResolvedAt(rows, id), clock)
  {
  }

  /** Resolving changes nothing but the `is_resolved` flag of the rows with
      that id, which becomes set. */
  lemma ResolveChangesOnlyTarget(rows: seq<Item>, id: string)
    ensures |ResolvedAt(rows, id)| == |rows|
    ensures forall i :: 0 <= i < |rows| ==>
      var r := ResolvedAt(rows, id)[i];
      if rows[i].id == id then r.isResolved && r.(isResolved := rows[i].isResolved) == rows[i]
      else r == rows[i]
  {
  }

  /** Resolution is one-way: a resolved row stays resolved. */
  lemma ResolveMonotone(rows: seq<Item>, id: string, i: nat)
    requires i < |rows| && rows[i].isResolved
    ensures ResolvedAt(rows, id)[i].isResolved
  {
  }

  /** Resolving twice is resolving once. */
  lemma ResolveIdempotent(rows: seq<Item>, id: string)
    ensures ResolvedAt(ResolvedAt(rows, id), id) == ResolvedAt(rows, id)
  {
  }

  /** An unknown id changes nothing. */
  lemma ResolveUnknownId(rows: seq<Item>, id: string)
    requires id !in Ids(rows)
    ensures ResolvedAt(rows, id) == rows
  {
    forall i | 0 <= i < |rows| ensures rows[i].id != id {
      assert rows[i] in rows;
    }
  }

  lemma ResolvedAtCons(rows: seq<Item>, id: string)
    requires rows != []
    ensures ResolvedAt(rows, id) == ResolvedAt([rows[0]], id) + ResolvedAt(rows[1..], id)
  {
  }

  lemma {:induction false} SelectJoinResolved(rows: seq<Item>, users: map<string, string>, f: Filters, id: string)
    ensures Select(Join(ResolvedAt(rows, id), users), (l: Listing) => ServerMatches(f, l.item))
         == Select(Join(rows, users), (l: Listing) => ServerMatches(f, l.item) && l.item.id != id)
  {
    if rows != [] {
      ResolvedAtCons(rows, id);
      var head := ResolvedAt([rows[0]], id);
      JoinAppend(head, ResolvedAt(rows[1..], id), users);
      SelectAppend(Join(head, users), Join(ResolvedAt(rows[1..], id), users), (l: Listing) => ServerMatches(f, l.item));
      SelectJoinResolved(rows[1..], users, f, id);
      assert rows == [rows[0]] + rows[1..];
      JoinAppend([rows[0]], rows[1..], users);
      SelectAppend(Join([rows[0]], users), Join(rows[1..], users), (l: Listing) => ServerMatches(f, l.item) && l.item.id != id);
      assert Join([rows[0]][1..], users) == [];
      assert Join(head[1..], users) == [];
    }
  }

  /** Resolving an item takes it, and only it, out of every listing. */
  lemma ResolveUnlists(rows: seq<Item>, users: map<string, string>, f: Filters, id: string)
    ensures ActiveListings(ResolvedAt(rows, id), users, f)
         == Select(ActiveListings(rows, users, f), (l: Listing) => l.item.id != id)
  {
    var m := (l: Listing) => ServerMatches(f, l.item);
    var notId := (l: Listing) => l.item.id != id;
    var both := (l: Listing) => ServerMatches(f, l.item) && l.item.id != id;
    SelectJoinResolved(rows, users, f, id);
    SelectSelect(Join(rows, users), m, notId, both);
    SelectSortCommute(Select(Join(rows, users), m), notId);
  }

  /** A new report whose reporter is a user and which matches the filters is
      listed first, ahead of everything listed before; any other report leaves
      the listing as it was. */
  lemma ReportListedFirst(rows: seq<Item>, clock: nat, users: map<string, string>, f: Filters, x: Item)
    requires WellFormed(rows, clock) && x.createdAt == clock
    ensures ActiveListings(rows + [x], users, f) ==
      if x.reporterId in users && ServerMatches(f, x) then [Listing(x, users[x.reporterId])] + ActiveListings(rows, users, f)
      else ActiveListings(rows, users, f)
  {
    var m := (l: Listing) => ServerMatches(f, l.item);
    JoinAppend(rows, [x], users);
    SelectAppend(Join(rows, users), Join([x], users), m);
    assert Join([x][1..], users) == [];
    var before := Select(Join(rows, users), m);
    if x.reporterId in users && ServerMatches(f, x) {
      var lx := Listing(x, users[x.reporterId]);
      assert Select(Join([x], users), m) == [lx];
      forall y | y in before ensures y.item.createdAt < lx.item.createdAt {
        var i :| 0 <= i < |rows| && rows[i] == y.item;
      }
      SortNewestFirstPutsNewestFirst(before, lx);
    } else {
      assert Select(Join([x], users), m) == [];
      assert before + [] == before;
    }
  }

  /** A report is never listed under a category filter it does not match. */
  lemma ReportNotInOtherCategory(rows: seq<Item>, users: map<string, string>, x: Item, category: string)
    requires x.id !in Ids(rows) && category != "" && x.category != category
    ensures forall l :: l in ActiveListings(rows + [x], users, Filters(None, Some(category), None)) ==> l.item.id != x.id
  {
    var g := Filters(None, Some(category), None);
    assert Given(g.category);
    ListingsActiveAndMatching(rows + [x], users, g);
    forall l | l in ActiveListings(rows + [x], users, g) ensures l.item.id != x.id {
      var y := l.item;
      assert y.category == category;
      assert y in rows;
      assert y.id in Ids(rows);
    }
  }

  /** A report by a registered user is listed first without filters, is
      left out by a category filter it does not match, and disappears from
      the listing once resolved. */
  lemma ReportThenResolve(rows: seq<Item>, clock: nat, users: map<string, string>, form: ReportForm, id: string)
    requires WellFormed(rows, clock) && id !in Ids(rows) && form.reporterId in users
    requires form.category != "electronics"
    ensures var x := Created(form, id, None, clock);
      |ActiveListings(rows + [x], users, NoFilters)| > 0
      && ActiveListings(rows + [x], users, NoFilters)[0] == Listing(x, users[form.reporterId])
      && (forall l :: l in ActiveListings(rows + [x], users, Filters(None, Some("electronics"), None)) ==> l.item.id != id)
      && (forall l :: l in ActiveListings(ResolvedAt(rows + [x], id), users, NoFilters) ==> l.item.id != id)
  {
    var x := Created(form, id, None, clock);
    ReportListedFirst(rows, clock, users, NoFilters, x);
    ReportNotInOtherCategory(rows, users, x, "electronics");
    ResolveUnlists(rows + [x], users, NoFilters, id);
  }
}
