/** The browser side: `filterItems` re-filters the last fetched listing
    without asking the server again, and `renderItems` offers the resolve
    button to the item's reporter only. */
module Client {
  import opened Wrappers
  import opened Text
  import opened Items
  import opened Query
  import opened Store

  /** The values of the search box and the status and category selects;
      "" is the "All" choice. */
  datatype Controls = Controls(search: string, status: string, category: string)

  /** The predicate `filterItems` passes to `Array.prototype.filter`. */
  predicate Keeps(c: Controls, item: Item)
  {
    var term := Lower(c.search);
    (Contains(Lower(item.title), term) || Contains(Lower(item.description), term))
    && (c.status == "" || item.status == c.status)
    && (c.category == "" || item.category == c.category)
  }

  /** `filterItems` over an explicit snapshot: the listings it keeps, in
      their order. The snapshot itself is a value and is not changed. */
  function Filter(snapshot: seq<Listing>, c: Controls): (r: seq<Listing>)
    ensures forall l :: l in r <==> l in snapshot && Keeps(c, l.item)
  {
    Select(snapshot, (l: Listing) => Keeps(c, l.item))
  }

  /** A listing is kept exactly when the lower-cased term occurs at some
      position of the lower-cased title or description, and the status and
      category match where they are not "". */
  lemma KeepsIff(c: Controls, item: Item)
    ensures Keeps(c, item) <==>
      ((exists k :: OccursAt(Lower(item.title), Lower(c.search), k))
       || (exists k :: OccursAt(Lower(item.description), Lower(c.search), k)))
      && (c.status != "" ==> item.status == c.status)
      && (c.category != "" ==> item.category == c.category)
  {
    ContainsIffOccurs(Lower(item.title), Lower(c.search));
    ContainsIffOccurs(Lower(item.description), Lower(c.search));
  }

  /** The result is the snapshot with some listings left out, in the same
      relative order. */
  lemma FilterIsSubsequence(snapshot: seq<Listing>, c: Controls)
    ensures IsSubsequence(Filter(snapshot, c), snapshot)
  {
    SelectIsSubsequence(snapshot, (l: Listing) => Keeps(c, l.item));
  }

  /** Filtering an already filtered list with the same controls changes nothing. */
  lemma FilterIdempotent(snapshot: seq<Listing>, c: Controls)
    ensures Filter(Filter(snapshot, c), c) == Filter(snapshot, c)
  {
    SelectIdempotent(snapshot, (l: Listing) => Keeps(c, l.item));
  }

  /** With an empty search box and both selects on "All", every listing is shown. */
  lemma EmptyControlsKeepAll(snapshot: seq<Listing>)
    ensures Filter(snapshot, Controls("", "", "")) == snapshot
  {
    forall l | l in snapshot ensures Keeps(Controls("", "", ""), l.item) {
      assert Lower("") == "";
      ContainsEmpty(Lower(l.item.title));
    }
    SelectAll(snapshot, (l: Listing) => Keeps(Controls("", "", ""), l.item));
  }

  /** Search ignores case: two terms that lower-case alike filter alike. */
  lemma FilterIgnoresSearchCase(snapshot: seq<Listing>, c: Controls, search': string)
    requires Lower(search') == Lower(c.search)
    ensures Filter(snapshot, c.(search := search')) == Filter(snapshot, c)
  {
    var c' := c.(search := search');
    SelectCongruent(snapshot, (l: Listing) => Keeps(c', l.item), (l: Listing) => Keeps(c, l.item));
  }

  /** No `%` or `_` in a search term: the characters LIKE reads as wildcards. */
  predicate NoLikeWildcards(term: string)
  {
    '%' !in term && '_' !in term
  }

  /** The filters the server would be sent for the same controls. */
  function AsQuery(c: Controls): Filters
  {
    Filters(Some(c.status), Some(c.category), Some(c.search))
  }

  lemma KeepsIffServerMatches(c: Controls, item: Item)
    ensures (!item.isResolved && Keeps(c, item)) == ServerMatches(AsQuery(c), item)
  {
    if c.search == "" {
      assert Lower("") == "";
      ContainsEmpty(Lower(item.title));
    }
  }

  /** A kept listing is kept as often as it occurs in the snapshot. */
  lemma FilterMultiplicity(snapshot: seq<Listing>, c: Controls)
    ensures forall l :: multiset(Filter(snapshot, c))[l] == if Keeps(c, l.item) then multiset(snapshot)[l] else 0
  {
    SelectMultiplicity(snapshot, (l: Listing) => Keeps(c, l.item));
  }

  /** Filtering on the client agrees with querying the server: re-filtering
      the unfiltered listing the page fetched gives exactly the listing the
      server returns for the same controls, in the same order. LIKE is read
      as case-insensitive substring search. The proof does not use the
      requires: it marks the terms, those without wildcards, for which that
      reading of LIKE matches SQLite. The order among rows with equal
      creation times is the model's stable sort; SQLite fixes none. */
  lemma FilterAgreesWithServer(table: seq<Item>, users: map<string, string>, c: Controls)
    requires NoLikeWildcards(c.search)
    ensures Filter(ActiveListings(table, users, NoFilters), c) == ActiveListings(table, users, AsQuery(c))
  {
    var joined := Join(table, users);
    var active := (l: Listing) => ServerMatches(NoFilters, l.item);
    var keeps := (l: Listing) => Keeps(c, l.item);
    var matches := (l: Listing) => ServerMatches(AsQuery(c), l.item);
    SelectSortCommute(Select(joined, active), keeps);
    forall l: Listing ensures matches(l) == (active(l) && keeps(l)) {
      KeepsIffServerMatches(c, l.item);
    }
    SelectSelect(joined, active, keeps, matches);
  }

  /** An item titled "Lost Wallet" is found by "wallet" and by "WALLET". */
  lemma SearchIgnoresCaseExample(item: Item)
    requires item.title == "Lost Wallet"
    ensures Keeps(Controls("wallet", "", ""), item) && Keeps(Controls("WALLET", "", ""), item)
  {
    WalletInLostWallet();
    assert Lower("WALLET") == "wallet";
    assert Lower("wallet") == "wallet";
  }

  lemma WalletInLostWallet()
    ensures Contains(Lower("Lost Wallet"), "wallet")
  {
    var t := Lower("Lost Wallet");
    assert t == "lost wallet";
    assert t[1..][1..][1..][1..][1..] == "wallet";
  }

  /** Status and category combine by AND: of a lost and a found pair of keys,
      filtering on keys and lost keeps the lost one only. */
  lemma ConjunctionExample(a: Listing, b: Listing)
    requires a.item.category == "keys" && a.item.status == "lost"
    requires b.item.category == "keys" && b.item.status == "found"
    ensures Filter([a, b], Controls("", "lost", "keys")) == [a]
  {
    var c := Controls("", "lost", "keys");
    assert Lower("") == "";
    ContainsEmpty(Lower(a.item.title));
    assert Keeps(c, a.item) && !Keeps(c, b.item);
    assert [a, b][1..] == [b] && [b][1..] == [];
    assert Select([b], (l: Listing) => Keeps(c, l.item)) == [];
  }

  /** `currentUser && currentUser.id === item.reporter_id`: whether the card
      shows the "Mark as Resolved" button. */
  predicate ShowsResolveButton(currentUser: Option<User>, item: Item)
  {
    currentUser.Some? && currentUser.value.id == item.reporterId
  }

  /** The page reports an item with `reporter_id` set to the logged-in
      user's id. Once listed, that item offers the resolve button to exactly
      the user whose id the report form carried, and never to a visitor. */
  lemma ResolveButtonOnlyForReporter(rows: seq<Item>, users: map<string, string>, f: Filters,
                                     form: ReportForm, id: string, upload: Option<string>, now: nat,
                                     u: Option<User>)
    requires id !in Ids(rows)
    ensures var x := Created(form, id, upload, now);
      forall l :: l in ActiveListings(rows + [x], users, f) && l.item.id == id ==>
        (ShowsResolveButton(u, l.item) <==> u.Some? && u.value.id == form.reporterId)
  {
    var x := Created(form, id, upload, now);
    ListingsActiveAndMatching(rows + [x], users, f);
    forall l | l in ActiveListings(rows + [x], users, f) && l.item.id == id
      ensures l.item == x
    {
      assert l.item == x || l.item.id in Ids(rows);
    }
  }
}
