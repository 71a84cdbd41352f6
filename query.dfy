/** The `GET /api/items` handler: it builds the listing query from the
    optional `status`, `category` and `search` query-string values, keeping
    every user value out of the text and in the parameter list. */
module Query {
  import opened Wrappers
  import opened Text
  import opened Items
  import opened Sql

  /** `req.query`: each value is absent (None) or the string the client sent. */
  datatype Filters = Filters(status: Option<string>, category: Option<string>, search: Option<string>)

  /** JavaScript truthiness of a query-string value: absent and "" are false. */
  predicate Given(v: Option<string>)
  {
    v.Some? && v.value != ""
  }

  const NoFilters := Filters(None, None, None)

  /** The `%term%` LIKE pattern the search value is wrapped in. */
  function Surround(term: string): string
  {
    "%" + term + "%"
  }

  /** What one optional filter adds to the query: its fragments, its
      parameters and the row conditions they bind to. */
  datatype Part = Part(fragments: seq<Fragment>, params: seq<string>, conditions: seq<Condition>)

  const Nothing := Part([], [], [])

  function StatusPart(f: Filters): Part
  {
    if Given(f.status) then Part([StatusEquals], [f.status.value], [StatusIs(f.status.value)])
    else Nothing
  }

  function CategoryPart(f: Filters): Part
  {
    if Given(f.category) then Part([CategoryEquals], [f.category.value], [CategoryIs(f.category.value)])
    else Nothing
  }

  function SearchPart(f: Filters): Part
  {
    if Given(f.search) then
      var p := Surround(f.search.value);
      Part([TitleOrDescriptionLike], [p, p], [TitleOrDescriptionMatch(p, p)])
    else Nothing
  }

  /** The fragments the handler appends, in order. */
  function FragmentsFor(f: Filters): seq<Fragment>
  {
    [SelectActive]
    + (StatusPart(f).fragments + (CategoryPart(f).fragments + (SearchPart(f).fragments + [OrderNewestFirst])))
  }

  /** The parameters the handler pushes, in order. */
  function ParamsFor(f: Filters): seq<string>
  {
    StatusPart(f).params + (CategoryPart(f).params + SearchPart(f).params)
  }

  /** The row conditions the bound statement checks, in fragment order. */
  function ConditionsFor(f: Filters): seq<Condition>
  {
    [IsActive] + (StatusPart(f).conditions + (CategoryPart(f).conditions + SearchPart(f).conditions))
  }

  /** Builds the query and its parameters step by step, as the handler does
      with `query +=` and `params.push`; the text is kept as the sequence of
      fixed fragments it concatenates (Render spells it out). */
  method BuildQuery(f: Filters) returns (query: seq<Fragment>, params: seq<string>)
    ensures query == FragmentsFor(f) && params == ParamsFor(f)
    ensures query[0] == SelectActive
    ensures TotalArity(query) == |params|
  {
    query := [SelectActive];
    params := [];
    if Given(f.status) {
      query := query + [StatusEquals];
      params := params + [f.status.value];
    }
    if Given(f.category) {
      query := query + [CategoryEquals];
      params := params + [f.category.value];
    }
    if Given(f.search) {
      query := query + [TitleOrDescriptionLike];
      params := params + [Surround(f.search.value), Surround(f.search.value)];
    }
    query := query + [OrderNewestFirst];
    ArityMatchesParams(f);
  }

  lemma TotalArityAppend(a: seq<Fragment>, b: seq<Fragment>)
    ensures TotalArity(a + b) == TotalArity(a) + TotalArity(b)
  {
    if a != [] {
      assert (a + b)[1..] == a[1..] + b;
      TotalArityAppend(a[1..], b);
    } else {
      assert a + b == b;
    }
  }

  /** One parameter per placeholder: status and category add one each,
      search adds two. */
  lemma ArityMatchesParams(f: Filters)
    ensures TotalArity(FragmentsFor(f)) == |ParamsFor(f)|
  {
    var s, c, q := StatusPart(f).fragments, CategoryPart(f).fragments, SearchPart(f).fragments;
    TotalArityAppend(q, [OrderNewestFirst]);
    TotalArityAppend(c, q + [OrderNewestFirst]);
    TotalArityAppend(s, c + (q + [OrderNewestFirst]));
    TotalArityAppend([SelectActive], s + (c + (q + [OrderNewestFirst])));
  }

  /** The query text holds exactly as many `?` as there are parameters, and
      `db.prepare` reads it back as the fragments it was built from. */
  lemma TextMatchesParams(f: Filters)
    ensures Placeholders(Render(FragmentsFor(f))) == |ParamsFor(f)|
    ensures Parse(Render(FragmentsFor(f))) == Some(FragmentsFor(f))
  {
    ArityMatchesParams(f);
    RenderPlaceholders(FragmentsFor(f));
    ParseRender(FragmentsFor(f));
  }

  /** The query text depends only on which filters are given, never on their
      values: user input reaches the database through the parameters alone. */
  lemma TextIndependentOfValues(f: Filters, g: Filters)
    requires Given(f.status) == Given(g.status)
    requires Given(f.category) == Given(g.category)
    requires Given(f.search) == Given(g.search)
    ensures Render(FragmentsFor(f)) == Render(FragmentsFor(g))
    ensures |ParamsFor(f)| == |ParamsFor(g)|
  {
  }

  /** A part binds its parameters to its own conditions. */
  predicate BindsAlone(p: Part)
  {
    Bind(p.fragments, p.params) == Some(Statement(p.conditions, false))
  }

  lemma SinglePartBindsAlone(frag: Fragment, ps: seq<string>, c: Condition)
    requires |ps| == Arity(frag) && frag != OrderNewestFirst
    requires Attach(frag, ps, Statement([], false)) == Statement([c], false)
    ensures BindsAlone(Part([frag], ps, [c]))
  {
    assert [frag][1..] == [];
    assert ps[Arity(frag)..] == [] && ps[..Arity(frag)] == ps;
  }

  lemma PartsBindAlone(f: Filters)
    ensures BindsAlone(StatusPart(f)) && BindsAlone(CategoryPart(f)) && BindsAlone(SearchPart(f))
  {
    if Given(f.status) {
      var v := f.status.value;
      assert [StatusIs(v)] + [] == [StatusIs(v)];
      SinglePartBindsAlone(StatusEquals, [v], StatusIs(v));
    }
    if Given(f.category) {
      var v := f.category.value;
      assert [CategoryIs(v)] + [] == [CategoryIs(v)];
      SinglePartBindsAlone(CategoryEquals, [v], CategoryIs(v));
    }
    if Given(f.search) {
      var p := Surround(f.search.value);
      assert [TitleOrDescriptionMatch(p, p)] + [] == [TitleOrDescriptionMatch(p, p)];
      SinglePartBindsAlone(TitleOrDescriptionLike, [p, p], TitleOrDescriptionMatch(p, p));
    }
  }

  /** Appending a part that binds alone adds its conditions in front. */
  lemma BindPart(p: Part, fs: seq<Fragment>, ps: seq<string>, st: Statement)
    requires BindsAlone(p) && Bind(fs, ps) == Some(st)
    ensures Bind(p.fragments + fs, p.params + ps) == Some(Statement(p.conditions + st.conditions, st.newestFirst))
  {
    BindSucceedsIff(p.fragments, p.params);
    BindAppend(p.fragments, p.params, fs, ps);
  }

  /** The filter parts followed by the ORDER BY bind to the filters'
      conditions, ordered. */
  lemma BindFilterParts(f: Filters)
    ensures Bind(StatusPart(f).fragments + (CategoryPart(f).fragments + (SearchPart(f).fragments + [OrderNewestFirst])),
                 StatusPart(f).params + (CategoryPart(f).params + SearchPart(f).params))
         == Some(Statement(StatusPart(f).conditions + (CategoryPart(f).conditions + SearchPart(f).conditions), true))
  {
    var sp, cp, qp := StatusPart(f), CategoryPart(f), SearchPart(f);
    PartsBindAlone(f);
    var order := [OrderNewestFirst];
    assert Bind(order, []) == Some(Statement([], true)) by {
      assert order[1..] == [];
    }
    BindPart(qp, order, [], Statement([], true));
    assert qp.params + [] == qp.params && qp.conditions + [] == qp.conditions;
    BindPart(cp, qp.fragments + order, qp.params, Statement(qp.conditions, true));
    BindPart(sp, cp.fragments + (qp.fragments + order), cp.params + qp.params,
      Statement(cp.conditions + qp.conditions, true));
  }

  /** Binding hands each parameter to the placeholder of its own filter:
      status, then category, then the search pattern for title and for
      description. */
  lemma BindFragmentsFor(f: Filters)
    ensures Bind(FragmentsFor(f), ParamsFor(f)) == Some(Statement(ConditionsFor(f), true))
  {
    var sp, cp, qp := StatusPart(f), CategoryPart(f), SearchPart(f);
    var rest := sp.fragments + (cp.fragments + (qp.fragments + [OrderNewestFirst]));
    var restParams := sp.params + (cp.params + qp.params);
    var restConditions := sp.conditions + (cp.conditions + qp.conditions);
    BindFilterParts(f);
    var head := Part([SelectActive], [], [IsActive]);
    assert [IsActive] + [] == [IsActive];
    SinglePartBindsAlone(SelectActive, [], IsActive);
    BindPart(head, rest, restParams, Statement(restConditions, true));
    assert ParamsFor(f) == [] + restParams;
  }

  /** What the listing promises, stated directly: active rows whose reporter
      is a user, matching every given filter, the search term occurring in
      the title or the description ignoring case. */
  predicate ServerMatches(f: Filters, item: Item)
  {
    !item.isResolved
    && (Given(f.status) ==> item.status == f.status.value)
    && (Given(f.category) ==> item.category == f.category.value)
    && (Given(f.search) ==>
          ContainsIgnoringCase(item.title, f.search.value)
          || ContainsIgnoringCase(item.description, f.search.value))
  }

  /** The listing response: matching joined rows, newest first. */
  function ActiveListings(table: seq<Item>, users: map<string, string>, f: Filters): seq<Listing>
  {
    SortNewestFirst(Select(Join(table, users), (l: Listing) => ServerMatches(f, l.item)))
  }

  lemma SatisfiesConditionsFor(f: Filters, item: Item)
    ensures Satisfies(ConditionsFor(f), item) <==> ServerMatches(f, item)
  {
    var cs := ConditionsFor(f);
    if Given(f.search) {
      var t := f.search.value;
      LikeSurrounded(item.title, t);
      LikeSurrounded(item.description, t);
      assert cs[|cs| - 1] == TitleOrDescriptionMatch(Surround(t), Surround(t));
    }
    if Given(f.status) {
      assert cs[1] == StatusIs(f.status.value);
    }
    if Given(f.category) {
      assert cs[if Given(f.status) then 2 else 1] == CategoryIs(f.category.value);
    }
    assert cs[0] == IsActive;
  }

  /** The built query, prepared and run with its parameters, returns exactly
      the listing ServerMatches describes, newest first. */
  lemma QueryMeaning(table: seq<Item>, users: map<string, string>, f: Filters)
    ensures Execute(table, users, FragmentsFor(f), ParamsFor(f)) == Some(ActiveListings(table, users, f))
  {
    BindFragmentsFor(f);
    forall l: Listing ensures Satisfies(ConditionsFor(f), l.item) == ServerMatches(f, l.item) {
      SatisfiesConditionsFor(f, l.item);
    }
    SelectCongruent(Join(table, users),
      (l: Listing) => Satisfies(ConditionsFor(f), l.item), (l: Listing) => ServerMatches(f, l.item));
  }

  /** Whatever the filters, the listing holds no resolved item, and every
      row it holds matches them. */
  lemma ListingsActiveAndMatching(table: seq<Item>, users: map<string, string>, f: Filters)
    ensures forall l :: l in ActiveListings(table, users, f) ==>
      !l.item.isResolved && ServerMatches(f, l.item) && l.item in table
  {
    var rows := Select(Join(table, users), (l: Listing) => ServerMatches(f, l.item));
    forall l | l in ActiveListings(table, users, f)
      ensures !l.item.isResolved && ServerMatches(f, l.item) && l.item in table
    {
      assert l in multiset(SortNewestFirst(rows));
    }
  }

  /** With no filter given the query adds no condition and no parameter: it
      lists every active row. */
  lemma NoFiltersListsAllActive(table: seq<Item>, users: map<string, string>, f: Filters)
    requires !Given(f.status) && !Given(f.category) && !Given(f.search)
    ensures FragmentsFor(f) == [SelectActive, OrderNewestFirst] && ParamsFor(f) == []
    ensures ActiveListings(table, users, f) ==
      SortNewestFirst(Select(Join(table, users), (l: Listing) => !l.item.isResolved))
  {
    SelectCongruent(Join(table, users),
      (l: Listing) => ServerMatches(f, l.item), (l: Listing) => !l.item.isResolved);
  }

  /** Each given filter narrows the listing: adding a filter to a set of
      filters only removes rows (conjunction, never disjunction). */
  lemma MoreFiltersNarrow(table: seq<Item>, users: map<string, string>, f: Filters, g: Filters)
    requires Given(f.status) ==> g.status == f.status
    requires Given(f.category) ==> g.category == f.category
    requires Given(f.search) ==> g.search == f.search
    ensures forall l :: l in ActiveListings(table, users, g) ==> l in ActiveListings(table, users, f)
  {
    ListingsActiveAndMatching(table, users, g);
    var rows := Select(Join(table, users), (l: Listing) => ServerMatches(f, l.item));
    forall l | l in ActiveListings(table, users, g) ensures l in ActiveListings(table, users, f) {
      assert l in multiset(SortNewestFirst(Select(Join(table, users), (l: Listing) => ServerMatches(g, l.item))));
      assert l in Join(table, users);
      assert l in rows;
      assert l in multiset(SortNewestFirst(rows));
    }
  }
}
