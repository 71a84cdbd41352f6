/** The slice of SQLite the listing endpoint relies on: the fixed text
    fragments its query is assembled from, how `db.prepare` reads that text
    back, how `.all(...params)` binds the `?` placeholders in order, and what
    the bound statement returns from an in-memory `items` table. */
module Sql {
  import opened Wrappers
  import opened Text
  import opened Items

  /** The fixed pieces of text the listing query is built from. No piece
      carries a value supplied by the user. */
  datatype Fragment =
    | SelectActive            // the SELECT ... JOIN ... WHERE is_resolved = 0 head
    | StatusEquals            // AND status = ?
    | CategoryEquals          // AND category = ?
    | TitleOrDescriptionLike  // AND (title LIKE ? OR description LIKE ?)
    | OrderNewestFirst        // ORDER BY created_at DESC

  /** The literal words the fragments are spelled with, none longer than 40
      characters. */
  datatype Word =
    | SelectColumns | AsReporterName | JoinUsers | OnReporter | WhereActive
    | AndStatus | AndCategory | AndTitleLike | OrDescriptionLike | CloseParen | OrderBy

  function WordText(w: Word): string
  {
    match w
    case SelectColumns => "SELECT items.*, users.username"
    case AsReporterName => " as reporter_name FROM items"
    case JoinUsers => " JOIN users"
    case OnReporter => " ON items.reporter_id = users.id"
    case WhereActive => " WHERE is_resolved = 0"
    case AndStatus => " AND status = "
    case AndCategory => " AND category = "
    case AndTitleLike => " AND (title LIKE "
    case OrDescriptionLike => " OR description LIKE "
    case CloseParen => ")"
    case OrderBy => " ORDER BY created_at DESC"
  }

  const Placeholder := "?"

  /** The literal text of each fragment. */
  function Spelling(f: Fragment): (r: string)
    ensures |r| > 5
  {
    match f
    case SelectActive =>
      WordText(SelectColumns) + WordText(AsReporterName) + WordText(JoinUsers)
      + WordText(OnReporter) + WordText(WhereActive)
    case StatusEquals => WordText(AndStatus) + Placeholder
    case CategoryEquals => WordText(AndCategory) + Placeholder
    case TitleOrDescriptionLike =>
      WordText(AndTitleLike) + Placeholder + WordText(OrDescriptionLike) + Placeholder
      + WordText(CloseParen)
    case OrderNewestFirst => WordText(OrderBy)
  }

  /** How many parameters a fragment consumes. */
  function Arity(f: Fragment): nat
  {
    match f
    case SelectActive => 0
    case StatusEquals => 1
    case CategoryEquals => 1
    case TitleOrDescriptionLike => 2
    case OrderNewestFirst => 0
  }

  function TotalArity(fs: seq<Fragment>): nat
  {
    if fs == [] then 0 else Arity(fs[0]) + TotalArity(fs[1..])
  }

  /** The number of `?` placeholders in a query text. */
  function Placeholders(s: string): nat
  {
    multiset(s)['?']
  }

  lemma PlaceholdersAppend(a: string, b: string)
    ensures Placeholders(a + b) == Placeholders(a) + Placeholders(b)
  {
    assert multiset(a + b) == multiset(a) + multiset(b);
  }

  lemma NoPlaceholders(s: string)
    requires '?' !in s
    ensures Placeholders(s) == 0
  {
  }

  predicate InHead(w: Word)
  {
    w.SelectColumns? || w.AsReporterName? || w.JoinUsers? || w.OnReporter? || w.WhereActive?
  }

  lemma HeadWordHasNoPlaceholder(w: Word)
    requires InHead(w)
    ensures Placeholders(WordText(w)) == 0
  {
    match w
    case SelectColumns => NoPlaceholders(WordText(w));
    case AsReporterName => NoPlaceholders(WordText(w));
    case JoinUsers => NoPlaceholders(WordText(w));
    case OnReporter => NoPlaceholders(WordText(w));
    case WhereActive => NoPlaceholders(WordText(w));
  }

  lemma TailWordHasNoPlaceholder(w: Word)
    requires !InHead(w)
    ensures Placeholders(WordText(w)) == 0
  {
    match w
    case AndStatus => NoPlaceholders(WordText(w));
    case AndCategory => NoPlaceholders(WordText(w));
    case AndTitleLike => NoPlaceholders(WordText(w));
    case OrDescriptionLike => NoPlaceholders(WordText(w));
    case CloseParen => NoPlaceholders(WordText(w));
    case OrderBy => NoPlaceholders(WordText(w));
  }

  /** User values never reach the text: the fixed words hold no placeholder. */
  lemma WordHasNoPlaceholder(w: Word)
    ensures Placeholders(WordText(w)) == 0
  {
    if InHead(w) {
      HeadWordHasNoPlaceholder(w);
    } else {
      TailWordHasNoPlaceholder(w);
    }
  }

  lemma HeadPlaceholders()
    ensures Placeholders(Spelling(SelectActive)) == 0
  {
    var a, b, c := WordText(SelectColumns), WordText(AsReporterName), WordText(JoinUsers);
    var d, e := WordText(OnReporter), WordText(WhereActive);
    WordHasNoPlaceholder(SelectColumns);
    WordHasNoPlaceholder(AsReporterName);
    WordHasNoPlaceholder(JoinUsers);
    WordHasNoPlaceholder(OnReporter);
    WordHasNoPlaceholder(WhereActive);
    PlaceholdersAppend(a, b);
    PlaceholdersAppend(a + b, c);
    PlaceholdersAppend(a + b + c, d);
    PlaceholdersAppend(a + b + c + d, e);
  }

  lemma SearchPlaceholders()
    ensures Placeholders(Spelling(TitleOrDescriptionLike)) == 2
  {
    var a, b, c := WordText(AndTitleLike), WordText(OrDescriptionLike), WordText(CloseParen);
    WordHasNoPlaceholder(AndTitleLike);
    WordHasNoPlaceholder(OrDescriptionLike);
    WordHasNoPlaceholder(CloseParen);
    PlaceholdersAppend(a, Placeholder);
    PlaceholdersAppend(a + Placeholder, b);
    PlaceholdersAppend(a + Placeholder + b, Placeholder);
    PlaceholdersAppend(a + Placeholder + b + Placeholder, c);
  }

  /** Each fragment holds exactly as many placeholders as it consumes parameters. */
  lemma SpellingPlaceholders(f: Fragment)
    ensures Placeholders(Spelling(f)) == Arity(f)
  {
    match f
    case SelectActive =>
      HeadPlaceholders();
    case StatusEquals =>
      WordHasNoPlaceholder(AndStatus);
      PlaceholdersAppend(WordText(AndStatus), Placeholder);
    case CategoryEquals =>
      WordHasNoPlaceholder(AndCategory);
      PlaceholdersAppend(WordText(AndCategory), Placeholder);
    case TitleOrDescriptionLike =>
      SearchPlaceholders();
    case OrderNewestFirst =>
      WordHasNoPlaceholder(OrderBy);
  }

  /** The query text made of a sequence of fragments. */
  function Render(fs: seq<Fragment>): string
  {
    if fs == [] then "" else Spelling(fs[0]) + Render(fs[1..])
  }

  /** A rendered query holds exactly as many placeholders as its fragments consume. */
  lemma {:induction false} RenderPlaceholders(fs: seq<Fragment>)
    ensures Placeholders(Render(fs)) == TotalArity(fs)
  {
    if fs != [] {
      RenderPlaceholders(fs[1..]);
      SpellingPlaceholders(fs[0]);
      PlaceholdersAppend(Spelling(fs[0]), Render(fs[1..]));
    }
  }

  /** The fragment a query text starts with, if any. */
  function Leading(s: string): (r: Option<Fragment>)
    ensures r.Some? ==> Spelling(r.value) <= s
  {
    if Spelling(SelectActive) <= s then Some(SelectActive)
    else if Spelling(StatusEquals) <= s then Some(StatusEquals)
    else if Spelling(CategoryEquals) <= s then Some(CategoryEquals)
    else if Spelling(TitleOrDescriptionLike) <= s then Some(TitleOrDescriptionLike)
    else if Spelling(OrderNewestFirst) <= s then Some(OrderNewestFirst)
    else None
  }

  /** Reads a text made of the builder's fragments back into them; None for
      any other text. It shows that `Render` is unambiguous, so the text the
      handler hands to `db.prepare` determines the clauses it was built from. */
  function Parse(s: string): Option<seq<Fragment>>
    decreases |s|
  {
    if s == [] then Some([])
    else
      match Leading(s)
      case None => None
      case Some(f) =>
        match Parse(s[|Spelling(f)|..])
        case None => None
        case Some(rest) => Some([f] + rest)
  }

  /** Characters at which the fragments differ from one another. */
  lemma SpellingMarks(f: Fragment)
    ensures Spelling(f)[0] == (if f == SelectActive then 'S' else ' ')
    ensures f != SelectActive ==> Spelling(f)[1] == (if f == OrderNewestFirst then 'O' else 'A')
    ensures f == StatusEquals ==> Spelling(f)[5] == 's'
    ensures f == CategoryEquals ==> Spelling(f)[5] == 'c'
    ensures f == TitleOrDescriptionLike ==> Spelling(f)[5] == '('
  {
    var w := match f
      case SelectActive => SelectColumns
      case StatusEquals => AndStatus
      case CategoryEquals => AndCategory
      case TitleOrDescriptionLike => AndTitleLike
      case OrderNewestFirst => OrderBy;
    var t := WordText(w);
    assert |t| > 5 && WordText(w) <= Spelling(f);
    assert Spelling(f)[0] == t[0] && Spelling(f)[1] == t[1] && Spelling(f)[5] == t[5];
  }

  /** No fragment's text begins another's: a query text starting with a
      fragment is recognised as that fragment. */
  lemma LeadingSpelling(f: Fragment, rest: string)
    ensures Leading(Spelling(f) + rest) == Some(f)
  {
    var s := Spelling(f) + rest;
    assert s[0] == Spelling(f)[0] && s[1] == Spelling(f)[1] && s[5] == Spelling(f)[5];
    SpellingMarks(f);
    SpellingMarks(SelectActive);
    SpellingMarks(StatusEquals);
    SpellingMarks(CategoryEquals);
    SpellingMarks(TitleOrDescriptionLike);
    SpellingMarks(OrderNewestFirst);
  }

  /** Reading a rendered query back gives the fragments it was made of. */
  lemma {:induction false} ParseRender(fs: seq<Fragment>)
    ensures Parse(Render(fs)) == Some(fs)
  {
    if fs != [] {
      var f, rest := fs[0], Render(fs[1..]);
      var s := Spelling(f) + rest;
      assert Render(fs) == s;
      LeadingSpelling(f, rest);
      assert s[|Spelling(f)|..] == rest;
      ParseRender(fs[1..]);
      assert fs == [f] + fs[1..];
    }
  }

  /** A row condition of a prepared statement with its parameters bound. */
  datatype Condition =
    | IsActive
    | StatusIs(status: string)
    | CategoryIs(category: string)
    | TitleOrDescriptionMatch(titlePattern: string, descriptionPattern: string)

  /** A prepared and bound statement: conditions ANDed together, and whether
      the rows are ordered newest first. */
  datatype Statement = Statement(conditions: seq<Condition>, newestFirst: bool)

  /** Adds one fragment, with the parameters it consumes, to a bound statement. */
  function Attach(f: Fragment, ps: seq<string>, st: Statement): Statement
    requires |ps| == Arity(f)
  {
    match f
    case SelectActive => st.(conditions := [IsActive] + st.conditions)
    case StatusEquals => st.(conditions := [StatusIs(ps[0])] + st.conditions)
    case CategoryEquals => st.(conditions := [CategoryIs(ps[0])] + st.conditions)
    case TitleOrDescriptionLike =>
      st.(conditions := [TitleOrDescriptionMatch(ps[0], ps[1])] + st.conditions)
    case OrderNewestFirst => st.(newestFirst := true)
  }

  /** `.all(...params)`: hands the parameters to the placeholders from left to
      right; None when there are too few or too many (better-sqlite3 throws). */
  function Bind(fs: seq<Fragment>, params: seq<string>): Option<Statement>
  {
    if fs == [] then
      if params == [] then Some(Statement([], false)) else None
    else if |params| < Arity(fs[0]) then None
    else
      match Bind(fs[1..], params[Arity(fs[0])..])
      case None => None
      case Some(st) => Some(Attach(fs[0], params[..Arity(fs[0])], st))
  }

  /** Binding succeeds exactly when there is one parameter per placeholder. */
  lemma {:induction false} BindSucceedsIff(fs: seq<Fragment>, params: seq<string>)
    ensures Bind(fs, params).Some? <==> |params| == TotalArity(fs)
  {
    if fs != [] && |params| >= Arity(fs[0]) {
      BindSucceedsIff(fs[1..], params[Arity(fs[0])..]);
    }
  }

  /** Two bound statements run one after the other: conditions ANDed, ordered
      if either is. */
  function Combine(a: Statement, b: Statement): Statement
  {
    Statement(a.conditions + b.conditions, a.newestFirst || b.newestFirst)
  }

  lemma AttachCombine(f: Fragment, ps: seq<string>, st: Statement, st': Statement)
    requires |ps| == Arity(f)
    ensures Combine(Attach(f, ps, st), st') == Attach(f, ps, Combine(st, st'))
  {
    match f
    case SelectActive =>
      assert [IsActive] + (st.conditions + st'.conditions) == [IsActive] + st.conditions + st'.conditions;
    case StatusEquals =>
      assert [StatusIs(ps[0])] + (st.conditions + st'.conditions) == [StatusIs(ps[0])] + st.conditions + st'.conditions;
    case CategoryEquals =>
      assert [CategoryIs(ps[0])] + (st.conditions + st'.conditions) == [CategoryIs(ps[0])] + st.conditions + st'.conditions;
    case TitleOrDescriptionLike =>
      var c := TitleOrDescriptionMatch(ps[0], ps[1]);
      assert [c] + (st.conditions + st'.conditions) == [c] + st.conditions + st'.conditions;
    case OrderNewestFirst =>
  }

  /** Binding a query made of two parts binds each part to its own share of
      the parameters. */
  lemma {:induction false} BindAppend(fs: seq<Fragment>, ps: seq<string>, fs': seq<Fragment>, ps': seq<string>)
    requires |ps| == TotalArity(fs)
    ensures Bind(fs, ps).Some?
    ensures Bind(fs + fs', ps + ps') ==
      if Bind(fs', ps').Some? then Some(Combine(Bind(fs, ps).value, Bind(fs', ps').value)) else None
  {
    BindSucceedsIff(fs, ps);
    if fs == [] {
      assert fs + fs' == fs' && ps + ps' == ps';
      if Bind(fs', ps').Some? {
        var st := Bind(fs', ps').value;
        assert [] + st.conditions == st.conditions;
      }
    } else {
      var n := Arity(fs[0]);
      assert (fs + fs')[1..] == fs[1..] + fs';
      assert (ps + ps')[n..] == ps[n..] + ps' && (ps + ps')[..n] == ps[..n];
      BindAppend(fs[1..], ps[n..], fs', ps');
      if Bind(fs', ps').Some? {
        AttachCombine(fs[0], ps[..n], Bind(fs[1..], ps[n..]).value, Bind(fs', ps').value);
      }
    }
  }

  /** LIKE, abstracted: a pattern `%t%` matches a value that contains `t`
      ignoring case; any other pattern matches a value equal to it ignoring
      case. This agrees with SQLite when `t` holds neither `%` nor `_` and
      the text is ASCII. */
  predicate Like(value: string, pattern: string)
  {
    if |pattern| >= 2 && pattern[0] == '%' && pattern[|pattern| - 1] == '%' then
      ContainsIgnoringCase(value, pattern[1..|pattern| - 1])
    else Lower(value) == Lower(pattern)
  }

  lemma LikeSurrounded(value: string, term: string)
    ensures Like(value, "%" + term + "%") == ContainsIgnoringCase(value, term)
  {
    var p := "%" + term + "%";
    assert p[1..|p| - 1] == term;
  }

  predicate Holds(c: Condition, item: Item)
  {
    match c
    case IsActive => !item.isResolved
    case StatusIs(s) => item.status == s
    case CategoryIs(k) => item.category == k
    case TitleOrDescriptionMatch(p, q) => Like(item.title, p) || Like(item.description, q)
  }

  /** A row satisfies a WHERE clause when it satisfies every condition. */
  predicate Satisfies(conditions: seq<Condition>, item: Item)
  {
    forall i :: 0 <= i < |conditions| ==> Holds(conditions[i], item)
  }

  /** The rows a bound statement returns from the table. */
  function Run(table: seq<Item>, users: map<string, string>, st: Statement): seq<Listing>
  {
    var rows := Select(Join(table, users), (l: Listing) => Satisfies(st.conditions, l.item));
    if st.newestFirst then SortNewestFirst(rows) else rows
  }

  /** `.all(...params)` on a prepared statement: None when the parameters do
      not fit the placeholders. */
  function Execute(table: seq<Item>, users: map<string, string>, fs: seq<Fragment>, params: seq<string>)
    : Option<seq<Listing>>
  {
    match Bind(fs, params)
    case None => None
    case Some(st) => Some(Run(table, users, st))
  }

  /** A statement whose text holds the SelectActive head has IsActive among
      its conditions. */
  lemma {:induction false} BindKeepsActive(fs: seq<Fragment>, params: seq<string>)
    requires SelectActive in fs
    requires Bind(fs, params).Some?
    ensures IsActive in Bind(fs, params).value.conditions
  {
    if fs[0] != SelectActive {
      BindKeepsActive(fs[1..], params[Arity(fs[0])..]);
    }
  }

  /** Whatever the parameters, a query that holds the `is_resolved = 0` head
      returns no resolved row. */
  lemma ExecuteOnlyActive(table: seq<Item>, users: map<string, string>, fs: seq<Fragment>, params: seq<string>)
    requires SelectActive in fs
    requires Execute(table, users, fs, params).Some?
    ensures forall l :: l in Execute(table, users, fs, params).value ==> !l.item.isResolved
  {
    BindKeepsActive(fs, params);
    var st := Bind(fs, params).value;
    var rows := Select(Join(table, users), (l: Listing) => Satisfies(st.conditions, l.item));
    forall l | l in Run(table, users, st) ensures !l.item.isResolved {
      if st.newestFirst {
        assert l in multiset(SortNewestFirst(rows));
      }
      assert l in rows;
      var i :| 0 <= i < |st.conditions| && st.conditions[i] == IsActive;
      assert Holds(st.conditions[i], l.item);
    }
  }
}
