/** Rows of the `items` table, the listings the server returns (a row joined
    with its reporter's user name), and the relational operations the listing
    query is made of: the inner join with `users`, a row filter and the
    `ORDER BY created_at DESC` sort. */
module Items {
  import opened Wrappers

  /** One row of the `items` table (server.js lines 22-36). `createdAt`
      stands for the CURRENT_TIMESTAMP default; `imageUrl` is NULL (None)
      when no image was uploaded. */
  datatype Item = Item(
    id: string,
    title: string,
    description: string,
    category: string,
    location: string,
    date: string,
    status: string,
    imageUrl: Option<string>,
    reporterId: string,
    contactInfo: string,
    isResolved: bool,
    createdAt: nat)

  /** A row of the listing query: `items.*` plus `users.username as reporter_name`. */
  datatype Listing = Listing(item: Item, reporterName: string)

  /** The user known to the client after logging in. */
  datatype User = User(id: string, username: string, email: string)

  /** `items JOIN users ON items.reporter_id = users.id`, with `users` given as
      the map from a user id to its user name. Rows whose reporter is not a
      user are dropped; the others keep their order. */
  function Join(table: seq<Item>, users: map<string, string>): (r: seq<Listing>)
    ensures |r| <= |table|
    ensures forall l :: l in r <==>
      l.item in table && l.item.reporterId in users && l.reporterName == users[l.item.reporterId]
  {
    if table == [] then []
    else
      var rest := Join(table[1..], users);
      assert forall x :: x in table <==> x == table[0] || x in table[1..];
      if table[0].reporterId in users then [Listing(table[0], users[table[0].reporterId])] + rest
      else rest
  }

  lemma {:induction false} JoinAppend(a: seq<Item>, b: seq<Item>, users: map<string, string>)
    ensures Join(a + b, users) == Join(a, users) + Join(b, users)
  {
    if a == [] {
      assert a + b == b;
    } else {
      assert (a + b)[1..] == a[1..] + b;
      JoinAppend(a[1..], b, users);
    }
  }

  /** The rows of `s` that satisfy `p`, in their original order
      (a WHERE clause, or `Array.prototype.filter`). */
  function Select(s: seq<Listing>, p: Listing -> bool): (r: seq<Listing>)
    ensures |r| <= |s|
    ensures forall x :: x in r <==> x in s && p(x)
  {
    if s == [] then []
    else
      var rest := Select(s[1..], p);
      assert forall x :: x in s <==> x == s[0] || x in s[1..];
      if p(s[0]) then [s[0]] + rest else rest
  }

  /** Each row that satisfies `p` is kept as many times as it occurs, and
      every other row is dropped. */
  lemma {:induction false} SelectMultiplicity(s: seq<Listing>, p: Listing -> bool)
    ensures forall x :: multiset(Select(s, p))[x] == if p(x) then multiset(s)[x] else 0
  {
    if s != [] {
      SelectMultiplicity(s[1..], p);
      assert s == [s[0]] + s[1..];
    }
  }

  /** `sub` can be obtained from `s` by deleting elements. */
  predicate IsSubsequence(sub: seq<Listing>, s: seq<Listing>)
    decreases |s|
  {
    sub == [] ||
    (s != [] && ((sub[0] == s[0] && IsSubsequence(sub[1..], s[1..])) || IsSubsequence(sub, s[1..])))
  }

  lemma {:induction false} SelectIsSubsequence(s: seq<Listing>, p: Listing -> bool)
    ensures IsSubsequence(Select(s, p), s)
  {
    if s != [] {
      SelectIsSubsequence(s[1..], p);
    }
  }

  /** Applying the same filter twice is applying it once. */
  lemma {:induction false} SelectIdempotent(s: seq<Listing>, p: Listing -> bool)
    ensures Select(Select(s, p), p) == Select(s, p)
  {
    if s != [] {
      SelectIdempotent(s[1..], p);
      if p(s[0]) {
        assert ([s[0]] + Select(s[1..], p))[1..] == Select(s[1..], p);
      }
    }
  }

  /** Two filters in a row are one filter by their conjunction. */
  lemma {:induction false} SelectSelect(s: seq<Listing>, p: Listing -> bool, q: Listing -> bool, both: Listing -> bool)
    requires forall x :: both(x) == (p(x) && q(x))
    ensures Select(Select(s, p), q) == Select(s, both)
  {
    if s != [] {
      SelectSelect(s[1..], p, q, both);
      if p(s[0]) {
        assert ([s[0]] + Select(s[1..], p))[1..] == Select(s[1..], p);
      }
    }
  }

  /** Filters that agree on every element of `s` select the same rows. */
  lemma {:induction false} SelectCongruent(s: seq<Listing>, p: Listing -> bool, q: Listing -> bool)
    requires forall x :: x in s ==> p(x) == q(x)
    ensures Select(s, p) == Select(s, q)
  {
    if s != [] {
      SelectCongruent(s[1..], p, q);
    }
  }

  /** A filter every row passes keeps the whole sequence. */
  lemma {:induction false} SelectAll(s: seq<Listing>, p: Listing -> bool)
    requires forall x :: x in s ==> p(x)
    ensures Select(s, p) == s
  {
    if s != [] {
      SelectAll(s[1..], p);
    }
  }

  lemma {:induction false} SelectAppend(a: seq<Listing>, b: seq<Listing>, p: Listing -> bool)
    ensures Select(a + b, p) == Select(a, p) + Select(b, p)
  {
    if a == [] {
      assert a + b == b;
    } else {
      assert (a + b)[1..] == a[1..] + b;
      SelectAppend(a[1..], b, p);
    }
  }

  /** `s` is ordered newest first: creation times never increase. */
  predicate NewestFirst(s: seq<Listing>)
  {
    forall i, j :: 0 <= i < j < |s| ==> s[i].item.createdAt >= s[j].item.createdAt
  }

  /** Puts `x` into a sequence, before the first row no newer than it. */
  function InsertByAge(x: Listing, s: seq<Listing>): (r: seq<Listing>)
    ensures multiset(r) == multiset(s) + multiset{x}
  {
    if s == [] then [x]
    else if x.item.createdAt >= s[0].item.createdAt then [x] + s
    else
      assert s == [s[0]] + s[1..];
      [s[0]] + InsertByAge(x, s[1..])
  }

  lemma ConsNewestFirst(h: Listing, s: seq<Listing>)
    requires NewestFirst(s)
    requires forall y :: y in s ==> y.item.createdAt <= h.item.createdAt
    ensures NewestFirst([h] + s)
  {
    var r := [h] + s;
    forall i, j | 0 <= i < j < |r| ensures r[i].item.createdAt >= r[j].item.createdAt {
      assert r[j] == s[j - 1];
      if i > 0 {
        assert r[i] == s[i - 1];
      }
    }
  }

  lemma {:induction false} InsertByAgeKeepsOrder(x: Listing, s: seq<Listing>)
    requires NewestFirst(s)
    ensures NewestFirst(InsertByAge(x, s))
  {
    if s == [] {
    } else if x.item.createdAt >= s[0].item.createdAt {
      forall y | y in s ensures y.item.createdAt <= x.item.createdAt {
        var j :| 0 <= j < |s| && s[j] == y;
        assert j == 0 || s[0].item.createdAt >= s[j].item.createdAt;
      }
      ConsNewestFirst(x, s);
    } else {
      var tail := s[1..];
      assert NewestFirst(tail) by {
        forall i, j | 0 <= i < j < |tail| ensures tail[i].item.createdAt >= tail[j].item.createdAt {
          assert tail[i] == s[i + 1] && tail[j] == s[j + 1];
        }
      }
      InsertByAgeKeepsOrder(x, tail);
      var rest := InsertByAge(x, tail);
      forall y | y in rest ensures y.item.createdAt <= s[0].item.createdAt {
        assert y in multiset(rest);
        if y != x {
          var j :| 0 <= j < |tail| && tail[j] == y;
          assert s[j + 1] == y;
        }
      }
      ConsNewestFirst(s[0], rest);
    }
  }

  /** `ORDER BY created_at DESC`: a stable insertion sort by creation time. */
  function SortNewestFirst(s: seq<Listing>): (r: seq<Listing>)
    ensures NewestFirst(r)
    ensures multiset(r) == multiset(s)
  {
    if s == [] then []
    else
      assert s == [s[0]] + s[1..];
      var rest := SortNewestFirst(s[1..]);
      InsertByAgeKeepsOrder(s[0], rest);
      InsertByAge(s[0], rest)
  }

  lemma {:induction false} SelectInsert(x: Listing, s: seq<Listing>, p: Listing -> bool)
    requires NewestFirst(s)
    ensures NewestFirst(Select(s, p))
    ensures Select(InsertByAge(x, s), p) ==
            if p(x) then InsertByAge(x, Select(s, p)) else Select(s, p)
  {
    SelectKeepsOrder(s, p);
    if s == [] {
    } else if x.item.createdAt >= s[0].item.createdAt {
      assert ([x] + s)[1..] == s;
      if p(x) {
        var t := Select(s, p);
        if t != [] {
          assert t[0] in s;
        }
      }
    } else {
      SelectInsert(x, s[1..], p);
      var rest := InsertByAge(x, s[1..]);
      assert ([s[0]] + rest)[1..] == rest;
      SelectKeepsOrder(s[1..], p);
    }
  }

  lemma {:induction false} SelectKeepsOrder(s: seq<Listing>, p: Listing -> bool)
    requires NewestFirst(s)
    ensures NewestFirst(Select(s, p))
    ensures Select(s, p) != [] ==> s != [] && Select(s, p)[0].item.createdAt <= s[0].item.createdAt
  {
    if s != [] {
      SelectKeepsOrder(s[1..], p);
      var rest := Select(s[1..], p);
      if p(s[0]) {
        forall j | 0 < j < |[s[0]] + rest|
          ensures ([s[0]] + rest)[0].item.createdAt >= ([s[0]] + rest)[j].item.createdAt
        {
          assert rest[j - 1] in s[1..];
        }
      } else if rest != [] {
        assert rest[0] in s[1..];
      }
    }
  }

  /** Filtering the sorted rows is sorting the filtered rows: the ORDER BY
      may be applied before or after the WHERE. */
  lemma {:induction false} SelectSortCommute(s: seq<Listing>, p: Listing -> bool)
    ensures Select(SortNewestFirst(s), p) == SortNewestFirst(Select(s, p))
  {
    if s != [] {
      SelectSortCommute(s[1..], p);
      SelectInsert(s[0], SortNewestFirst(s[1..]), p);
    }
  }

  /** A row strictly newer than all others is listed first. */
  lemma {:induction false} SortNewestFirstPutsNewestFirst(s: seq<Listing>, x: Listing)
    requires forall y :: y in s ==> y.item.createdAt < x.item.createdAt
    ensures SortNewestFirst(s + [x]) == [x] + SortNewestFirst(s)
  {
    if s == [] {
    } else {
      assert (s + [x])[0] == s[0] && (s + [x])[1..] == s[1..] + [x];
      SortNewestFirstPutsNewestFirst(s[1..], x);
    }
  }
}
