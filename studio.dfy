/** The creator studio's read procedures: `getOne`, an owner-scoped lookup of one video, and
    `getMany`, keyset pagination of the caller's videos newest first. */
module Studio {
  import opened Wrappers
  import opened Schema
  import opened Table

  datatype StudioError = NotFound | BadRequest

  /** The pagination cursor: the key of the last item of the previous page. */
  datatype Cursor = Cursor(id: Uuid, updatedAt: int)

  /** What `getMany` returns; `nextCursor` is `None` when there is no further page. */
  datatype Page = Page(items: seq<Video>, nextCursor: Option<Cursor>)

  /** The bounds the input schema puts on `limit`. */
  const MinLimit := 1
  const MaxLimit := 100

  function Min(a: int, b: int): int
  {
    if a <= b then a else b
  }

  // ---------------------------------------------------------------------------------------
  // getOne

  /** The row with this id, if the caller owns it; `NOT_FOUND` otherwise. */
  function GetOne(rows: seq<Video>, userId: Uuid, id: Uuid): (r: Result<Video, StudioError>)
    ensures r.Ok? ==> r.value in rows && r.value.id == id && r.value.userId == userId
    ensures r.Err? <==> forall v :: v in rows ==> !(v.id == id && v.userId == userId)
    ensures r.Err? ==> r.error == NotFound
  {
    var found := MatchingRows(rows, Owned(id, userId));
    if |found| == 0 then
      assert found == [];
      Err(NotFound)
    else
      assert found[0] in found;
      Ok(found[0])
  }

  /** With a unique primary key the row `getOne` returns is the caller's row with that id. */
  lemma GetOneFindsOwnedRow(rows: seq<Video>, userId: Uuid, id: Uuid, v: Video)
    requires UniqueIds(rows)
    requires v in rows && v.id == id && v.userId == userId
    ensures GetOne(rows, userId, id) == Ok(v)
  {
    var r := GetOne(rows, userId, id);
    var i :| 0 <= i < |rows| && rows[i] == v;
    var j :| 0 <= j < |rows| && rows[j] == r.value;
    assert rows[i].id == rows[j].id;
  }

  // ---------------------------------------------------------------------------------------
  // The order of `getMany`: `orderBy(desc(updatedAt), desc(id))`, and its cursor filter

  /** `v` lies strictly after cursor `c`: `updatedAt < c.updatedAt`, or the same `updatedAt`
      and `id < c.id`. */
  predicate AfterCursor(v: Video, c: Cursor)
  {
    v.updatedAt < c.updatedAt || (v.updatedAt == c.updatedAt && v.id < c.id)
  }

  /** The cursor a page hands out for item `v`. */
  function KeyOf(v: Video): Cursor
  {
    Cursor(v.id, v.updatedAt)
  }

  /** `a` comes strictly before `b` in descending `(updatedAt, id)` order. */
  predicate Precedes(a: Video, b: Video)
  {
    a.updatedAt > b.updatedAt || (a.updatedAt == b.updatedAt && a.id > b.id)
  }

  /** Following a cursor keeps exactly what comes after the item the cursor was taken from. */
  lemma AfterKeyIsPrecedes(a: Video, v: Video)
    ensures AfterCursor(v, KeyOf(a)) <==> Precedes(a, v)
  {
  }

  /** Rows with different ids are always ordered one way or the other. */
  lemma PrecedesTotal(a: Video, b: Video)
    requires a.id != b.id
    ensures Precedes(a, b) || Precedes(b, a)
  {
  }

  predicate StrictlyOrdered(s: seq<Video>)
  {
    forall i, j :: 0 <= i < j < |s| ==> Precedes(s[i], s[j])
  }

  /** The `where` clause of `getMany`: owned by the caller and, given a cursor, after it. */
  predicate Qualifies(v: Video, userId: Uuid, cursor: Option<Cursor>)
  {
    v.userId == userId && (cursor.Some? ==> AfterCursor(v, cursor.value))
  }

  /** The rows the `where` clause keeps, in table order. */
  function Filter(rows: seq<Video>, userId: Uuid, cursor: Option<Cursor>): seq<Video>
  {
    if rows == [] then []
    else if Qualifies(rows[0], userId, cursor) then [rows[0]] + Filter(rows[1..], userId, cursor)
    else Filter(rows[1..], userId, cursor)
  }

  /** The filter keeps exactly the qualifying rows and adds none. */
  lemma {:induction false} FilterMembers(rows: seq<Video>, userId: Uuid, cursor: Option<Cursor>)
    ensures forall v :: v in Filter(rows, userId, cursor) <==> v in rows && Qualifies(v, userId, cursor)
    ensures |Filter(rows, userId, cursor)| <= |rows|
  {
    if rows != [] {
      FilterMembers(rows[1..], userId, cursor);
      assert rows == [rows[0]] + rows[1..];
    }
  }

  lemma {:induction false} FilterUniqueIds(rows: seq<Video>, userId: Uuid, cursor: Option<Cursor>)
    requires UniqueIds(rows)
    ensures UniqueIds(Filter(rows, userId, cursor))
  {
    if rows != [] {
      TailUniqueIds(rows);
      FilterUniqueIds(rows[1..], userId, cursor);
      FilterMembers(rows[1..], userId, cursor);
    }
  }

  /** Insertion of one row into a descending sequence. */
  function Insert(x: Video, s: seq<Video>): seq<Video>
  {
    if s == [] || Precedes(x, s[0]) then [x] + s
    else [s[0]] + Insert(x, s[1..])
  }

  /** The database's sort (`order by updated_at desc, id desc`), as an insertion sort. */
  function SortDesc(s: seq<Video>): seq<Video>
  {
    if s == [] then [] else Insert(s[0], SortDesc(s[1..]))
  }

  /** Insertion adds exactly the one row. */
  lemma {:induction false} InsertPermutes(x: Video, s: seq<Video>)
    ensures multiset(Insert(x, s)) == multiset(s) + multiset{x}
  {
    if s != [] && !Precedes(x, s[0]) {
      InsertPermutes(x, s[1..]);
      assert s == [s[0]] + s[1..];
    }
  }

  /** The sort is a permutation of its input. */
  lemma {:induction false} SortDescPermutes(s: seq<Video>)
    ensures multiset(SortDesc(s)) == multiset(s)
  {
    if s != [] {
      SortDescPermutes(s[1..]);
      InsertPermutes(s[0], SortDesc(s[1..]));
      assert s == [s[0]] + s[1..];
    }
  }

  lemma {:induction false} InsertOrdered(x: Video, s: seq<Video>)
    requires StrictlyOrdered(s)
    requires forall v :: v in s ==> v.id != x.id
    ensures StrictlyOrdered(Insert(x, s))
  {
    if s == [] || Precedes(x, s[0]) {
      var r := [x] + s;
      forall i, j | 0 <= i < j < |r| ensures Precedes(r[i], r[j]) {
        if i == 0 && j > 1 {
          assert Precedes(s[0], s[j - 1]);
        }
      }
    } else {
      assert s[0] in s;
      PrecedesTotal(s[0], x);
      InsertOrdered(x, s[1..]);
      var tail := Insert(x, s[1..]);
      InsertPermutes(x, s[1..]);
      forall e | e in tail ensures Precedes(s[0], e) {
        assert e in multiset(tail);
        if e != x {
          assert e in s[1..];
        }
      }
      var r := [s[0]] + tail;
      forall i, j | 0 <= i < j < |r| ensures Precedes(r[i], r[j]) {
        if i == 0 {
          assert r[j] == tail[j - 1] && tail[j - 1] in tail;
        } else {
          assert r[i] == tail[i - 1] && r[j] == tail[j - 1];
        }
      }
    }
  }

  /** With unique ids the sort is strict: no two rows tie. */
  lemma {:induction false} SortDescOrdered(s: seq<Video>)
    requires UniqueIds(s)
    ensures StrictlyOrdered(SortDesc(s))
  {
    if s != [] {
      TailUniqueIds(s);
      SortDescOrdered(s[1..]);
      var t := SortDesc(s[1..]);
      SortDescPermutes(s[1..]);
      forall v | v in t ensures v.id != s[0].id {
        assert v in multiset(s[1..]);
      }
      InsertOrdered(s[0], t);
    }
  }

  /** The head of a strictly ordered sequence precedes every other member, and the tail holds
      every member but the head. */
  lemma {:induction false} HeadOfOrdered(s: seq<Video>, v: Video)
    requires StrictlyOrdered(s) && s != [] && v in s
    ensures v == s[0] || Precedes(s[0], v)
    ensures v in s[1..] <==> v != s[0]
  {
    var j :| 0 <= j < |s| && s[j] == v;
    if j > 0 {
      assert s[1..][j - 1] == v;
      assert Precedes(s[0], s[j]);
    }
    if v in s[1..] {
      var k :| 0 <= k < |s[1..]| && s[1..][k] == v;
      assert s[k + 1] == v && Precedes(s[0], s[k + 1]);
    }
  }

  /** Two strictly ordered sequences with the same members are equal: the order determines
      the sequence. */
  lemma {:induction false} OrderedUnique(s: seq<Video>, t: seq<Video>)
    requires StrictlyOrdered(s) && StrictlyOrdered(t)
    requires forall v :: v in s <==> v in t
    ensures s == t
  {
    if s != [] {
      assert s[0] in s;
    }
    if t != [] {
      assert t[0] in t;
    }
    if s != [] && t != [] {
      HeadOfOrdered(s, t[0]);
      HeadOfOrdered(t, s[0]);
      assert s[0] == t[0];
      forall v ensures v in s[1..] <==> v in t[1..] {
        if v in s {
          HeadOfOrdered(s, v);
          HeadOfOrdered(t, v);
        } else {
          assert v !in s[1..] && v !in t[1..];
        }
      }
      assert StrictlyOrdered(s[1..]) by {
        forall i, j | 0 <= i < j < |s| - 1 ensures Precedes(s[1..][i], s[1..][j]) {
          assert s[1..][i] == s[i + 1] && s[1..][j] == s[j + 1];
        }
      }
      assert StrictlyOrdered(t[1..]) by {
        forall i, j | 0 <= i < j < |t| - 1 ensures Precedes(t[1..][i], t[1..][j]) {
          assert t[1..][i] == t[i + 1] && t[1..][j] == t[j + 1];
        }
      }
      OrderedUnique(s[1..], t[1..]);
      assert s == [s[0]] + s[1..] && t == [t[0]] + t[1..];
    }
  }

  /** The rows `getMany` selects, sorted: before `limit` is applied. */
  function Query(rows: seq<Video>, userId: Uuid, cursor: Option<Cursor>): seq<Video>
  {
    SortDesc(Filter(rows, userId, cursor))
  }

  /** The sorted selection holds exactly the qualifying rows, strictly in descending order. */
  lemma QueryProperties(rows: seq<Video>, userId: Uuid, cursor: Option<Cursor>)
    requires UniqueIds(rows)
    ensures StrictlyOrdered(Query(rows, userId, cursor))
    ensures forall v :: v in Query(rows, userId, cursor) <==> v in rows && Qualifies(v, userId, cursor)
    ensures |Query(rows, userId, cursor)| <= |rows|
  {
    var f := Filter(rows, userId, cursor);
    FilterMembers(rows, userId, cursor);
    FilterUniqueIds(rows, userId, cursor);
    SortDescOrdered(f);
    SortDescPermutes(f);
    var q := SortDesc(f);
    assert |q| == |multiset(q)| == |multiset(f)| == |f|;
    forall v ensures v in q <==> v in f {
      assert v in q <==> v in multiset(q);
      assert v in f <==> v in multiset(f);
    }
  }

  /** In a strictly ordered sequence the members after position `k` are exactly the members
      that `s[k]` precedes. */
  lemma OrderedSuffix(s: seq<Video>, k: nat, v: Video)
    requires StrictlyOrdered(s) && k < |s| && v in s
    ensures v in s[k + 1..] <==> Precedes(s[k], v)
  {
    var j :| 0 <= j < |s| && s[j] == v;
    if j > k {
      assert s[k + 1..][j - k - 1] == v;
    } else if j < k {
      assert Precedes(s[j], s[k]);
    }
    if v in s[k + 1..] {
      var m :| 0 <= m < |s[k + 1..]| && s[k + 1..][m] == v;
      assert s[k + 1 + m] == v;
    }
  }

  /** Restarting the query from the key of its `k`-th row gives exactly the rows after it. */
  lemma QueryAfterItem(rows: seq<Video>, userId: Uuid, cursor: Option<Cursor>, k: nat)
    requires UniqueIds(rows)
    requires k < |Query(rows, userId, cursor)|
    ensures Query(rows, userId, Some(KeyOf(Query(rows, userId, cursor)[k])))
         == Query(rows, userId, cursor)[k + 1..]
  {
    var q := Query(rows, userId, cursor);
    var next := Some(KeyOf(q[k]));
    var q2 := Query(rows, userId, next);
    QueryProperties(rows, userId, cursor);
    QueryProperties(rows, userId, next);
    assert q[k] in q;
    forall v ensures v in q2 <==> v in q[k + 1..] {
      AfterKeyIsPrecedes(q[k], v);
      if v in q[k + 1..] {
        assert v in q;
        OrderedSuffix(q, k, v);
      }
      if v in q2 {
        assert v in q;
        OrderedSuffix(q, k, v);
      }
    }
    var rest := q[k + 1..];
    assert StrictlyOrdered(rest) by {
      forall i, j | 0 <= i < j < |rest| ensures Precedes(rest[i], rest[j]) {
        assert rest[i] == q[k + 1 + i] && rest[j] == q[k + 1 + j];
      }
    }
    OrderedUnique(q2, rest);
  }

  // ---------------------------------------------------------------------------------------
  // getMany

  /** One page: the first `limit` qualifying rows in order, and the cursor of the next page.
      Fetches `limit + 1` rows; a surplus row means there is a next page. */
  function GetMany(rows: seq<Video>, userId: Uuid, cursor: Option<Cursor>, limit: int)
    : (r: Result<Page, StudioError>)
    ensures r.Err? <==> !(MinLimit <= limit <= MaxLimit)
    ensures r.Err? ==> r.error == BadRequest
    ensures r.Ok? ==>
      var q := Query(rows, userId, cursor);
      && |r.value.items| <= limit
      && r.value.items == q[..Min(limit, |q|)]
      && (r.value.nextCursor.Some? <==> |q| > limit)
      && (r.value.nextCursor.Some? ==>
            |r.value.items| == limit && r.value.nextCursor.value == KeyOf(r.value.items[limit - 1]))
  {
    if limit < MinLimit || limit > MaxLimit then Err(BadRequest)
    else
      var q := Query(rows, userId, cursor);
      var data := q[..Min(limit + 1, |q|)];
      var hasMore := |data| > limit;
      var items := if hasMore then data[..|data| - 1] else data;
      var nextCursor := if hasMore then Some(KeyOf(items[|items| - 1])) else None;
      Ok(Page(items, nextCursor))
  }

  /** Every item of a page is one of the caller's rows, lies after the cursor, and the items are
      strictly in descending `(updatedAt, id)` order. */
  lemma GetManyItemsQualify(rows: seq<Video>, userId: Uuid, cursor: Option<Cursor>, limit: int)
    requires UniqueIds(rows)
    requires GetMany(rows, userId, cursor, limit).Ok?
    ensures var items := GetMany(rows, userId, cursor, limit).value.items;
      && StrictlyOrdered(items)
      && forall v :: v in items ==>
           v in rows && v.userId == userId && (cursor.Some? ==> AfterCursor(v, cursor.value))
  {
    var q := Query(rows, userId, cursor);
    QueryProperties(rows, userId, cursor);
    var items := GetMany(rows, userId, cursor, limit).value.items;
    assert items == q[..|items|];
    forall v | v in items ensures v in q {
      var i :| 0 <= i < |items| && items[i] == v;
      assert q[i] == v;
    }
    forall i, j | 0 <= i < j < |items| ensures Precedes(items[i], items[j]) {
      assert items[i] == q[i] && items[j] == q[j];
    }
  }

  /** The page after a page continues it: its items are the next rows of the same query, all of
      them after every item of the first page. */
  lemma NextPageContinues(rows: seq<Video>, userId: Uuid, cursor: Option<Cursor>, limit: int,
                          nextLimit: int)
    requires UniqueIds(rows)
    requires GetMany(rows, userId, cursor, limit).Ok?
    requires GetMany(rows, userId, cursor, limit).value.nextCursor.Some?
    requires MinLimit <= nextLimit <= MaxLimit
    ensures var first := GetMany(rows, userId, cursor, limit).value;
      var second := GetMany(rows, userId, first.nextCursor, nextLimit).value;
      var q := Query(rows, userId, cursor);
      && first.items + second.items == q[..Min(limit + nextLimit, |q|)]
      && forall i, j :: 0 <= i < |first.items| && 0 <= j < |second.items| ==>
           Precedes(first.items[i], second.items[j])
  {
    var q := Query(rows, userId, cursor);
    var first := GetMany(rows, userId, cursor, limit).value;
    assert |q| > limit && first.items == q[..limit];
    QueryAfterItem(rows, userId, cursor, limit - 1);
    var second := GetMany(rows, userId, first.nextCursor, nextLimit).value;
    assert second.items == q[limit..][..Min(nextLimit, |q| - limit)];
    PrefixThenPrefix(q, limit, nextLimit);
    QueryProperties(rows, userId, cursor);
    forall i, j | 0 <= i < |first.items| && 0 <= j < |second.items|
      ensures Precedes(first.items[i], second.items[j])
    {
      assert first.items[i] == q[i] && second.items[j] == q[limit + j];
    }
  }

  /** Taking `a` elements and then `b` more is taking `a + b`. */
  lemma PrefixThenPrefix<T>(q: seq<T>, a: nat, b: nat)
    requires a <= |q|
    ensures q[..a] + q[a..][..Min(b, |q| - a)] == q[..Min(a + b, |q|)]
  {
  }

  /** The rows a client sees after loading `n` pages, each time passing the `nextCursor` of the
      page before, as an infinite-scroll list does. */
  function Pages(rows: seq<Video>, userId: Uuid, cursor: Option<Cursor>, limit: int, n: nat)
    : seq<Video>
    decreases n
  {
    if n == 0 then []
    else
      match GetMany(rows, userId, cursor, limit)
      case Err(_) => []
      case Ok(page) =>
        page.items + (if page.nextCursor.None? then []
                      else Pages(rows, userId, page.nextCursor, limit, n - 1))
  }

  /** How many items `n` full pages of `limit` items hold. */
  function Capacity(n: nat, limit: nat): nat
  {
    if n == 0 then 0 else limit + Capacity(n - 1, limit)
  }


  lemma {:induction false} CapacityIsProduct(n: nat, limit: nat)
    ensures Capacity(n, limit) == n * limit
  {
    if n > 0 {
      CapacityIsProduct(n - 1, limit);
      assert n * limit == (n - 1) * limit + limit;
    }
  }

  /** `n` pages are the first `n * limit` rows of the query, in the query's order. */
  lemma {:induction false} PagesFollowQuery(rows: seq<Video>, userId: Uuid, cursor: Option<Cursor>,
                                            limit: int, n: nat)
    requires UniqueIds(rows)
    decreases n
    requires MinLimit <= limit <= MaxLimit
    ensures var q := Query(rows, userId, cursor);
      Pages(rows, userId, cursor, limit, n) == q[..Min(Capacity(n, limit), |q|)]
  {
    var q := Query(rows, userId, cursor);
    if n > 0 {
      if |q| > limit {
        var next := Some(KeyOf(q[limit - 1]));
        PagesFollowQuery(rows, userId, next, limit, n - 1);
        PagesFullPage(rows, userId, cursor, limit, n);
      } else {
        PagesLast(rows, userId, cursor, limit, n);
      }
    }
  }

  /** The inductive step: a full first page, followed by `n - 1` pages that follow the query
      restarted after it, follows the query. */
  lemma PagesFullPage(rows: seq<Video>, userId: Uuid, cursor: Option<Cursor>, limit: int, n: nat)
    requires UniqueIds(rows)
    requires MinLimit <= limit <= MaxLimit && n > 0
    requires |Query(rows, userId, cursor)| > limit
    requires var q := Query(rows, userId, cursor);
      var q' := Query(rows, userId, Some(KeyOf(q[limit - 1])));
      Pages(rows, userId, Some(KeyOf(q[limit - 1])), limit, n - 1)
        == q'[..Min(Capacity(n - 1, limit), |q'|)]
    ensures var q := Query(rows, userId, cursor);
      Pages(rows, userId, cursor, limit, n) == q[..Min(Capacity(n, limit), |q|)]
  {
    var q := Query(rows, userId, cursor);
    var next := Some(KeyOf(q[limit - 1]));
    var c := Capacity(n - 1, limit);
    PagesStep(rows, userId, cursor, limit, n);
    QueryAfterItem(rows, userId, cursor, limit - 1);
    Assemble(q, limit, c, Query(rows, userId, next), Pages(rows, userId, next, limit, n - 1),
             Pages(rows, userId, cursor, limit, n));
  }

  /** A first page `q[..a]`, followed by the first `c` rows of the rest, is the first `a + c`
      rows. */
  lemma Assemble<T>(q: seq<T>, a: nat, c: nat, rest: seq<T>, later: seq<T>, all: seq<T>)
    requires a <= |q| && rest == q[a..] && later == rest[..Min(c, |rest|)]
    requires all == q[..a] + later
    ensures all == q[..Min(a + c, |q|)]
  {
  }

  /** A full page is followed by the pages read from its last item's key. */
  lemma PagesStep(rows: seq<Video>, userId: Uuid, cursor: Option<Cursor>, limit: int, n: nat)
    requires MinLimit <= limit <= MaxLimit && n > 0
    requires |Query(rows, userId, cursor)| > limit
    ensures var q := Query(rows, userId, cursor);
      Pages(rows, userId, cursor, limit, n)
        == q[..limit] + Pages(rows, userId, Some(KeyOf(q[limit - 1])), limit, n - 1)
  {
    var page := GetMany(rows, userId, cursor, limit).value;
    assert page.items[limit - 1] == Query(rows, userId, cursor)[limit - 1];
  }

  /** A page with no next cursor is the last one the client loads. */
  lemma PagesLast(rows: seq<Video>, userId: Uuid, cursor: Option<Cursor>, limit: int, n: nat)
    requires MinLimit <= limit <= MaxLimit && n > 0
    requires |Query(rows, userId, cursor)| <= limit
    ensures Capacity(n, limit) >= |Query(rows, userId, cursor)|
    ensures Pages(rows, userId, cursor, limit, n) == Query(rows, userId, cursor)
  {
  }

  /** Rows of a table with a unique primary key that are strictly ordered have unique ids. */
  lemma OrderedRowsUniqueIds(s: seq<Video>, rows: seq<Video>)
    requires UniqueIds(rows) && StrictlyOrdered(s)
    requires forall v :: v in s ==> v in rows
    ensures UniqueIds(s)
  {
    forall i, j | 0 <= i < j < |s| ensures s[i].id != s[j].id {
      assert s[i] in rows && s[j] in rows;
      var a :| 0 <= a < |rows| && rows[a] == s[i];
      var b :| 0 <= b < |rows| && rows[b] == s[j];
      assert Precedes(s[i], s[j]);
    }
  }

  /** Paging from the first page on never shows a video twice, and once enough pages are loaded
      it has shown every video of the caller. */
  lemma PagesVisitEachOwnedRowOnce(rows: seq<Video>, userId: Uuid, limit: int, n: nat)
    requires UniqueIds(rows)
    requires MinLimit <= limit <= MaxLimit
    ensures UniqueIds(Pages(rows, userId, None, limit, n))
    ensures forall v :: v in Pages(rows, userId, None, limit, n) ==> v in rows && v.userId == userId
    ensures n * limit >= |rows| ==>
      forall v :: v in rows && v.userId == userId ==> v in Pages(rows, userId, None, limit, n)
  {
    var q := Query(rows, userId, None);
    var p := Pages(rows, userId, None, limit, n);
    PagesFollowQuery(rows, userId, None, limit, n);
    var m := Min(Capacity(n, limit), |q|);
    CapacityIsProduct(n, limit);
    assert p == q[..m];
    QueryProperties(rows, userId, None);
    PrefixOfOrderedRows(q, m, rows);
    if n * limit >= |rows| {
      assert m == |q|;
      assert p == q;
    }
  }

  /** A prefix of the strictly ordered rows of a query is strictly ordered, has unique ids and
      holds only rows of the table. */
  lemma PrefixOfOrderedRows(q: seq<Video>, m: nat, rows: seq<Video>)
    requires UniqueIds(rows) && StrictlyOrdered(q) && m <= |q|
    requires forall v :: v in q ==> v in rows
    ensures UniqueIds(q[..m]) && forall v :: v in q[..m] ==> v in q
  {
    var p := q[..m];
    forall v | v in p ensures v in q {
      var i :| 0 <= i < |p| && p[i] == v;
      assert q[i] == v;
    }
    assert StrictlyOrdered(p) by {
      forall i, j | 0 <= i < j < |p| ensures Precedes(p[i], p[j]) {
        assert p[i] == q[i] && p[j] == q[j];
      }
    }
    OrderedRowsUniqueIds(p, rows);
  }
}
