/** The worker's `memos` table, reduced to the meaning of the three SQL
    statements it runs: an INSERT of (user_id, content), a SELECT of one user's
    ten newest rows ordered by `created_at DESC`, and a DELETE filtered by
    `id AND user_id`. The schema is not part of this model. An inserted row
    gets an id one above the largest present, as SQLite's rowid does, and a
    `created_at` supplied by the caller in place of the database clock. */
module MemoTable {

  datatype Row = Row(id: int, userId: string, content: string, createdAt: int)

  /** The rows in storage order. */
  type Table = seq<Row>

  /** The most rows one listing shows (`LIMIT 10`). */
  const ListLimit: nat := 10

  predicate UniqueIds(t: Table) {
    forall i, j :: 0 <= i < j < |t| ==> t[i].id != t[j].id
  }

  function MaxId(t: Table): (m: int)
    ensures forall r :: r in t ==> r.id <= m
    ensures t == [] ==> m == 0
  {
    if t == [] then 0
    else
      var rest := MaxId(t[1..]);
      assert forall r :: r in t ==> r == t[0] || r in t[1..];
      if t[0].id > rest then t[0].id else rest
  }

  /** `INSERT INTO memos (user_id, content) VALUES (?, ?)`. */
  function Insert(t: Table, userId: string, content: string, now: int): (t': Table)
    ensures |t'| == |t| + 1 && t'[..|t|] == t
    ensures t'[|t|].userId == userId && t'[|t|].content == content && t'[|t|].createdAt == now
    ensures forall r :: r in t ==> r.id != t'[|t|].id
    ensures UniqueIds(t) ==> UniqueIds(t')
  {
    t + [Row(MaxId(t) + 1, userId, content, now)]
  }

  /** The predicate of the DELETE statement. */
  predicate Matches(r: Row, id: int, userId: string) {
    r.id == id && r.userId == userId
  }

  /** The rows left after a DELETE and its `meta.changes` count. */
  datatype Deleted = Deleted(rows: Table, changes: nat)

  /** `DELETE FROM memos WHERE id = ? AND user_id = ?`. */
  function Delete(t: Table, id: int, userId: string): (d: Deleted)
    ensures |d.rows| + d.changes == |t|
    ensures forall r :: r in d.rows ==> r in t && !Matches(r, id, userId)
    ensures forall r :: r in t && !Matches(r, id, userId) ==> r in d.rows
    ensures d.changes == 0 <==> forall r :: r in t ==> !Matches(r, id, userId)
  {
    if t == [] then Deleted([], 0)
    else
      var rest := Delete(t[1..], id, userId);
      assert forall r :: r in t ==> r == t[0] || r in t[1..];
      if Matches(t[0], id, userId) then Deleted(rest.rows, rest.changes + 1)
      else Deleted([t[0]] + rest.rows, rest.changes)
  }

  /** `WHERE user_id = ?`: one user's rows in storage order. */
  function RowsOf(t: Table, userId: string): (rows: seq<Row>)
    ensures forall r :: r in rows <==> r in t && r.userId == userId
    ensures forall r: Row :: r.userId == userId ==> multiset(rows)[r] == multiset(t)[r]
    ensures forall r: Row :: r.userId != userId ==> multiset(rows)[r] == 0
  {
    if t == [] then []
    else
      assert forall r :: r in t ==> r == t[0] || r in t[1..];
      assert t == [t[0]] + t[1..];
      if t[0].userId == userId then [t[0]] + RowsOf(t[1..], userId) else RowsOf(t[1..], userId)
  }

  /** A DELETE on behalf of one user never touches another user's rows. */
  lemma {:induction false} DeleteSparesOtherUsers(t: Table, id: int, requester: string, other: string)
    requires requester != other
    ensures RowsOf(Delete(t, id, requester).rows, other) == RowsOf(t, other)
  {
    if t != [] {
      DeleteSparesOtherUsers(t[1..], id, requester, other);
      var rest := Delete(t[1..], id, requester);
      if !Matches(t[0], id, requester) {
        assert ([t[0]] + rest.rows)[1..] == rest.rows;
      }
    }
  }

  /** With unique ids a DELETE removes at most one row. */
  lemma {:induction false} DeleteRemovesAtMostOne(t: Table, id: int, userId: string)
    requires UniqueIds(t)
    ensures Delete(t, id, userId).changes <= 1
  {
    if t != [] {
      assert UniqueIds(t[1..]) by {
        assert forall i :: 0 <= i < |t| - 1 ==> t[1..][i] == t[i + 1];
      }
      DeleteRemovesAtMostOne(t[1..], id, userId);
      if Matches(t[0], id, userId) {
        assert forall r :: r in t[1..] ==> r.id != id by {
          forall r | r in t[1..] ensures r.id != id {
            var k :| 0 <= k < |t[1..]| && t[1..][k] == r;
            assert t[k + 1] == r;
          }
        }
      }
    }
  }

  /** Newest first: `created_at` never increases along the sequence. */
  predicate NewestFirst(s: seq<Row>) {
    forall i, j :: 0 <= i < j < |s| ==> s[i].createdAt >= s[j].createdAt
  }

  /** Inserts a row into a newest-first sequence, ahead of rows no newer than it. */
  function InsertByAge(r: Row, s: seq<Row>): (s': seq<Row>)
    requires NewestFirst(s)
    ensures |s'| == |s| + 1
    ensures s'[0] == r || (s != [] && s'[0] == s[0])
    ensures NewestFirst(s')
    ensures multiset(s') == multiset(s) + multiset{r}
  {
    if s == [] || r.createdAt >= s[0].createdAt then
      PrependNewest(r, s);
      [r] + s
    else
      var rest := InsertByAge(r, s[1..]);
      assert s == [s[0]] + s[1..];
      assert rest[0] == r || rest[0] == s[1..][0];
      assert s[0].createdAt >= rest[0].createdAt;
      PrependNewest(s[0], rest);
      assert multiset([s[0]] + rest) == multiset{s[0]} + multiset(rest);
      assert multiset(s) == multiset{s[0]} + multiset(s[1..]);
      [s[0]] + rest
  }

  lemma PrependNewest(x: Row, s: seq<Row>)
    requires NewestFirst(s)
    requires s == [] || x.createdAt >= s[0].createdAt
    ensures NewestFirst([x] + s)
  {
    var s' := [x] + s;
    forall i, j | 0 <= i < j < |s'| ensures s'[i].createdAt >= s'[j].createdAt {
      if i == 0 && j > 1 {
        assert s[0].createdAt >= s[j - 1].createdAt;
      }
    }
  }

  /** `ORDER BY created_at DESC`; the order among rows of equal age is one
      the database may pick, and the listing below allows any of them. */
  function SortNewestFirst(s: seq<Row>): (sorted: seq<Row>)
    ensures NewestFirst(sorted)
    ensures multiset(sorted) == multiset(s)
  {
    if s == [] then []
    else
      assert s == [s[0]] + s[1..];
      InsertByAge(s[0], SortNewestFirst(s[1..]))
  }

  /** What the SELECT of one listing may return: only the user's rows, each
      at most as often as stored, newest first, as many as fit under the
      limit, and none left out that is newer than one shown. */
  ghost predicate IsRecentListing(t: Table, userId: string, listed: seq<Row>) {
    var own := RowsOf(t, userId);
    && |listed| == (if |own| < ListLimit then |own| else ListLimit)
    && multiset(listed) <= multiset(own)
    && NewestFirst(listed)
    && forall r, j :: r in multiset(own) - multiset(listed) && 0 <= j < |listed| ==> r.createdAt <= listed[j].createdAt
  }

  /** `SELECT ... WHERE user_id = ? ORDER BY created_at DESC LIMIT 10`. */
  function Recent(t: Table, userId: string): (listed: seq<Row>)
    ensures IsRecentListing(t, userId, listed)
    ensures forall r :: r in listed ==> r in t && r.userId == userId
  {
    var own := RowsOf(t, userId);
    var sorted := SortNewestFirst(own);
    var k := if |sorted| < ListLimit then |sorted| else ListLimit;
    ListingOfSorted(own, sorted, k);
    sorted[..k]
  }

  /** The first `min(10, n)` rows of a newest-first ordering of the user's
      rows form a valid listing. */
  lemma ListingOfSorted(own: seq<Row>, sorted: seq<Row>, k: nat)
    requires NewestFirst(sorted) && multiset(sorted) == multiset(own)
    requires k == if |sorted| < ListLimit then |sorted| else ListLimit
    ensures multiset(sorted[..k]) <= multiset(own)
    ensures forall r :: r in sorted[..k] ==> r in own
    ensures NewestFirst(sorted[..k])
    ensures |sorted[..k]| == (if |own| < ListLimit then |own| else ListLimit)
    ensures forall r, j :: r in multiset(own) - multiset(sorted[..k]) && 0 <= j < k ==> r.createdAt <= sorted[..k][j].createdAt
  {
    TakeNewest(sorted, k);
    assert |own| == |multiset(own)| == |sorted|;
    forall r | r in sorted[..k] ensures r in own {
      assert r in multiset(sorted[..k]);
    }
  }

  /** A prefix of a newest-first sequence is newest first, and nothing
      after the prefix is newer than anything in it. */
  lemma TakeNewest(sorted: seq<Row>, k: nat)
    requires NewestFirst(sorted) && k <= |sorted|
    ensures NewestFirst(sorted[..k])
    ensures multiset(sorted[..k]) <= multiset(sorted)
    ensures forall r, j :: r in multiset(sorted) - multiset(sorted[..k]) && 0 <= j < k ==> r.createdAt <= sorted[j].createdAt
  {
    SplitMultiset(sorted, k);
    forall r, j | r in multiset(sorted) - multiset(sorted[..k]) && 0 <= j < k
      ensures r.createdAt <= sorted[j].createdAt
    {
      assert r in multiset(sorted[k..]);
      assert r in sorted[k..];
      var m :| 0 <= m < |sorted[k..]| && sorted[k..][m] == r;
      assert sorted[k + m] == r;
    }
  }

  /** What a prefix leaves over is the suffix. */
  lemma SplitMultiset(s: seq<Row>, k: nat)
    requires k <= |s|
    ensures multiset(s[..k]) <= multiset(s)
    ensures multiset(s) - multiset(s[..k]) == multiset(s[k..])
  {
    assert s == s[..k] + s[k..];
  }
}
