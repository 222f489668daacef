/** The `post` table and the one query shape every reader of it uses:
    published rows, newest first (`orderBy: { createdAt: 'desc' }`), then
    `skip` and `take`. The database's sort is written out as an insertion
    sort on `createdAt`; rows with equal timestamps come out in reverse
    table order, one of the orders the database may return for ties. */
module Posts {

  /** A row of the `post` table; timestamps are integer milliseconds. */
  datatype Post = Post(id: string, title: string, slug: string, excerpt: string, content: string,
                       tags: string, published: bool, createdAt: int, updatedAt: int)

  /** `where: { published: true }` */
  function Published(ps: seq<Post>): (r: seq<Post>)
    ensures forall i :: 0 <= i < |r| ==> r[i].published
    ensures forall p :: p in r <==> p in ps && p.published
    ensures multiset(r) <= multiset(ps)
  {
    if ps == [] then []
    else
      assert ps == [ps[0]] + ps[1..];
      (if ps[0].published then [ps[0]] else []) + Published(ps[1..])
  }

  predicate NewestFirst(ps: seq<Post>) {
    forall i, j :: 0 <= i < j < |ps| ==> ps[i].createdAt >= ps[j].createdAt
  }

  /** Putting a row in front of a newest-first list that holds nothing newer
      keeps it newest first. */
  lemma ConsNewestFirst(x: Post, s: seq<Post>)
    requires NewestFirst(s)
    requires forall q :: q in s ==> q.createdAt <= x.createdAt
    ensures NewestFirst([x] + s)
  {
    forall i, j | 0 <= i < j < |[x] + s|
      ensures ([x] + s)[i].createdAt >= ([x] + s)[j].createdAt
    {
      if i > 0 {
        assert ([x] + s)[i] == s[i - 1] && ([x] + s)[j] == s[j - 1];
      } else {
        assert ([x] + s)[j] == s[j - 1];
        assert s[j - 1] in s;
      }
    }
  }

  lemma HeadIsNewest(s: seq<Post>)
    requires NewestFirst(s) && s != []
    ensures forall q :: q in s ==> q.createdAt <= s[0].createdAt
  {
    forall q | q in s
      ensures q.createdAt <= s[0].createdAt
    {
      var j :| 0 <= j < |s| && s[j] == q;
    }
  }

  /** Insert `p` into a list after every row at least as new. */
  function Insert(p: Post, sorted: seq<Post>): (r: seq<Post>)
    ensures multiset(r) == multiset(sorted) + multiset{p}
    ensures forall q :: q in r ==> q == p || q in sorted
    ensures |r| == |sorted| + 1
  {
    if sorted == [] then [p]
    else if sorted[0].createdAt >= p.createdAt then
      assert sorted == [sorted[0]] + sorted[1..];
      [sorted[0]] + Insert(p, sorted[1..])
    else [p] + sorted
  }

  /** Inserting keeps a list newest first. */
  lemma {:induction false} InsertSorted(p: Post, sorted: seq<Post>)
    requires NewestFirst(sorted)
    ensures NewestFirst(Insert(p, sorted))
  {
    if sorted != [] {
      HeadIsNewest(sorted);
      if sorted[0].createdAt >= p.createdAt {
        SliceNewestFirst(sorted, 1, |sorted|);
        InsertSorted(p, sorted[1..]);
        ConsNewestFirst(sorted[0], Insert(p, sorted[1..]));
      } else {
        ConsNewestFirst(p, sorted);
      }
    }
  }

  /** `orderBy: { createdAt: 'desc' }`, as an insertion sort. */
  function ByNewest(ps: seq<Post>): (r: seq<Post>)
    ensures multiset(r) == multiset(ps)
  {
    if ps == [] then []
    else
      assert ps == [ps[0]] + ps[1..];
      Insert(ps[0], ByNewest(ps[1..]))
  }

  /** Ties are not kept in table order: two rows with the same creation
      time come out reversed. */
  lemma TiesReversed(a: Post, b: Post)
    requires a.createdAt == b.createdAt
    ensures ByNewest([a, b]) == [b, a]
  {
    assert [a, b][1..] == [b];
    assert [b][1..] == [];
  }

  /** The sort lists newer rows first. */
  lemma {:induction false} ByNewestSorted(ps: seq<Post>)
    ensures NewestFirst(ByNewest(ps))
  {
    if ps != [] {
      ByNewestSorted(ps[1..]);
      InsertSorted(ps[0], ByNewest(ps[1..]));
    }
  }

  /** Sorting keeps the rows: same length, same members. */
  lemma ByNewestSameRows(ps: seq<Post>)
    ensures |ByNewest(ps)| == |ps|
    ensures forall p :: p in ByNewest(ps) <==> p in ps
  {
    var r := ByNewest(ps);
    assert |multiset(r)| == |multiset(ps)|;
    forall p
      ensures p in r <==> p in ps
    {
      assert p in r <==> p in multiset(r);
      assert p in ps <==> p in multiset(ps);
    }
  }

  /** `take: n` / `slice(0, n)` */
  function Take<T>(s: seq<T>, n: nat): (r: seq<T>)
    ensures |r| == if n <= |s| then n else |s|
    ensures r == s[..|r|]
  {
    if n <= |s| then s[..n] else s
  }

  /** `skip: n` */
  function Drop<T>(s: seq<T>, n: nat): (r: seq<T>)
    ensures |r| == if n <= |s| then |s| - n else 0
    ensures r == s[|s| - |r|..]
  {
    if n <= |s| then s[n..] else []
  }

  /** `findMany({ where: { published: true }, orderBy: { createdAt: 'desc' },
      skip, take })` */
  function NewestPublished(table: seq<Post>, skip: nat, take: nat): seq<Post> {
    Take(Drop(ByNewest(Published(table)), skip), take)
  }

  lemma SliceNewestFirst(s: seq<Post>, a: nat, b: nat)
    requires NewestFirst(s) && a <= b <= |s|
    ensures NewestFirst(s[a..b])
  {
    forall i, j | 0 <= i < j < b - a
      ensures s[a..b][i].createdAt >= s[a..b][j].createdAt
    {
      assert s[a..b][i] == s[a + i] && s[a..b][j] == s[a + j];
    }
  }

  /** The sorted published rows are exactly the published rows of the
      table, newest first. */
  lemma SortedPublished(table: seq<Post>)
    ensures var s := ByNewest(Published(table));
      && NewestFirst(s) && |s| == |Published(table)|
      && forall p :: p in s <==> p in table && p.published
  {
    ByNewestSorted(Published(table));
    ByNewestSameRows(Published(table));
  }

  /** A `skip`/`take` window of a newest-first list is newest first, holds
      at most `take` rows and only rows of the list. */
  lemma PageOf(s: seq<Post>, skip: nat, take: nat)
    requires NewestFirst(s)
    ensures var r := Take(Drop(s, skip), take);
      && |r| <= take && NewestFirst(r) && forall i :: 0 <= i < |r| ==> r[i] in s
  {
    var d := Drop(s, skip);
    var r := Take(d, take);
    var a := |s| - |d|;
    assert r == s[a..a + |r|];
    SliceNewestFirst(s, a, a + |r|);
    forall i | 0 <= i < |r|
      ensures r[i] in s
    {
      assert r[i] == s[a + i];
    }
  }

  /** A row of a newest-first list that the first `take` rows leave out is
      no newer than any of them, and is left out only when `take` rows were
      taken. */
  lemma TopOf(s: seq<Post>, take: nat)
    requires NewestFirst(s)
    ensures var r := Take(s, take);
      forall q :: q in s && q !in r ==>
        |r| == take && forall i :: 0 <= i < |r| ==> r[i].createdAt >= q.createdAt
  {
    var r := Take(s, take);
    forall q | q in s && q !in r
      ensures |r| == take && forall i :: 0 <= i < |r| ==> r[i].createdAt >= q.createdAt
    {
      var k :| 0 <= k < |s| && s[k] == q;
      assert k >= |r|;
    }
  }

  /** Any page of the query holds only published rows of the table, newest
      first, and no more than `take` of them. */
  lemma NewestPublishedRows(table: seq<Post>, skip: nat, take: nat)
    ensures var r := NewestPublished(table, skip, take);
      && |r| <= take
      && NewestFirst(r)
      && forall i :: 0 <= i < |r| ==> r[i].published && r[i] in table
  {
    SortedPublished(table);
    PageOf(ByNewest(Published(table)), skip, take);
  }

  /** The first `take` newest published rows: all published, newest first,
      as many as asked for when there are enough, and nothing left out that
      is newer than something taken. */
  lemma NewestPublishedTop(table: seq<Post>, take: nat)
    ensures var r := NewestPublished(table, 0, take);
      && NewestFirst(r)
      && (forall i :: 0 <= i < |r| ==> r[i].published && r[i] in table)
      && |r| == (if take <= |Published(table)| then take else |Published(table)|)
      && forall q :: q in table && q.published && q !in r ==>
           |r| == take && forall i :: 0 <= i < |r| ==> r[i].createdAt >= q.createdAt
  {
    var sorted := ByNewest(Published(table));
    assert Drop(sorted, 0) == sorted;
    SortedPublished(table);
    PageOf(sorted, 0, take);
    TopOf(sorted, take);
  }
}
