/** `getHomePageData` in `src/app/page.tsx`: the six recent posts and the
    hero section's featured topics, the featured post always first. */
module Home {
  import opened Strings
  import opened Posts

  /** `{ text, href }` as handed to the hero section. */
  datatype Topic = Topic(text: string, href: string)

  datatype HomeData = HomeData(posts: seq<Post>, featuredTopics: seq<Topic>)

  const RecentCount: nat := 6
  const TopicSlots: nat := 3

  function TopicOf(p: Post): Topic {
    Topic(p.title, "/posts/" + p.slug)
  }

  /** `tags: { contains: 'Featured', mode: 'insensitive' }` */
  predicate IsFeatured(p: Post) {
    Contains(Lower(p.tags), "featured")
  }

  /** The first featured row of a list. */
  function FirstFeatured(ps: seq<Post>): (r: Option<Post>)
    ensures r.None? ==> forall i :: 0 <= i < |ps| ==> !IsFeatured(ps[i])
    ensures r.Some? ==> exists i :: (0 <= i < |ps| && ps[i] == r.value && IsFeatured(ps[i])
                                     && forall j :: 0 <= j < i ==> !IsFeatured(ps[j]))
  {
    if ps == [] then None
    else if IsFeatured(ps[0]) then Some(ps[0])
    else
      var r := FirstFeatured(ps[1..]);
      assert forall i :: 1 <= i < |ps| ==> ps[i] == ps[1..][i - 1];
      r
  }

  /** `findFirst({ where: { published: true, tags: ... }, orderBy: { createdAt: 'desc' } })` */
  function FeaturedPost(table: seq<Post>): Option<Post> {
    FirstFeatured(ByNewest(Published(table)))
  }

  /** With no featured row found, no row of the list is featured. */
  lemma NoFeaturedRow(s: seq<Post>)
    requires FirstFeatured(s).None?
    ensures forall q :: q in s ==> !IsFeatured(q)
  {
    forall q | q in s
      ensures !IsFeatured(q)
    {
      var k :| 0 <= k < |s| && s[k] == q;
    }
  }

  /** In a newest-first list the first featured row is at least as new as
      every featured row. */
  lemma FirstFeaturedNewest(s: seq<Post>)
    requires NewestFirst(s) && FirstFeatured(s).Some?
    ensures var f := FirstFeatured(s).value;
      && f in s && IsFeatured(f)
      && forall q :: q in s && IsFeatured(q) ==> q.createdAt <= f.createdAt
  {
    var f := FirstFeatured(s).value;
    var i :| 0 <= i < |s| && s[i] == f && IsFeatured(s[i])
             && forall j :: 0 <= j < i ==> !IsFeatured(s[j]);
    forall q | q in s && IsFeatured(q)
      ensures q.createdAt <= f.createdAt
    {
      var k :| 0 <= k < |s| && s[k] == q;
      assert i <= k;
      assert s[i].createdAt >= s[k].createdAt;
    }
  }

  /** The featured post is a published, featured row of the table that is
      at least as new as every other published featured row; there is none
      only when no published row is featured. */
  lemma FeaturedPostIsNewest(table: seq<Post>)
    ensures var f := FeaturedPost(table);
      && (f.None? ==> forall q :: q in table && q.published ==> !IsFeatured(q))
      && (f.Some? ==>
            && f.value in table && f.value.published && IsFeatured(f.value)
            && forall q :: q in table && q.published && IsFeatured(q) ==> q.createdAt <= f.value.createdAt)
  {
    var sorted := ByNewest(Published(table));
    SortedPublished(table);
    if FirstFeatured(sorted).None? {
      NoFeaturedRow(sorted);
    } else {
      FirstFeaturedNewest(sorted);
    }
  }

  /** `posts.filter((p) => p.id !== featuredPost?.id)`; with no featured post
      nothing is removed. */
  function Exclude(ps: seq<Post>, id: Option<string>): (r: seq<Post>)
    ensures id.None? ==> r == ps
    ensures forall p :: p in r <==> p in ps && (id.None? || p.id != id.value)
    ensures |r| <= |ps|
  {
    if ps == [] then []
    else
      assert ps == [ps[0]] + ps[1..];
      (if id.Some? && ps[0].id == id.value then [] else [ps[0]]) + Exclude(ps[1..], id)
  }

  /** The posts behind the topics: the featured post, then the first
      remaining slots of the other recent posts. */
  function TopicPosts(featured: Option<Post>, posts: seq<Post>): seq<Post> {
    var head := if featured.Some? then [featured.value] else [];
    head + Take(Exclude(posts, if featured.Some? then Some(featured.value.id) else None), TopicSlots - |head|)
  }

  function MapTopics(ps: seq<Post>): (r: seq<Topic>)
    ensures |r| == |ps| && forall i :: 0 <= i < |ps| ==> r[i] == TopicOf(ps[i])
  {
    if ps == [] then [] else [TopicOf(ps[0])] + MapTopics(ps[1..])
  }

  /** At most three topics; the featured post, when there is one, first;
      after it only posts with a different id, and those are the leading
      entries of the filtered recent list in its order. */
  lemma TopicPostsShape(featured: Option<Post>, posts: seq<Post>)
    ensures var t := TopicPosts(featured, posts);
      && |t| <= 3
      && (featured.Some? ==>
            && t != [] && t[0] == featured.value
            && forall i :: 1 <= i < |t| ==> t[i].id != featured.value.id && t[i] in posts)
      && (featured.None? ==> t == Take(posts, 3))
      && (featured.Some? ==> t[1..] == Exclude(posts, Some(featured.value.id))[..|t| - 1])
      && (featured.Some? && |t| < 3 ==> |t| - 1 == |Exclude(posts, Some(featured.value.id))|)
  {
    var t := TopicPosts(featured, posts);
    if featured.Some? {
      var rest := Take(Exclude(posts, Some(featured.value.id)), 2);
      assert t == [featured.value] + rest;
      assert t[1..] == rest;
      forall i | 1 <= i < |t|
        ensures t[i].id != featured.value.id && t[i] in posts
      {
        assert t[i] == rest[i - 1];
        assert rest[i - 1] in Exclude(posts, Some(featured.value.id));
      }
    }
  }

  /** Builds the topic list as the source does: push the featured post,
      then push the remaining candidates one by one. */
  method BuildFeaturedTopics(featured: Option<Post>, posts: seq<Post>) returns (topics: seq<Topic>)
    ensures topics == MapTopics(TopicPosts(featured, posts))
    ensures |topics| <= 3
    ensures featured.Some? ==> topics[0] == Topic(featured.value.title, "/posts/" + featured.value.slug)
  {
    topics := [];
    if featured.Some? {
      topics := topics + [TopicOf(featured.value)];
    }
    var head := if featured.Some? then [featured.value] else [];
    assert topics == MapTopics(head);
    var remainingSlots := TopicSlots - |topics|;
    var candidates := Take(Exclude(posts, if featured.Some? then Some(featured.value.id) else None), remainingSlots);
    var i := 0;
    while i < |candidates|
      invariant 0 <= i <= |candidates|
      invariant |topics| == |head| + i
      invariant forall k :: 0 <= k < |topics| ==> topics[k] == TopicOf((head + candidates)[k])
    {
      topics := topics + [TopicOf(candidates[i])];
      i := i + 1;
    }
    assert TopicPosts(featured, posts) == head + candidates;
    TopicPostsShape(featured, posts);
  }

  /** `getHomePageData()`: any query error yields empty data. */
  method GetHomePageData(table: seq<Post>, dbError: bool) returns (data: HomeData)
    ensures dbError ==> data == HomeData([], [])
    ensures !dbError ==>
      && data.posts == NewestPublished(table, 0, RecentCount)
      && data.featuredTopics == MapTopics(TopicPosts(FeaturedPost(table), data.posts))
  {
    if dbError {
      return HomeData([], []);
    }
    var featuredPost := FeaturedPost(table);
    var posts := NewestPublished(table, 0, RecentCount);
    var featuredTopics := BuildFeaturedTopics(featuredPost, posts);
    return HomeData(posts, featuredTopics);
  }
}
