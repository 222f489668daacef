/** The pagination state of `src/components/PostList.tsx` and the two small
    per-card computations (tag pills, entry-animation delay). A load is two
    steps: the intersection callback starts it and asks for a page, and the
    answer (or a thrown error, `None`) finishes it. */
module PostList {
  import opened Strings
  import opened Posts
  import Actions

  const PageSize: nat := 12

  /** The part of the component's state that loading changes. */
  datatype Pager = Pager(posts: seq<Post>, page: int, loading: bool, hasMore: bool)

  /** The state after mounting and the effect that checks the initial list. */
  function Initial(initialPosts: seq<Post>, enableInfiniteScroll: bool): (p: Pager)
    ensures p.posts == initialPosts && p.page == 1 && !p.loading
    ensures p.hasMore <==> enableInfiniteScroll && |initialPosts| >= PageSize
  {
    Pager(initialPosts, 1, false, !(!enableInfiniteScroll || |initialPosts| < PageSize))
  }

  /** The intersection callback: a load starts only when the sentinel is
      visible, more posts may exist and no load is running. */
  function Start(p: Pager, intersecting: bool): (r: (Pager, Option<int>))
    ensures r.1.Some? <==> intersecting && p.hasMore && !p.loading
    ensures r.1.Some? ==> r.1.value == p.page + 1 && r.0 == p.(loading := true)
    ensures r.1.None? ==> r.0 == p
  {
    if intersecting && p.hasMore && !p.loading then (p.(loading := true), Some(p.page + 1))
    else (p, None)
  }

  /** The end of a load: a short page ends pagination, a non-empty page is
      appended and counted, and `loading` is cleared whatever happened. */
  function Finish(p: Pager, answer: Option<seq<Post>>): (r: Pager)
    ensures !r.loading
    ensures answer.None? ==> r == p.(loading := false)
    ensures answer.Some? ==>
      && r.hasMore == (p.hasMore && |answer.value| >= PageSize)
      && (|answer.value| > 0 ==> r.posts == p.posts + answer.value && r.page == p.page + 1)
      && (|answer.value| == 0 ==> r.posts == p.posts && r.page == p.page)
  {
    match answer
    case None => p.(loading := false)
    case Some(next) =>
      var q := if |next| < PageSize then p.(hasMore := false) else p;
      var q' := if |next| > 0 then q.(posts := q.posts + next, page := q.page + 1) else q;
      q'.(loading := false)
  }

  /** The loaded posts are the newest published posts so far, and while
      more may exist every page loaded was full. */
  predicate Consistent(table: seq<Post>, p: Pager) {
    var sorted := ByNewest(Published(table));
    && p.page >= 1
    && p.posts == Take(sorted, |p.posts|)
    && (p.hasMore ==> |p.posts| == PageSize * p.page)
    && (p.loading ==> p.hasMore)
  }

  /** Starting from the first page of the archive query, the component only
      ever shows a gap-free, duplicate-free prefix of the newest-first
      published posts, as long as the table does not change meanwhile. */
  lemma InitialConsistent(table: seq<Post>, enableInfiniteScroll: bool)
    ensures Consistent(table, Initial(NewestPublished(table, 0, PageSize), enableInfiniteScroll))
  {
    var sorted := ByNewest(Published(table));
    assert Drop(sorted, 0) == sorted;
  }

  lemma StartConsistent(table: seq<Post>, p: Pager, intersecting: bool)
    requires Consistent(table, p)
    ensures Consistent(table, Start(p, intersecting).0)
  {
  }

  lemma {:induction false} TakeExtend<T>(s: seq<T>, n: nat)
    ensures Take(s, n) + Take(Drop(s, n), PageSize) == Take(s, n + |Take(Drop(s, n), PageSize)|)
  {
  }

  /** Finishing a load with the answer `fetchPosts(page + 1, 12)` gives for
      the current table, or with a failure, keeps the state consistent. */
  lemma FinishConsistent(table: seq<Post>, p: Pager, answer: Option<seq<Post>>)
    requires Consistent(table, p) && p.loading
    requires answer.None? || answer == Some(Actions.FetchPosts(table, p.page + 1, PageSize, false))
    ensures Consistent(table, Finish(p, answer))
  {
    if answer.Some? {
      var sorted := ByNewest(Published(table));
      var offset := Actions.Offset(p.page + 1, PageSize);
      assert offset == |p.posts| by {
        Actions.OffsetIsProduct(p.page + 1, PageSize);
        assert (p.page + 1 - 1) * PageSize == PageSize * p.page;
      }
      assert answer.value == Take(Drop(sorted, |p.posts|), PageSize);
      TakeExtend(sorted, |p.posts|);
      var r := Finish(p, answer);
      if |answer.value| == PageSize {
        assert |r.posts| == PageSize * p.page + PageSize;
        assert PageSize * (p.page + 1) == PageSize * p.page + PageSize;
      }
    }
  }

  /** `post.tags.split(',').filter(tag => tag.trim())`: a piece is kept
      when trimming leaves something, that is when it is not all
      whitespace. */
  function NonBlank(pieces: seq<string>): (r: seq<string>)
    ensures |r| <= |pieces|
    ensures forall i :: 0 <= i < |r| ==> !AllWhitespace(r[i])
  {
    if pieces == [] then []
    else
      var rest := NonBlank(pieces[1..]);
      if AllWhitespace(pieces[0]) then rest
      else
        assert forall i :: 1 <= i < |rest| + 1 ==> ([pieces[0]] + rest)[i] == rest[i - 1];
        [pieces[0]] + rest
  }

  /** Filtering keeps order: it distributes over concatenation, and a single
      piece is kept exactly when it is not all whitespace. */
  lemma {:induction false} NonBlankAppend(p: seq<string>, q: seq<string>)
    ensures NonBlank(p + q) == NonBlank(p) + NonBlank(q)
    decreases |p|
  {
    if p == [] {
      assert p + q == q;
    } else {
      assert (p + q)[0] == p[0] && (p + q)[1..] == p[1..] + q;
      NonBlankAppend(p[1..], q);
    }
  }

  lemma NonBlankSingle(x: string)
    ensures NonBlank([x]) == (if AllWhitespace(x) then [] else [x])
  {
    assert [x][1..] == [];
  }

  /** `.filter(tag => tag.trim()).slice(0, 3).map((tag) => tag.trim())`
      over the comma-separated pieces of the tags. */
  function TagPills(tags: string): (r: seq<string>)
    ensures |r| <= 3
    ensures tags == "" ==> r == []
  {
    EmptyTagsNoPieces();
    var kept := Take(NonBlank(Split(tags, ',')), 3);
    seq(|kept|, i requires 0 <= i < |kept| => Trim(kept[i]))
  }

  /** The pills of a card: at most three, the first non-blank
      comma-separated pieces of the tags in order, each with its surrounding
      whitespace removed, so none is empty, none starts or ends with
      whitespace and none contains a comma. */
  lemma TagPillsShape(tags: string)
    ensures var r := TagPills(tags);
            var nb := NonBlank(Split(tags, ','));
      && |r| == (if |nb| <= 3 then |nb| else 3)
      && (forall i :: 0 <= i < |r| ==> r[i] == Trim(nb[i]))
      && (forall i :: 0 <= i < |r| ==> r[i] != "" && !IsWhitespace(r[i][0]) && !IsWhitespace(r[i][|r[i]| - 1]))
      && (forall i :: 0 <= i < |r| ==> ',' !in r[i])
  {
    var pieces := Split(tags, ',');
    var nb := NonBlank(pieces);
    var kept := Take(nb, 3);
    var r := TagPills(tags);
    NoCharInNonBlank(pieces, ',');
    forall i | 0 <= i < |r|
      ensures r[i] == Trim(nb[i]) && r[i] != "" && ',' !in r[i]
    {
      assert kept[i] == nb[i];
      assert r[i] == Trim(kept[i]);
      TrimEmptyIff(kept[i]);
      TrimIsPart(kept[i]);
      AbsentFromPart(kept[i], r[i], ',');
    }
  }

  lemma {:induction false} NoCharInNonBlank(pieces: seq<string>, c: char)
    requires forall i :: 0 <= i < |pieces| ==> c !in pieces[i]
    ensures forall i :: 0 <= i < |NonBlank(pieces)| ==> c !in NonBlank(pieces)[i]
  {
    if pieces != [] {
      NoCharInNonBlank(pieces[1..], c);
      var rest := NonBlank(pieces[1..]);
      var head := if AllWhitespace(pieces[0]) then [] else [pieces[0]];
      assert NonBlank(pieces) == head + rest;
      forall i | 0 <= i < |head + rest|
        ensures c !in (head + rest)[i]
      {
        if i >= |head| { assert (head + rest)[i] == rest[i - |head|]; }
      }
    }
  }

  lemma EmptyTagsNoPieces()
    ensures NonBlank(Split("", ',')) == []
  {
    assert Split("", ',') == [""];
    assert AllWhitespace("");
  }

  /** `index < 6 ? \`hero-delay-${index + 1}\` : ''` */
  function DelayClass(index: nat): (c: string)
    ensures c != "" <==> index < 6
    ensures index < 6 ==> c == "hero-delay-" + [DigitChar(index + 1)]
  {
    if index < 6 then "hero-delay-" + NatToString(index + 1) else ""
  }

  /** The component's state; `visible` holds the ids whose entry animation
      has run. */
  class PostListView {
    const enableInfiniteScroll: bool
    const hasFooter: bool
    var posts: seq<Post>
    var page: int
    var loading: bool
    var hasMore: bool
    var visible: set<string>

    function State(): Pager
      reads this
    {
      Pager(posts, page, loading, hasMore)
    }

    constructor(initialPosts: seq<Post>, enableInfiniteScroll: bool, hasFooter: bool)
      ensures State() == Initial(initialPosts, enableInfiniteScroll)
      ensures this.enableInfiniteScroll == enableInfiniteScroll && this.hasFooter == hasFooter
      ensures visible == {}
    {
      this.enableInfiniteScroll := enableInfiniteScroll;
      this.hasFooter := hasFooter;
      posts := initialPosts;
      page := 1;
      loading := false;
      hasMore := true;
      visible := {};
      if !enableInfiniteScroll || |initialPosts| < PageSize {
        hasMore := false;
      }
    }

    /** The infinite-scroll observer fired; `requestedPage` is the page
        handed to `fetchPosts`, with size 12, if a load started. */
    method OnIntersect(intersecting: bool) returns (requestedPage: Option<int>)
      modifies this
      ensures (State(), requestedPage) == Start(old(State()), intersecting)
      ensures visible == old(visible)
    {
      requestedPage := None;
      if intersecting && hasMore && !loading {
        loading := true;
        requestedPage := Some(page + 1);
      }
    }

    /** The awaited `fetchPosts` returned (`Some`) or threw (`None`). */
    method OnLoaded(answer: Option<seq<Post>>)
      modifies this
      ensures State() == Finish(old(State()), answer)
      ensures visible == old(visible)
    {
      if answer.Some? {
        var nextPosts := answer.value;
        if |nextPosts| < PageSize {
          hasMore := false;
        }
        if |nextPosts| > 0 {
          posts := posts + nextPosts;
          page := page + 1;
        }
      }
      loading := false;
    }

    /** The visibility observer saw the card with this `data-id`; a
        missing or empty id is ignored. */
    method MarkVisible(id: string)
      modifies this
      ensures visible == (if id != "" then old(visible) + {id} else old(visible))
      ensures State() == old(State())
    {
      if id != "" {
        visible := visible + {id};
      }
    }

    /** "— End of content —" is shown. */
    predicate ShowsEndOfContent()
      reads this
    {
      !hasMore && !hasFooter && |posts| > 0
    }
  }
}
