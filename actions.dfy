/** The server actions of `src/app/actions.ts`: the post schema, the form
    decoding, the mapping from thrown errors to messages, the paginated
    query, the three post mutations and the password change. The `post` and
    `admin` tables are maps held by two classes; a session is the e-mail it
    carries, if any. */
module Actions {
  import opened Strings
  import opened Posts
  import Auth
  import PostForm

  // ---------------------------------------------------------------------
  // PostSchema
  // ---------------------------------------------------------------------

  /** The issue a string field reports when the form has no such entry. */
  const NullIssue: string := "Expected string, received null"

  /** One refinement of a `z.string()` field, with its message. */
  datatype StringCheck = MinLength(n: nat, message: string)
                       | MaxLength(n: nat, message: string)
                       | SlugPattern(message: string)

  predicate Passes(c: StringCheck, s: string) {
    match c
    case MinLength(n, _) => |s| >= n
    case MaxLength(n, _) => |s| <= n
    case SlugPattern(_) => s != [] && PostForm.SlugAlphabet(s)
  }

  const TitleChecks: seq<StringCheck> :=
    [MinLength(1, "Title is required"), MaxLength(200, "Title is too long")]
  const SlugChecks: seq<StringCheck> :=
    [SlugPattern("Slug must be lowercase alphanumeric with hyphens"),
     MinLength(1, "Slug is required"), MaxLength(100, "Slug is too long")]
  const ExcerptChecks: seq<StringCheck> :=
    [MinLength(1, "Excerpt is required"), MaxLength(500, "Excerpt is too long")]
  const ContentChecks: seq<StringCheck> :=
    [MinLength(1, "Content is required"), MaxLength(50000, "Content is too long")]
  const TagChecks: seq<StringCheck> := [MaxLength(200, "Tags string is too long")]

  /** The messages of the failing checks, in declaration order. */
  function FailedChecks(checks: seq<StringCheck>, s: string): (r: seq<string>)
    ensures r == [] <==> forall i :: 0 <= i < |checks| ==> Passes(checks[i], s)
    ensures r != [] ==>
      exists i :: (0 <= i < |checks| && !Passes(checks[i], s) && r[0] == checks[i].message
                   && forall j :: 0 <= j < i ==> Passes(checks[j], s))
  {
    if checks == [] then []
    else
      var rest := FailedChecks(checks[1..], s);
      assert forall i :: 1 <= i < |checks| ==> checks[i] == checks[1..][i - 1];
      if Passes(checks[0], s) then rest else [checks[0].message] + rest
  }

  /** The issues of one string field. */
  function FieldIssues(v: Option<string>, checks: seq<StringCheck>): seq<string> {
    if v.None? then [NullIssue] else FailedChecks(checks, v.value)
  }

  /** The object handed to `PostSchema.parse`; a field is `None` when
      `formData.get` found no entry. */
  datatype RawPost = RawPost(title: Option<string>, slug: Option<string>, excerpt: Option<string>,
                             content: Option<string>, tags: Option<string>, published: bool)

  /** The validated data written to the `post` table. */
  datatype PostData = PostData(title: string, slug: string, excerpt: string, content: string,
                               tags: string, published: bool)

  /** All issues, field by field in the schema's order. */
  function Issues(raw: RawPost): seq<string> {
    FieldIssues(raw.title, TitleChecks) + FieldIssues(raw.slug, SlugChecks)
      + FieldIssues(raw.excerpt, ExcerptChecks) + FieldIssues(raw.content, ContentChecks)
      + FieldIssues(raw.tags, TagChecks)
  }

  /** The schema's constraints stated directly. */
  predicate ValidPost(raw: RawPost) {
    && raw.title.Some? && 1 <= |raw.title.value| <= 200
    && raw.slug.Some? && 1 <= |raw.slug.value| <= 100 && PostForm.SlugAlphabet(raw.slug.value)
    && raw.excerpt.Some? && 1 <= |raw.excerpt.value| <= 500
    && raw.content.Some? && 1 <= |raw.content.value| <= 50000
    && raw.tags.Some? && |raw.tags.value| <= 200
  }

  lemma TitleIssuesEmptyIff(v: Option<string>)
    ensures FieldIssues(v, TitleChecks) == [] <==> v.Some? && 1 <= |v.value| <= 200
  {
    assert TitleChecks[0] == MinLength(1, "Title is required");
    assert TitleChecks[1] == MaxLength(200, "Title is too long");
  }

  lemma SlugIssuesEmptyIff(v: Option<string>)
    ensures FieldIssues(v, SlugChecks) == [] <==>
      v.Some? && 1 <= |v.value| <= 100 && PostForm.SlugAlphabet(v.value)
  {
    assert SlugChecks[0].SlugPattern? && SlugChecks[1] == MinLength(1, "Slug is required");
    assert SlugChecks[2] == MaxLength(100, "Slug is too long");
  }

  lemma ExcerptIssuesEmptyIff(v: Option<string>)
    ensures FieldIssues(v, ExcerptChecks) == [] <==> v.Some? && 1 <= |v.value| <= 500
  {
    assert ExcerptChecks[0].MinLength? && ExcerptChecks[1].MaxLength?;
  }

  lemma ContentIssuesEmptyIff(v: Option<string>)
    ensures FieldIssues(v, ContentChecks) == [] <==> v.Some? && 1 <= |v.value| <= 50000
  {
    assert ContentChecks[0].MinLength? && ContentChecks[1].MaxLength?;
  }

  lemma TagIssuesEmptyIff(v: Option<string>)
    ensures FieldIssues(v, TagChecks) == [] <==> v.Some? && |v.value| <= 200
  {
    assert TagChecks[0].MaxLength?;
  }

  /** The form passes the schema exactly when it satisfies every constraint. */
  lemma IssuesEmptyIff(raw: RawPost)
    ensures Issues(raw) == [] <==> ValidPost(raw)
  {
    TitleIssuesEmptyIff(raw.title);
    SlugIssuesEmptyIff(raw.slug);
    ExcerptIssuesEmptyIff(raw.excerpt);
    ContentIssuesEmptyIff(raw.content);
    TagIssuesEmptyIff(raw.tags);
  }

  /** The first issue belongs to the first field that has one. */
  lemma FirstIssueOrder(raw: RawPost)
    requires Issues(raw) != []
    ensures var t := FieldIssues(raw.title, TitleChecks);
            var s := FieldIssues(raw.slug, SlugChecks);
            var e := FieldIssues(raw.excerpt, ExcerptChecks);
            var c := FieldIssues(raw.content, ContentChecks);
            var g := FieldIssues(raw.tags, TagChecks);
      && (t != [] ==> Issues(raw)[0] == t[0])
      && (t == [] && s != [] ==> Issues(raw)[0] == s[0])
      && (t == [] && s == [] && e != [] ==> Issues(raw)[0] == e[0])
      && (t == [] && s == [] && e == [] && c != [] ==> Issues(raw)[0] == c[0])
      && (t == [] && s == [] && e == [] && c == [] ==> g != [] && Issues(raw)[0] == g[0])
  {
  }

  /** An empty slug is reported by its pattern check, which comes first. */
  lemma EmptySlugMessage(raw: RawPost)
    requires FieldIssues(raw.title, TitleChecks) == [] && raw.slug == Some("")
    ensures Issues(raw)[0] == "Slug must be lowercase alphanumeric with hyphens"
  {
    assert !Passes(SlugChecks[0], "");
    FirstIssueOrder(raw);
  }

  /** A slug the editor generates passes the schema's slug checks whenever
      it is non-empty and at most 100 characters long. */
  lemma GeneratedSlugAccepted(title: string)
    requires var s := PostForm.GenerateSlug(title); s != [] && |s| <= 100
    ensures FieldIssues(Some(PostForm.GenerateSlug(title)), SlugChecks) == []
  {
    PostForm.GeneratedSlugShape(title);
    var s := PostForm.GenerateSlug(title);
    assert SlugChecks[0].SlugPattern? && SlugChecks[1].MinLength? && SlugChecks[2] == MaxLength(100, "Slug is too long");
    assert Passes(SlugChecks[0], s) && Passes(SlugChecks[1], s) && Passes(SlugChecks[2], s);
  }

  /** `published: formData.get('published') === 'on' || ... === 'true'` */
  function DecodePublished(v: Option<string>): (b: bool)
    ensures b <==> v.Some? && (v.value == "on" || v.value == "true")
  {
    v == Some("on") || v == Some("true")
  }

  /** The outcome of `PostSchema.parse`. */
  datatype Parsed = Valid(data: PostData) | Invalid(issues: seq<string>)

  function ParsePost(raw: RawPost): (r: Parsed)
    ensures r.Valid? <==> ValidPost(raw)
    ensures r.Valid? ==> r.data == PostData(raw.title.value, raw.slug.value, raw.excerpt.value,
                                            raw.content.value, raw.tags.value, raw.published)
    ensures r.Invalid? ==> r.issues != [] && r.issues == Issues(raw)
  {
    IssuesEmptyIff(raw);
    if Issues(raw) == [] then
      Valid(PostData(raw.title.value, raw.slug.value, raw.excerpt.value, raw.content.value,
                     raw.tags.value, raw.published))
    else Invalid(Issues(raw))
  }

  // ---------------------------------------------------------------------
  // Errors and results
  // ---------------------------------------------------------------------

  /** What a mutation can throw: a `ZodError`, a Prisma known-request error,
      any other `Error`, or a thrown non-`Error` value. */
  datatype Thrown = ZodFailure(issues: seq<string>)
                  | KnownRequest(code: string, message: string)
                  | ErrorObject(message: string)
                  | NotAnError

  /** `{ success, message }`; the message is `undefined` only for a
      validation error without issues. */
  datatype ActionResult = ActionResult(success: bool, message: Option<string>)

  const UnauthorizedMessage: string := "Unauthorized. Please login again."
  const DuplicateSlugMessage: string := "A post with this slug already exists"

  /** The `catch` block of `createPost`/`updatePost`, with the action's own
      generic message as `fallback`. */
  function SaveFailure(e: Thrown, fallback: string): (r: ActionResult)
    ensures !r.success
    ensures e.ZodFailure? && e.issues != [] ==> r.message == Some(e.issues[0])
    ensures e.ZodFailure? && e.issues == [] ==> r.message.None?
    ensures e.KnownRequest? && e.code == "P2002" ==> r.message == Some(DuplicateSlugMessage)
    ensures e.KnownRequest? && e.code != "P2002" ==>
      r.message == Some(if e.message == "Unauthorized" then UnauthorizedMessage else fallback)
    ensures r.message == Some(UnauthorizedMessage) && fallback != UnauthorizedMessage ==>
      (e.ZodFailure? && e.issues != [] && e.issues[0] == UnauthorizedMessage)
      || (e.KnownRequest? && e.code != "P2002" && e.message == "Unauthorized")
      || e == ErrorObject("Unauthorized")
    ensures e == ErrorObject("Unauthorized") ==> r.message == Some(UnauthorizedMessage)
    ensures e.NotAnError? || (e.ErrorObject? && e.message != "Unauthorized") ==> r.message == Some(fallback)
  {
    match e
    case ZodFailure(issues) => ActionResult(false, if issues == [] then None else Some(issues[0]))
    case KnownRequest(code, message) =>
      if code == "P2002" then ActionResult(false, Some(DuplicateSlugMessage))
      else if message == "Unauthorized" then ActionResult(false, Some(UnauthorizedMessage))
      else ActionResult(false, Some(fallback))
    case ErrorObject(message) =>
      ActionResult(false, Some(if message == "Unauthorized" then UnauthorizedMessage else fallback))
    case NotAnError => ActionResult(false, Some(fallback))
  }

  /** `checkAuth`: the session must carry a non-empty e-mail. */
  predicate SignedIn(sessionEmail: Option<string>) {
    Auth.Truthy(sessionEmail)
  }

  const NotSignedIn: Thrown := ErrorObject("Unauthorized")

  /** Prisma's error for an update or delete whose row does not exist. */
  const RecordNotFound: Thrown := KnownRequest("P2025", "Record to update not found.")
  /** Prisma's error for an update whose `where.id` is `null`. */
  const MissingWhere: Thrown := ErrorObject("Argument `id` must not be null.")

  // ---------------------------------------------------------------------
  // fetchPosts
  // ---------------------------------------------------------------------

  /** `limit` added up `k` times. */
  function Times(k: nat, limit: nat): nat {
    if k == 0 then 0 else Times(k - 1, limit) + limit
  }

  lemma {:induction false} TimesIsProduct(k: nat, limit: nat)
    ensures Times(k, limit) == k * limit
  {
    if k > 0 {
      TimesIsProduct(k - 1, limit);
      assert k * limit == (k - 1) * limit + limit;
    }
  }

  /** `skip: (page - 1) * limit`, written as repeated addition so that the
      proofs about consecutive pages need no multiplication. */
  function Offset(page: int, limit: nat): (skip: int)
    ensures page >= 1 ==> skip >= 0
    ensures page < 1 && limit > 0 ==> skip < 0
  {
    if page >= 1 then Times(page - 1, limit) as int else -(Times(1 - page, limit) as int)
  }

  /** The offset is `(page - 1) * limit`. */
  lemma OffsetIsProduct(page: int, limit: nat)
    ensures Offset(page, limit) == (page - 1) * limit
  {
    if page >= 1 {
      TimesIsProduct(page - 1, limit);
    } else {
      TimesIsProduct(1 - page, limit);
      assert -((1 - page) * limit) == (page - 1) * limit;
    }
  }

  /** `fetchPosts(page, limit)`: a negative `skip` makes the query throw,
      and any query error yields `[]`. */
  function FetchPosts(table: seq<Post>, page: int, limit: nat, dbError: bool): (r: seq<Post>)
    ensures dbError || Offset(page, limit) < 0 ==> r == []
    ensures !dbError && page >= 1 ==> r == NewestPublished(table, Offset(page, limit), limit)
  {
    var skip := Offset(page, limit);
    if dbError || skip < 0 then [] else NewestPublished(table, skip, limit)
  }

  /** Whatever happens, the answer holds at most `limit` published rows of
      the table, newest first. */
  lemma FetchPostsRows(table: seq<Post>, page: int, limit: nat, dbError: bool)
    ensures var r := FetchPosts(table, page, limit, dbError);
      && |r| <= limit
      && (forall i :: 0 <= i < |r| ==> r[i].published && r[i] in table)
      && NewestFirst(r)
  {
    var skip := Offset(page, limit);
    if !dbError && skip >= 0 {
      NewestPublishedRows(table, skip, limit);
    }
  }

  /** A page is its window of the sorted rows. */
  lemma FetchPage(table: seq<Post>, page: int, limit: nat)
    requires page >= 1
    ensures FetchPosts(table, page, limit, false)
      == Take(Drop(ByNewest(Published(table)), Offset(page, limit)), limit)
  {
  }

  /** The next page starts `limit` rows later. */
  lemma OffsetNext(page: int, limit: nat)
    ensures Offset(page + 1, limit) == Offset(page, limit) + limit
  {
    if page < 0 {
      assert Times(1 - page, limit) == Times(-page, limit) + limit;
    }
  }

  lemma {:induction false} TakeDropTile(s: seq<Post>, a: nat, n: nat)
    ensures Take(Drop(s, a), n) + Take(Drop(s, a + n), n) == Take(Drop(s, a), 2 * n)
  {
    if a + n <= |s| {
      assert Drop(s, a + n) == Drop(s, a)[n..];
    }
  }

  /** The windows of two consecutive pages, one after the other, are the
      window of `2 * limit` rows where the first starts. */
  lemma WindowsTile(s: seq<Post>, page: int, limit: nat)
    requires page >= 1
    ensures Take(Drop(s, Offset(page, limit)), limit) + Take(Drop(s, Offset(page + 1, limit)), limit)
      == Take(Drop(s, Offset(page, limit)), 2 * limit)
  {
    var a: nat := Offset(page, limit);
    OffsetNext(page, limit);
    TakeDropTile(s, a, limit);
  }

  lemma JoinEqual(x: seq<Post>, y: seq<Post>, x': seq<Post>, y': seq<Post>, z: seq<Post>)
    requires x == x' && y == y' && x' + y' == z
    ensures x + y == z
  {
  }

  /** Consecutive pages tile the newest-first published list: page `p` and
      page `p + 1` together are the `2 * limit` posts that start where page
      `p` starts, so no post is skipped or shown twice. */
  lemma ConsecutivePages(table: seq<Post>, page: int, limit: nat)
    requires page >= 1
    ensures FetchPosts(table, page, limit, false) + FetchPosts(table, page + 1, limit, false)
      == Take(Drop(ByNewest(Published(table)), Offset(page, limit)), 2 * limit)
  {
    var sorted := ByNewest(Published(table));
    FetchPage(table, page, limit);
    FetchPage(table, page + 1, limit);
    WindowsTile(sorted, page, limit);
    JoinEqual(FetchPosts(table, page, limit, false), FetchPosts(table, page + 1, limit, false),
              Take(Drop(sorted, Offset(page, limit)), limit),
              Take(Drop(sorted, Offset(page + 1, limit)), limit),
              Take(Drop(sorted, Offset(page, limit)), 2 * limit));
  }

  // ---------------------------------------------------------------------
  // createPost / updatePost / deletePost
  // ---------------------------------------------------------------------

  /** Every row is stored under its own id. */
  predicate KeyedById(posts: map<string, Post>) {
    forall id :: id in posts ==> posts[id].id == id
  }

  /** The `slug` column is unique. */
  predicate SlugsUnique(posts: map<string, Post>) {
    forall a, b :: a in posts && b in posts && posts[a].slug == posts[b].slug ==> a == b
  }

  /** Some row other than `except` already holds `slug`. */
  predicate SlugTaken(posts: map<string, Post>, slug: string, except: Option<string>) {
    exists id :: id in posts && posts[id].slug == slug && Some(id) != except
  }

  function NewRow(id: string, d: PostData, createdAt: int, updatedAt: int): Post {
    Post(id, d.title, d.slug, d.excerpt, d.content, d.tags, d.published, createdAt, updatedAt)
  }

  datatype PostsOutcome = PostsOutcome(posts: map<string, Post>, result: ActionResult)

  const CreatedMessage: string := "Post created successfully"
  const UpdatedMessage: string := "Post updated successfully"
  const DeletedMessage: string := "Post deleted successfully"

  /** `createPost`: the database generates `newId` and stamps `now`. */
  function CreateSpec(posts: map<string, Post>, sessionEmail: Option<string>, raw: RawPost,
                      newId: string, now: int): PostsOutcome
  {
    if !SignedIn(sessionEmail) then PostsOutcome(posts, SaveFailure(NotSignedIn, "Failed to create post"))
    else match ParsePost(raw)
      case Invalid(issues) => PostsOutcome(posts, SaveFailure(ZodFailure(issues), "Failed to create post"))
      case Valid(d) =>
        if newId in posts || SlugTaken(posts, d.slug, None) then
          PostsOutcome(posts, SaveFailure(KnownRequest("P2002", "Unique constraint failed"), "Failed to create post"))
        else PostsOutcome(posts[newId := NewRow(newId, d, now, now)], ActionResult(true, Some(CreatedMessage)))
  }

  /** `updatePost`: the row keeps its id and creation time. */
  function UpdateSpec(posts: map<string, Post>, sessionEmail: Option<string>, id: Option<string>,
                      raw: RawPost, now: int): PostsOutcome
  {
    if !SignedIn(sessionEmail) then PostsOutcome(posts, SaveFailure(NotSignedIn, "Failed to update post"))
    else match ParsePost(raw)
      case Invalid(issues) => PostsOutcome(posts, SaveFailure(ZodFailure(issues), "Failed to update post"))
      case Valid(d) =>
        if id.None? then PostsOutcome(posts, SaveFailure(MissingWhere, "Failed to update post"))
        else if id.value !in posts then PostsOutcome(posts, SaveFailure(RecordNotFound, "Failed to update post"))
        else if SlugTaken(posts, d.slug, id) then
          PostsOutcome(posts, SaveFailure(KnownRequest("P2002", "Unique constraint failed"), "Failed to update post"))
        else
          PostsOutcome(posts[id.value := NewRow(id.value, d, posts[id.value].createdAt, now)],
                       ActionResult(true, Some(UpdatedMessage)))
  }

  /** `deletePost`: only the unauthorized error has its own message. */
  function DeleteSpec(posts: map<string, Post>, sessionEmail: Option<string>, id: string): PostsOutcome {
    if !SignedIn(sessionEmail) then PostsOutcome(posts, ActionResult(false, Some(UnauthorizedMessage)))
    else if id !in posts then PostsOutcome(posts, ActionResult(false, Some("Failed to delete post")))
    else PostsOutcome(posts - {id}, ActionResult(true, Some(DeletedMessage)))
  }

  /** With no signed-in e-mail every mutation fails with the unauthorized
      message and leaves the table as it was. */
  lemma MutationsRequireSession(posts: map<string, Post>, sessionEmail: Option<string>, raw: RawPost,
                                newId: string, id: Option<string>, deleteId: string, now: int)
    requires !SignedIn(sessionEmail)
    ensures CreateSpec(posts, sessionEmail, raw, newId, now) == PostsOutcome(posts, ActionResult(false, Some(UnauthorizedMessage)))
    ensures UpdateSpec(posts, sessionEmail, id, raw, now) == PostsOutcome(posts, ActionResult(false, Some(UnauthorizedMessage)))
    ensures DeleteSpec(posts, sessionEmail, deleteId) == PostsOutcome(posts, ActionResult(false, Some(UnauthorizedMessage)))
  {
  }

  /** A create succeeds exactly when the user is signed in, the form is
      valid and neither the id nor the slug is taken; then exactly one row is
      added, otherwise nothing changes. */
  lemma CreateIff(posts: map<string, Post>, sessionEmail: Option<string>, raw: RawPost, newId: string, now: int)
    ensures var o := CreateSpec(posts, sessionEmail, raw, newId, now);
      && (o.result.success <==>
            SignedIn(sessionEmail) && ValidPost(raw) && newId !in posts && !SlugTaken(posts, raw.slug.value, None))
      && (o.result.success ==>
            && o.posts.Keys == posts.Keys + {newId}
            && o.posts[newId].slug == raw.slug.value
            && forall k :: k in posts ==> o.posts[k] == posts[k])
      && (!o.result.success ==> o.posts == posts)
      && (SignedIn(sessionEmail) && !ValidPost(raw) ==> o.result.message == Some(Issues(raw)[0]))
  {
  }

  /** An update touches at most the addressed row, and only when it
      succeeds. */
  lemma UpdateIff(posts: map<string, Post>, sessionEmail: Option<string>, id: Option<string>, raw: RawPost, now: int)
    ensures var o := UpdateSpec(posts, sessionEmail, id, raw, now);
      && (o.result.success <==>
            SignedIn(sessionEmail) && ValidPost(raw) && id.Some? && id.value in posts
            && !SlugTaken(posts, raw.slug.value, id))
      && (o.result.success ==>
            && o.posts.Keys == posts.Keys
            && o.posts[id.value].createdAt == posts[id.value].createdAt
            && o.posts[id.value].slug == raw.slug.value
            && forall k :: k in posts && k != id.value ==> o.posts[k] == posts[k])
      && (!o.result.success ==> o.posts == posts)
      && (SignedIn(sessionEmail) && ValidPost(raw) && (id.None? || id.value !in posts) ==>
            o.result.message == Some("Failed to update post"))
  {
  }

  /** A create keeps rows under their own ids and keeps slugs unique. */
  lemma CreateKeepsTableValid(posts: map<string, Post>, sessionEmail: Option<string>, raw: RawPost,
                              newId: string, now: int)
    requires KeyedById(posts) && SlugsUnique(posts)
    ensures var o := CreateSpec(posts, sessionEmail, raw, newId, now); KeyedById(o.posts) && SlugsUnique(o.posts)
  {
    var o := CreateSpec(posts, sessionEmail, raw, newId, now);
    if o.result.success {
      CreateIff(posts, sessionEmail, raw, newId, now);
      assert o.posts[newId].id == newId;
      assert forall a :: a in posts ==> posts[a].slug != raw.slug.value;
    }
  }

  /** An update keeps rows under their own ids and keeps slugs unique. */
  lemma UpdateKeepsTableValid(posts: map<string, Post>, sessionEmail: Option<string>, id: Option<string>,
                              raw: RawPost, now: int)
    requires KeyedById(posts) && SlugsUnique(posts)
    ensures var o := UpdateSpec(posts, sessionEmail, id, raw, now); KeyedById(o.posts) && SlugsUnique(o.posts)
  {
    var o := UpdateSpec(posts, sessionEmail, id, raw, now);
    if o.result.success {
      UpdateIff(posts, sessionEmail, id, raw, now);
      var k := id.value;
      assert o.posts[k].id == k;
      assert forall a :: a in posts && a != k ==> posts[a].slug != raw.slug.value;
    }
  }

  /** A delete keeps rows under their own ids and keeps slugs unique. */
  lemma DeleteKeepsTableValid(posts: map<string, Post>, sessionEmail: Option<string>, id: string)
    requires KeyedById(posts) && SlugsUnique(posts)
    ensures var o := DeleteSpec(posts, sessionEmail, id); KeyedById(o.posts) && SlugsUnique(o.posts)
  {
  }

  /** The `post` table behind the three mutations. */
  class PostTable {
    var posts: map<string, Post>

    constructor(initial: map<string, Post>)
      ensures posts == initial
    {
      posts := initial;
    }

    method CreatePost(sessionEmail: Option<string>, raw: RawPost, newId: string, now: int)
      returns (result: ActionResult)
      modifies this
      ensures PostsOutcome(posts, result) == CreateSpec(old(posts), sessionEmail, raw, newId, now)
    {
      if !SignedIn(sessionEmail) {
        return SaveFailure(NotSignedIn, "Failed to create post");
      }
      var parsed := ParsePost(raw);
      if parsed.Invalid? {
        return SaveFailure(ZodFailure(parsed.issues), "Failed to create post");
      }
      var d := parsed.data;
      if newId in posts || SlugTaken(posts, d.slug, None) {
        return SaveFailure(KnownRequest("P2002", "Unique constraint failed"), "Failed to create post");
      }
      posts := posts[newId := NewRow(newId, d, now, now)];
      return ActionResult(true, Some(CreatedMessage));
    }

    method UpdatePost(sessionEmail: Option<string>, id: Option<string>, raw: RawPost, now: int)
      returns (result: ActionResult)
      modifies this
      ensures PostsOutcome(posts, result) == UpdateSpec(old(posts), sessionEmail, id, raw, now)
    {
      if !SignedIn(sessionEmail) {
        return SaveFailure(NotSignedIn, "Failed to update post");
      }
      var parsed := ParsePost(raw);
      if parsed.Invalid? {
        return SaveFailure(ZodFailure(parsed.issues), "Failed to update post");
      }
      var d := parsed.data;
      if id.None? {
        return SaveFailure(MissingWhere, "Failed to update post");
      }
      if id.value !in posts {
        return SaveFailure(RecordNotFound, "Failed to update post");
      }
      if SlugTaken(posts, d.slug, id) {
        return SaveFailure(KnownRequest("P2002", "Unique constraint failed"), "Failed to update post");
      }
      posts := posts[id.value := NewRow(id.value, d, posts[id.value].createdAt, now)];
      return ActionResult(true, Some(UpdatedMessage));
    }

    method DeletePost(sessionEmail: Option<string>, id: string) returns (result: ActionResult)
      modifies this
      ensures PostsOutcome(posts, result) == DeleteSpec(old(posts), sessionEmail, id)
    {
      if !SignedIn(sessionEmail) {
        return ActionResult(false, Some(UnauthorizedMessage));
      }
      if id !in posts {
        return ActionResult(false, Some("Failed to delete post"));
      }
      posts := posts - {id};
      return ActionResult(true, Some(DeletedMessage));
    }
  }

  // ---------------------------------------------------------------------
  // changePassword
  // ---------------------------------------------------------------------

  const PasswordChangedMessage: string := "Password changed successfully. Please login again."

  datatype AdminsOutcome = AdminsOutcome(admins: map<string, Auth.Admin>, result: ActionResult)

  /** `changePassword`, with bcrypt's `compare` as a parameter and the fresh
      hash of the new password as `newHash`. The admin table is keyed by
      e-mail; the row found by e-mail is the row updated by id. */
  function ChangePasswordSpec(admins: map<string, Auth.Admin>, sessionEmail: Option<string>,
                              currentPassword: Option<string>, newPassword: Option<string>,
                              compare: (string, string) -> bool, newHash: string): AdminsOutcome
  {
    var fail := (m: string) => AdminsOutcome(admins, ActionResult(false, Some(m)));
    if !SignedIn(sessionEmail) then fail(UnauthorizedMessage)
    else if !Auth.Truthy(currentPassword) || !Auth.Truthy(newPassword) then fail("All fields are required")
    else if |newPassword.value| < 12 then fail("New password must be at least 12 characters long")
    else if currentPassword.value == newPassword.value then fail("New password must be different from current password")
    else if sessionEmail.value !in admins then fail("User not found")
    else if !compare(currentPassword.value, admins[sessionEmail.value].password) then fail("Current password is incorrect")
    else
      var email := sessionEmail.value;
      AdminsOutcome(admins[email := admins[email].(password := newHash)],
                    ActionResult(true, Some(PasswordChangedMessage)))
  }

  /** The checks run in a fixed order, each failure with its own message,
      and the stored hash changes exactly when all of them pass. */
  lemma ChangePasswordOrder(admins: map<string, Auth.Admin>, sessionEmail: Option<string>,
                            currentPassword: Option<string>, newPassword: Option<string>,
                            compare: (string, string) -> bool, newHash: string)
    ensures var o := ChangePasswordSpec(admins, sessionEmail, currentPassword, newPassword, compare, newHash);
      && (!SignedIn(sessionEmail) ==> o.result.message == Some(UnauthorizedMessage))
      && (SignedIn(sessionEmail) && (!Auth.Truthy(currentPassword) || !Auth.Truthy(newPassword)) ==>
            o.result.message == Some("All fields are required"))
      && (SignedIn(sessionEmail) && Auth.Truthy(currentPassword) && Auth.Truthy(newPassword) && |newPassword.value| < 12 ==>
            o.result.message == Some("New password must be at least 12 characters long"))
      && (SignedIn(sessionEmail) && Auth.Truthy(currentPassword) && Auth.Truthy(newPassword)
            && |newPassword.value| >= 12 && currentPassword == newPassword ==>
            o.result.message == Some("New password must be different from current password"))
      && (SignedIn(sessionEmail) && Auth.Truthy(currentPassword) && Auth.Truthy(newPassword)
            && |newPassword.value| >= 12 && currentPassword != newPassword && sessionEmail.value !in admins ==>
            o.result.message == Some("User not found"))
      && (SignedIn(sessionEmail) && Auth.Truthy(currentPassword) && Auth.Truthy(newPassword)
            && |newPassword.value| >= 12 && currentPassword != newPassword && sessionEmail.value in admins
            && !compare(currentPassword.value, admins[sessionEmail.value].password) ==>
            o.result.message == Some("Current password is incorrect"))
      && (o.result.success ==> o.result.message == Some(PasswordChangedMessage))
      && (o.result.success <==>
            SignedIn(sessionEmail) && Auth.Truthy(currentPassword) && Auth.Truthy(newPassword) && |newPassword.value| >= 12
            && currentPassword != newPassword && sessionEmail.value in admins
            && compare(currentPassword.value, admins[sessionEmail.value].password))
      && (!o.result.success ==> o.admins == admins)
      && (o.result.success ==>
            && o.admins.Keys == admins.Keys
            && o.admins[sessionEmail.value].password == newHash
            && o.admins[sessionEmail.value].id == admins[sessionEmail.value].id
            && forall e :: e in admins && e != sessionEmail.value ==> o.admins[e] == admins[e])
  {
  }

  /** The `admin` table behind `changePassword`. */
  class AdminTable {
    var admins: map<string, Auth.Admin>

    constructor(initial: map<string, Auth.Admin>)
      ensures admins == initial
    {
      admins := initial;
    }

    method ChangePassword(sessionEmail: Option<string>, currentPassword: Option<string>, newPassword: Option<string>,
                          compare: (string, string) -> bool, newHash: string)
      returns (result: ActionResult)
      modifies this
      ensures AdminsOutcome(admins, result) == ChangePasswordSpec(old(admins), sessionEmail, currentPassword, newPassword, compare, newHash)
    {
      if !SignedIn(sessionEmail) {
        return ActionResult(false, Some(UnauthorizedMessage));
      }
      if !Auth.Truthy(currentPassword) || !Auth.Truthy(newPassword) {
        return ActionResult(false, Some("All fields are required"));
      }
      if |newPassword.value| < 12 {
        return ActionResult(false, Some("New password must be at least 12 characters long"));
      }
      if currentPassword.value == newPassword.value {
        return ActionResult(false, Some("New password must be different from current password"));
      }
      var email := sessionEmail.value;
      if email !in admins {
        return ActionResult(false, Some("User not found"));
      }
      var admin := admins[email];
      var isValid := compare(currentPassword.value, admin.password);
      if !isValid {
        return ActionResult(false, Some("Current password is incorrect"));
      }
      admins := admins[email := admin.(password := newHash)];
      return ActionResult(true, Some(PasswordChangedMessage));
    }
  }
}
