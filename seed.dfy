/** `main` of `prisma/seed.ts`: the admin credential gate, the admin upsert
    keyed by e-mail and the post upserts keyed by slug. Generated ids are
    the parameters `adminId` and `idFor` (one id per slug); bcrypt's hash of
    the password is `hashedPassword`. */
module Seed {
  import opened Strings
  import Auth

  const MinPasswordLength: nat := 12
  const WeakWords: seq<string> := ["password", "123456", "admin", "qwerty", "letmein"]

  /** Why the script exits before writing anything. */
  datatype SeedError = MissingCredentials | PasswordTooShort | PasswordTooWeak

  /** `weakPasswords.some(weak => adminPassword.toLowerCase().includes(weak))` */
  predicate IsWeak(password: string) {
    exists i :: 0 <= i < |WeakWords| && Contains(Lower(password), WeakWords[i])
  }

  /** The three checks, in order. */
  function CredentialCheck(email: Option<string>, password: Option<string>): (r: Option<SeedError>)
    ensures r.None? <==> Auth.Truthy(email) && Auth.Truthy(password)
                         && |password.value| >= MinPasswordLength && !IsWeak(password.value)
    ensures !Auth.Truthy(email) || !Auth.Truthy(password) ==> r == Some(MissingCredentials)
    ensures Auth.Truthy(email) && Auth.Truthy(password) && |password.value| < MinPasswordLength ==>
      r == Some(PasswordTooShort)
    ensures (Auth.Truthy(email) && Auth.Truthy(password) && |password.value| >= MinPasswordLength
             && IsWeak(password.value)) ==> r == Some(PasswordTooWeak)
  {
    if !Auth.Truthy(email) || !Auth.Truthy(password) then Some(MissingCredentials)
    else if |password.value| < MinPasswordLength then Some(PasswordTooShort)
    else if IsWeak(password.value) then Some(PasswordTooWeak)
    else None
  }

  /** Every admin is stored under its own e-mail. */
  predicate KeyedByEmail(admins: map<string, Auth.Admin>) {
    forall e :: e in admins ==> admins[e].email == e
  }

  /** `admin.upsert({ where: { email }, update: { password }, create: ... })` */
  function UpsertAdmin(admins: map<string, Auth.Admin>, email: string, hashedPassword: string,
                       adminId: string): (r: map<string, Auth.Admin>)
    ensures r.Keys == admins.Keys + {email}
    ensures r[email].password == hashedPassword
    ensures email !in admins ==> r[email] == Auth.Admin(adminId, email, hashedPassword)
    ensures KeyedByEmail(admins) ==> KeyedByEmail(r)
    ensures email in admins ==> r[email].id == admins[email].id
    ensures forall e :: e in admins && e != email ==> r[e] == admins[e]
  {
    if email in admins then admins[email := admins[email].(password := hashedPassword)]
    else admins[email := Auth.Admin(adminId, email, hashedPassword)]
  }

  /** A seeded post as written in the script. */
  datatype SeedPost = SeedPost(title: string, excerpt: string, content: string, slug: string,
                               tags: string, published: bool, createdAt: int)

  /** A row of the post table: its id and its data. */
  datatype Row = Row(id: string, post: SeedPost)

  /** `post.upsert({ where: { slug }, update: post, create: post })` on a
      table keyed by slug. */
  function UpsertPost(table: map<string, Row>, p: SeedPost, idFor: string -> string): map<string, Row> {
    if p.slug in table then table[p.slug := Row(table[p.slug].id, p)]
    else table[p.slug := Row(idFor(p.slug), p)]
  }

  /** The upserts of `ps`, in order. */
  function UpsertPosts(table: map<string, Row>, ps: seq<SeedPost>, idFor: string -> string): map<string, Row>
    decreases |ps|
  {
    if ps == [] then table
    else UpsertPost(UpsertPosts(table, ps[..|ps| - 1], idFor), ps[|ps| - 1], idFor)
  }

  function Slugs(ps: seq<SeedPost>): (r: set<string>)
    ensures forall i :: 0 <= i < |ps| ==> ps[i].slug in r
    ensures forall s :: s in r ==> exists i :: 0 <= i < |ps| && ps[i].slug == s
    decreases |ps|
  {
    if ps == [] then {} else Slugs(ps[..|ps| - 1]) + {ps[|ps| - 1].slug}
  }

  /** The last post of `ps` with this slug: the one whose data remains. */
  function LastWith(ps: seq<SeedPost>, slug: string): (r: Option<SeedPost>)
    ensures r.Some? ==> r.value in ps && r.value.slug == slug
    ensures r.None? <==> slug !in Slugs(ps)
    decreases |ps|
  {
    if ps == [] then None
    else if ps[|ps| - 1].slug == slug then Some(ps[|ps| - 1])
    else
      var r := LastWith(ps[..|ps| - 1], slug);
      assert r.Some? ==> r.value in ps by {
        assert forall q :: q in ps[..|ps| - 1] ==> q in ps;
      }
      r
  }

  /** The row a slug holds after seeding `ps` into `table`. */
  function Expected(table: map<string, Row>, ps: seq<SeedPost>, idFor: string -> string, s: string): Row
    requires s in table || s in Slugs(ps)
  {
    if LastWith(ps, s).None? then table[s]
    else Row(if s in table then table[s].id else idFor(s), LastWith(ps, s).value)
  }

  /** After the upserts exactly the old slugs and the seeded slugs exist;
      a seeded slug holds the last seeded data for it under its old id, or
      under a new id if it did not exist; other rows are untouched. */
  lemma {:induction false} UpsertPostsAt(table: map<string, Row>, ps: seq<SeedPost>, idFor: string -> string)
    ensures var r := UpsertPosts(table, ps, idFor);
      && r.Keys == table.Keys + Slugs(ps)
      && forall s :: s in r ==> r[s] == Expected(table, ps, idFor, s)
    decreases |ps|
  {
    if ps != [] {
      var init := ps[..|ps| - 1];
      var p := ps[|ps| - 1];
      UpsertPostsAt(table, init, idFor);
      var prev := UpsertPosts(table, init, idFor);
      var r := UpsertPosts(table, ps, idFor);
      assert r == UpsertPost(prev, p, idFor);
      assert Slugs(ps) == Slugs(init) + {p.slug};
      forall s | s in r
        ensures r[s] == Expected(table, ps, idFor, s)
      {
        if s == p.slug {
          assert LastWith(ps, s) == Some(p);
        } else {
          assert LastWith(ps, s) == LastWith(init, s);
          assert r[s] == prev[s];
        }
      }
    }
  }

  /** Seeding twice leaves the table exactly as seeding once: one row per
      slug, same ids, the seeded contents. */
  lemma SeedIdempotent(table: map<string, Row>, ps: seq<SeedPost>, idFor: string -> string,
                       idFor2: string -> string)
    ensures UpsertPosts(UpsertPosts(table, ps, idFor), ps, idFor2) == UpsertPosts(table, ps, idFor)
  {
    var once := UpsertPosts(table, ps, idFor);
    var twice := UpsertPosts(once, ps, idFor2);
    UpsertPostsAt(table, ps, idFor);
    UpsertPostsAt(once, ps, idFor2);
    assert twice.Keys == once.Keys;
    forall s | s in twice
      ensures twice[s] == once[s]
    {
    }
  }

  /** The seed's stores. */
  class Database {
    var admins: map<string, Auth.Admin>
    var posts: map<string, Row>

    constructor(admins: map<string, Auth.Admin>, posts: map<string, Row>)
      ensures this.admins == admins && this.posts == posts
    {
      this.admins := admins;
      this.posts := posts;
    }

    /** The `for (const post of posts)` loop. */
    method SeedPosts(ps: seq<SeedPost>, idFor: string -> string)
      modifies this
      ensures posts == UpsertPosts(old(posts), ps, idFor)
      ensures admins == old(admins)
    {
      var i := 0;
      while i < |ps|
        invariant 0 <= i <= |ps|
        invariant posts == UpsertPosts(old(posts), ps[..i], idFor)
        invariant admins == old(admins)
      {
        var post := ps[i];
        assert ps[..i + 1][..i] == ps[..i];
        if post.slug in posts {
          posts := posts[post.slug := Row(posts[post.slug].id, post)];
        } else {
          posts := posts[post.slug := Row(idFor(post.slug), post)];
        }
        i := i + 1;
      }
      assert ps[..|ps|] == ps;
    }

    /** `main()`: a failed check exits before any write. */
    method Run(email: Option<string>, password: Option<string>, hashedPassword: string, adminId: string,
                ps: seq<SeedPost>, idFor: string -> string)
      returns (error: Option<SeedError>)
      modifies this
      ensures error == CredentialCheck(email, password)
      ensures error.Some? ==> admins == old(admins) && posts == old(posts)
      ensures error.None? ==>
        && admins == UpsertAdmin(old(admins), email.value, hashedPassword, adminId)
        && posts == UpsertPosts(old(posts), ps, idFor)
    {
      error := CredentialCheck(email, password);
      if error.Some? {
        return;
      }
      admins := UpsertAdmin(admins, email.value, hashedPassword, adminId);
      SeedPosts(ps, idFor);
    }
  }
}
