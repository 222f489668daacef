/** The request middleware of `src/middleware.ts`: permanent redirects from
    old post slugs and the sign-in guard on the admin area. The slug-redirect
    table maps an old slug to the current slug of its post, or to `None`
    when the redirect row has no post. */
module Middleware {
  import opened Strings

  const PostsPrefix: string := "/posts/"
  const AdminPrefix: string := "/admin"

  datatype Response =
    | Next
    | PermanentRedirect(location: string)
    | SignInRedirect

  /** `pathname.replace('/posts/', '')` on a path that starts with the
      prefix: everything after it. */
  lemma PostsSlug(path: string)
    ensures StartsWith(path, PostsPrefix) ==> ReplaceFirst(path, PostsPrefix, "") == path[|PostsPrefix|..]
  {
    if StartsWith(path, PostsPrefix) {
      ReplaceFirstAt(path, PostsPrefix, "", 0);
    }
  }

  /** No path is both under `/posts/` and under `/admin`. */
  lemma PrefixesDisjoint(path: string)
    ensures !(StartsWith(path, PostsPrefix) && StartsWith(path, AdminPrefix))
  {
    if StartsWith(path, PostsPrefix) {
      assert path[1] == PostsPrefix[1];
    }
  }

  /** `middleware(req)`; `hasToken` is whether next-auth found a session
      token on the request. */
  function Route(path: string, redirects: map<string, Option<string>>, hasToken: bool): (r: Response)
    ensures r.PermanentRedirect? <==>
      && StartsWith(path, PostsPrefix)
      && path[|PostsPrefix|..] in redirects && redirects[path[|PostsPrefix|..]].Some?
    ensures r.PermanentRedirect? ==> r.location == PostsPrefix + redirects[path[|PostsPrefix|..]].value
    ensures r.SignInRedirect? <==> StartsWith(path, AdminPrefix) && !hasToken
    ensures r.Next? <==> !r.PermanentRedirect? && !r.SignInRedirect?
  {
    PostsSlug(path);
    PrefixesDisjoint(path);
    if StartsWith(path, PostsPrefix) && ReplaceFirst(path, PostsPrefix, "") in redirects
       && redirects[ReplaceFirst(path, PostsPrefix, "")].Some? then
      PermanentRedirect("/posts/" + redirects[ReplaceFirst(path, PostsPrefix, "")].value)
    else if StartsWith(path, AdminPrefix) then
      if hasToken then Next else SignInRedirect
    else Next
  }

  /** A redirect is followed once: when the current slug it leads to is not
      itself an old slug, the redirected request passes through, signed in
      or not. */
  lemma RedirectSettles(path: string, redirects: map<string, Option<string>>, hasToken: bool, hasToken2: bool)
    requires Route(path, redirects, hasToken).PermanentRedirect?
    requires redirects[path[|PostsPrefix|..]].value !in redirects
    ensures Route(Route(path, redirects, hasToken).location, redirects, hasToken2) == Next
  {
    var target := redirects[path[|PostsPrefix|..]].value;
    var location := PostsPrefix + target;
    assert StartsWith(location, PostsPrefix);
    assert location[|PostsPrefix|..] == target;
    assert location[1] == 'p';
  }
}
