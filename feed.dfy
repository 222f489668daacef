/** The RSS feed of `src/app/feed.xml/route.ts`: XML escaping and the values
    that go into each `<item>`. */
module Feed {
  import opened Strings
  import opened Posts

  // ---------------------------------------------------------------------
  // escapeXml
  // ---------------------------------------------------------------------

  /** `escapeXml(str)` as written: five global replacements, `&` first. */
  function EscapeXml(s: string): string {
    ReplaceAll(ReplaceAll(ReplaceAll(ReplaceAll(ReplaceAll(s, '&', "&amp;"), '<', "&lt;"), '>', "&gt;"),
      '"', "&quot;"), '\'', "&apos;")
  }

  /** The entity a character stands for in escaped text. */
  function EscapeChar(c: char): string {
    match c
    case '&' => "&amp;"
    case '<' => "&lt;"
    case '>' => "&gt;"
    case '"' => "&quot;"
    case '\'' => "&apos;"
    case _ => [c]
  }

  /** Escaping one character at a time: the reference the replace chain
      must match. */
  function EscapeEach(s: string): string {
    if s == [] then [] else EscapeChar(s[0]) + EscapeEach(s[1..])
  }

  predicate IsSpecial(c: char) {
    c == '&' || c == '<' || c == '>' || c == '"' || c == '\''
  }

  /** Running the five replacements on one character's escape gives that
      escape: no replacement touches what an earlier one produced, except
      `&`, which is done first. */
  lemma EscapeXmlChar(c: char)
    ensures EscapeXml([c]) == EscapeChar(c)
  {
    ReplaceAllOne(c, '&', "&amp;");
    if c == '&' {
      assert '<' !in "&amp;" && '>' !in "&amp;" && '"' !in "&amp;" && '\'' !in "&amp;";
    } else {
      ReplaceAllOne(c, '<', "&lt;");
      if c == '<' {
        assert '>' !in "&lt;" && '"' !in "&lt;" && '\'' !in "&lt;";
      } else {
        ReplaceAllOne(c, '>', "&gt;");
        if c == '>' {
          assert '"' !in "&gt;" && '\'' !in "&gt;";
        } else {
          ReplaceAllOne(c, '"', "&quot;");
          if c == '"' {
            assert '\'' !in "&quot;";
          } else {
            ReplaceAllOne(c, '\'', "&apos;");
          }
        }
      }
    }
  }

  lemma ReplaceAllOne(c: char, d: char, rep: string)
    ensures ReplaceAll([c], d, rep) == if c == d then rep else [c]
  {
    assert [c][1..] == [];
  }

  lemma EscapeXmlAppend(a: string, b: string)
    ensures EscapeXml(a + b) == EscapeXml(a) + EscapeXml(b)
  {
    var s1a, s1b := ReplaceAll(a, '&', "&amp;"), ReplaceAll(b, '&', "&amp;");
    ReplaceAllAppend(a, b, '&', "&amp;");
    var s2a, s2b := ReplaceAll(s1a, '<', "&lt;"), ReplaceAll(s1b, '<', "&lt;");
    ReplaceAllAppend(s1a, s1b, '<', "&lt;");
    var s3a, s3b := ReplaceAll(s2a, '>', "&gt;"), ReplaceAll(s2b, '>', "&gt;");
    ReplaceAllAppend(s2a, s2b, '>', "&gt;");
    var s4a, s4b := ReplaceAll(s3a, '"', "&quot;"), ReplaceAll(s3b, '"', "&quot;");
    ReplaceAllAppend(s3a, s3b, '"', "&quot;");
    ReplaceAllAppend(s4a, s4b, '\'', "&apos;");
  }

  /** The replace chain escapes each character independently, so no entity
      is escaped twice. */
  lemma {:induction false} EscapeXmlIsPerChar(s: string)
    ensures EscapeXml(s) == EscapeEach(s)
  {
    if s != [] {
      assert s == [s[0]] + s[1..];
      EscapeXmlAppend([s[0]], s[1..]);
      EscapeXmlChar(s[0]);
      EscapeXmlIsPerChar(s[1..]);
    }
  }

  lemma {:induction false} EscapeEachAppend(a: string, b: string)
    ensures EscapeEach(a + b) == EscapeEach(a) + EscapeEach(b)
  {
    if a == [] {
      assert a + b == b;
    } else {
      assert (a + b)[1..] == a[1..] + b;
      EscapeEachAppend(a[1..], b);
    }
  }

  /** The output holds no raw `<`, `>`, `"` or `'`. */
  lemma EscapedHasNoMarkup(s: string)
    ensures var r := EscapeXml(s); '<' !in r && '>' !in r && '"' !in r && '\'' !in r
  {
    EscapeXmlIsPerChar(s);
    EachHasNoMarkup(s);
  }

  lemma {:induction false} EachHasNoMarkup(s: string)
    ensures var r := EscapeEach(s); '<' !in r && '>' !in r && '"' !in r && '\'' !in r
  {
    if s != [] {
      EachHasNoMarkup(s[1..]);
      var e, t := EscapeChar(s[0]), EscapeEach(s[1..]);
      assert '<' !in e && '>' !in e && '"' !in e && '\'' !in e;
      assert EscapeEach(s) == e + t;
    }
  }

  predicate EntityAt(r: string, i: int) {
    OccursAt(r, "&amp;", i) || OccursAt(r, "&lt;", i) || OccursAt(r, "&gt;", i)
    || OccursAt(r, "&quot;", i) || OccursAt(r, "&apos;", i)
  }

  /** Every `&` in the output begins one of the five entities. */
  lemma {:induction false} AmpersandsStartEntities(s: string)
    ensures var r := EscapeXml(s); forall i :: 0 <= i < |r| && r[i] == '&' ==> EntityAt(r, i)
  {
    EscapeXmlIsPerChar(s);
    EachAmpersandStartsEntity(s);
  }

  lemma OccursShift(e: string, t: string, x: string, j: int)
    ensures OccursAt(t, x, j) ==> OccursAt(e + t, x, j + |e|)
  {
    if OccursAt(t, x, j) {
      assert (e + t)[j + |e|..j + |e| + |x|] == t[j..j + |x|];
    }
  }

  lemma {:induction false} EachAmpersandStartsEntity(s: string)
    ensures forall i :: 0 <= i < |EscapeEach(s)| && EscapeEach(s)[i] == '&' ==> EntityAt(EscapeEach(s), i)
  {
    if s != [] {
      EachAmpersandStartsEntity(s[1..]);
      var e, t := EscapeChar(s[0]), EscapeEach(s[1..]);
      var r := EscapeEach(s);
      assert r == e + t;
      forall i | 0 <= i < |r| && r[i] == '&'
        ensures EntityAt(r, i)
      {
        if i < |e| {
          HeadEntity(s[0], t, i);
        } else {
          var j := i - |e|;
          assert t[j] == r[i];
          ShiftEntity(e, t, j);
        }
      }
    }
  }

  /** An `&` inside a character's escape is the escape's first character,
      and begins an entity. */
  lemma HeadEntity(c: char, t: string, i: int)
    requires 0 <= i < |EscapeChar(c)| && (EscapeChar(c) + t)[i] == '&'
    ensures EntityAt(EscapeChar(c) + t, i)
  {
    var e := EscapeChar(c);
    assert i == 0;
    assert (e + t)[..|e|] == e;
  }

  /** An entity stays one when text is put in front of it. */
  lemma ShiftEntity(e: string, t: string, j: int)
    requires EntityAt(t, j)
    ensures EntityAt(e + t, j + |e|)
  {
    OccursShift(e, t, "&amp;", j);
    OccursShift(e, t, "&lt;", j);
    OccursShift(e, t, "&gt;", j);
    OccursShift(e, t, "&quot;", j);
    OccursShift(e, t, "&apos;", j);
  }

  /** Plain text is left as it is. */
  lemma {:induction false} EscapePlainIsIdentity(s: string)
    requires forall i :: 0 <= i < |s| ==> !IsSpecial(s[i])
    ensures EscapeXml(s) == s
  {
    EscapeXmlIsPerChar(s);
    EachPlainIsIdentity(s);
  }

  lemma {:induction false} EachPlainIsIdentity(s: string)
    requires forall i :: 0 <= i < |s| ==> !IsSpecial(s[i])
    ensures EscapeEach(s) == s
  {
    if s != [] {
      EachPlainIsIdentity(s[1..]);
      assert s == [s[0]] + s[1..];
    }
  }

  /** Escaping never shortens, and lengthens exactly when there is something
      to escape. */
  lemma {:induction false} EscapeNeverShortens(s: string)
    ensures |EscapeXml(s)| >= |s|
    ensures |EscapeXml(s)| == |s| <==> forall i :: 0 <= i < |s| ==> !IsSpecial(s[i])
  {
    EscapeXmlIsPerChar(s);
    EachNeverShortens(s);
  }

  lemma {:induction false} EachNeverShortens(s: string)
    ensures |EscapeEach(s)| >= |s|
    ensures |EscapeEach(s)| == |s| <==> forall i :: 0 <= i < |s| ==> !IsSpecial(s[i])
  {
    if s != [] {
      EachNeverShortens(s[1..]);
      assert forall i :: 1 <= i < |s| ==> s[i] == s[1..][i - 1];
    }
  }

  /** Reading the five entities back. */
  function Unescape(r: string): string
    decreases |r|
  {
    if r == [] then []
    else if StartsWith(r, "&amp;") then ['&'] + Unescape(r[5..])
    else if StartsWith(r, "&lt;") then ['<'] + Unescape(r[4..])
    else if StartsWith(r, "&gt;") then ['>'] + Unescape(r[4..])
    else if StartsWith(r, "&quot;") then ['"'] + Unescape(r[6..])
    else if StartsWith(r, "&apos;") then ['\''] + Unescape(r[6..])
    else [r[0]] + Unescape(r[1..])
  }

  /** Escaping is undone by reading the entities back: nothing is lost and
      nothing is escaped twice. */
  lemma {:induction false} UnescapeEscape(s: string)
    ensures Unescape(EscapeXml(s)) == s
  {
    EscapeXmlIsPerChar(s);
    UnescapeEach(s);
  }

  /** Text that differs from `p` at position `i` does not start with `p`. */
  lemma NotPrefix(r: string, p: string, i: nat)
    requires i < |p| && i < |r| && r[i] != p[i]
    ensures !StartsWith(r, p)
  {
    if |p| <= |r| {
      assert r[..|p|][i] == r[i];
    }
  }

  lemma UnescapeAmp(t: string)
    ensures Unescape("&amp;" + t) == ['&'] + Unescape(t)
  {
    var r := "&amp;" + t;
    assert r[..5] == "&amp;" && r[5..] == t;
  }

  lemma UnescapeLt(t: string)
    ensures Unescape("&lt;" + t) == ['<'] + Unescape(t)
  {
    var r := "&lt;" + t;
    assert r[1] == 'l';
    NotPrefix(r, "&amp;", 1);
    assert r[..4] == "&lt;" && r[4..] == t;
  }

  lemma UnescapeGt(t: string)
    ensures Unescape("&gt;" + t) == ['>'] + Unescape(t)
  {
    var r := "&gt;" + t;
    assert r[1] == 'g';
    NotPrefix(r, "&amp;", 1);
    NotPrefix(r, "&lt;", 1);
    assert r[..4] == "&gt;" && r[4..] == t;
  }

  lemma UnescapeQuot(t: string)
    ensures Unescape("&quot;" + t) == ['"'] + Unescape(t)
  {
    var r := "&quot;" + t;
    assert r[1] == 'q';
    NotPrefix(r, "&amp;", 1);
    NotPrefix(r, "&lt;", 1);
    NotPrefix(r, "&gt;", 1);
    assert r[..6] == "&quot;" && r[6..] == t;
  }

  lemma UnescapeApos(t: string)
    ensures Unescape("&apos;" + t) == ['\''] + Unescape(t)
  {
    var r := "&apos;" + t;
    assert r[1] == 'a' && r[2] == 'p';
    NotPrefix(r, "&amp;", 2);
    NotPrefix(r, "&lt;", 1);
    NotPrefix(r, "&gt;", 1);
    NotPrefix(r, "&quot;", 1);
    assert r[..6] == "&apos;" && r[6..] == t;
  }

  lemma UnescapePlain(c: char, t: string)
    requires c != '&'
    ensures Unescape([c] + t) == [c] + Unescape(t)
  {
    var r := [c] + t;
    assert r[0] == c;
    NotPrefix(r, "&amp;", 0);
    NotPrefix(r, "&lt;", 0);
    NotPrefix(r, "&gt;", 0);
    NotPrefix(r, "&quot;", 0);
    NotPrefix(r, "&apos;", 0);
    assert r[1..] == t;
  }

  /** Reading back a character's escape yields the character. */
  lemma UnescapeCons(c: char, t: string)
    ensures Unescape(EscapeChar(c) + t) == [c] + Unescape(t)
  {
    match c
    case '&' => UnescapeAmp(t);
    case '<' => UnescapeLt(t);
    case '>' => UnescapeGt(t);
    case '"' => UnescapeQuot(t);
    case '\'' => UnescapeApos(t);
    case _ => UnescapePlain(c, t);
  }

  lemma {:induction false} UnescapeEach(s: string)
    ensures Unescape(EscapeEach(s)) == s
  {
    if s != [] {
      UnescapeEach(s[1..]);
      UnescapeCons(s[0], EscapeEach(s[1..]));
      assert s == [s[0]] + s[1..];
    }
  }

  // ---------------------------------------------------------------------
  // Items
  // ---------------------------------------------------------------------

  /** The values one `<item>` carries; dates stay timestamps
      (`toUTCString` is not modelled). */
  datatype Item = Item(title: string, link: string, guid: string, pubDate: int, lastBuildDate: int,
                       description: string, content: string, categories: seq<string>)

  /** `escapeXml(post.content.substring(0, 300))` followed by `...` */
  function Description(content: string): string {
    EscapeXml(Take(content, 300)) + "..."
  }

  /** One `<category>` per comma-separated piece, each trimmed and escaped. */
  function CategoriesOf(pieces: seq<string>): (cs: seq<string>)
    ensures |cs| == |pieces|
    ensures forall i :: 0 <= i < |pieces| ==> cs[i] == EscapeXml(Trim(pieces[i]))
  {
    if pieces == [] then [] else [EscapeXml(Trim(pieces[0]))] + CategoriesOf(pieces[1..])
  }

  /** `post.tags ? post.tags.split(',').map(...) : ''` */
  function Categories(tags: string): seq<string> {
    if tags == "" then [] else CategoriesOf(Split(tags, ','))
  }

  function PostUrl(baseUrl: string, slug: string): string {
    baseUrl + "/posts/" + slug
  }

  function BuildItem(baseUrl: string, post: Post): Item {
    Item(EscapeXml(post.title), PostUrl(baseUrl, post.slug), PostUrl(baseUrl, post.slug),
         post.createdAt, post.updatedAt, Description(post.content), post.content, Categories(post.tags))
  }

  /** What each item states about its post: link and guid are the same post
      URL, the description is the escaped first 300 characters plus an
      ellipsis, and the categories follow the comma-separated tags in order,
      one per piece, none for empty tags. */
  lemma ItemFields(baseUrl: string, post: Post)
    ensures var it := BuildItem(baseUrl, post);
      && it.link == it.guid == baseUrl + "/posts/" + post.slug
      && it.description == EscapeXml(post.content[..if |post.content| < 300 then |post.content| else 300]) + "..."
      && (post.tags == "" <==> it.categories == [])
      && (post.tags != "" ==> |it.categories| == CountChar(post.tags, ',') + 1)
      && (post.tags != "" ==> forall i :: 0 <= i < |it.categories| ==>
            it.categories[i] == EscapeXml(Trim(Split(post.tags, ',')[i])))
  {
    if post.tags != "" {
      SplitCount(post.tags, ',');
    }
  }

  /** The feed: at most 20 published posts, newest first. */
  function FeedPosts(table: seq<Post>): seq<Post> {
    NewestPublished(table, 0, 20)
  }

  function Items(baseUrl: string, ps: seq<Post>): (items: seq<Item>)
    ensures |items| == |ps|
    ensures forall i :: 0 <= i < |ps| ==> items[i] == BuildItem(baseUrl, ps[i])
  {
    if ps == [] then [] else [BuildItem(baseUrl, ps[0])] + Items(baseUrl, ps[1..])
  }

  function Feed(table: seq<Post>, baseUrl: string): seq<Item> {
    Items(baseUrl, FeedPosts(table))
  }

  /** The feed has at most 20 items, one per published post in newest-first
      order, and leaves out only posts no newer than all it includes. */
  lemma FeedSelection(table: seq<Post>, baseUrl: string)
    ensures var ps := FeedPosts(table);
      && |Feed(table, baseUrl)| == |ps| <= 20
      && NewestFirst(ps)
      && (forall i :: 0 <= i < |ps| ==> ps[i].published && ps[i] in table)
      && forall q :: q in table && q.published && q !in ps ==>
           |ps| == 20 && forall i :: 0 <= i < |ps| ==> ps[i].createdAt >= q.createdAt
  {
    NewestPublishedTop(table, 20);
  }
}
