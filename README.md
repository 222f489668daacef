# Blog website: a verified model of its login limiter and content logic

This project is a Dafny model of the server and client logic of a Next.js blog with one admin.
The admin signs in with e-mail and password and then writes, edits and deletes Markdown posts.
Visitors read published posts on the home page, in the archive and in an RSS feed.

## What is modelled

- **Login rate limiter** (`src/lib/rate-limit.ts`), in `rate_limit.dfy`.
  - The `rateLimit` table is a map from key to a record holding a count and an absolute expiry.
  - `checkRateLimit` appears twice:
    - as a pure transition `RateLimit.Check`;
    - as the method `RateLimiter.CheckRateLimit`, which updates the store field and is proved equal to that transition.
  - Lemmas cover each of the four paths:
    - create;
    - reset of an expired record;
    - increment;
    - denial with exponential backoff, capped at 32 times the window.
  - Further lemmas state:
    - exactly when a call is denied;
    - what the opportunistic sweep may delete;
    - that the sweep never changes the decision;
    - the quota (a fresh key gets `limit` allowed calls, and the next one is denied);
    - the remaining time `getRateLimitInfo` reports.
- **Credentials sign-in** (`authorize` and the `jwt`/`session` callbacks in `src/auth.config.ts`), in `auth.dfy`.
  - The limiter is charged before the user lookup.
  - A denial throws a message whose minute count is proved to be 20, 40, 80, 160 or 320 at the moment of denial.
  - Every attempt that gets past the limiter runs exactly one password comparison. It uses a dummy hash when the e-mail is unknown.
  - An unknown e-mail and a wrong password give the same result.
- **Helpers shared by the modules** (`posts.dfy`, `strings.dfy`).
  - `posts.dfy` models the post table's one query shape: published posts, newest first, then skip and take.
  - `strings.dfy` models the JavaScript string operations used: `toLowerCase` on ASCII, `includes`, `trim`, `split`, `replace`, number formatting.
- **RSS feed** (`src/app/feed.xml/route.ts`), in `feed.dfy`.
  - `escapeXml` is proved to:
    - work character by character;
    - remove all markup characters;
    - start every `&` an entity;
    - leave plain text alone;
    - have an inverse.
  - The feed is at most 20 items, one per newest published post.
- **Post editor helpers** (`generateSlug` and `insertText` of `src/components/PostForm.tsx`), in `post_form.dfy`.
  - A generated slug uses only `[a-z0-9-]`, has no doubled hyphen and no hyphen at either end.
  - Generating a slug is idempotent.
  - Markdown insertion wraps the selection and moves it by the length of the inserted prefix.
- **Server actions** (`src/app/actions.ts`), in `actions.dfy`.
  - The zod `PostSchema`, with its first issue in declaration order.
  - The mapping from thrown errors to messages.
  - `fetchPosts` pagination: consecutive pages tile the list.
  - Create, update and delete over a post table held by the class `PostTable`.
    - Each is proved to succeed exactly under its stated conditions.
    - Each keeps rows under their own id and slugs unique.
  - `changePassword`, over the class `AdminTable`.
- **Home page data** (`getHomePageData` of `src/app/page.tsx`), in `home.dfy`.
  - The featured post is the newest published post tagged "featured", ignoring case.
  - It is always the first topic.
  - The other topics are the first remaining recent posts, at most three topics in all.
- **Searchable select** (`src/components/SearchableSelect.tsx`), in `searchable_select.dfy`.
  - The component is a class whose methods are its event handlers.
  - Keyboard navigation, selection, click-outside and the server search each state their whole new state.
- **Post list** (`src/components/PostList.tsx`), in `post_list.dfy`.
  - The infinite-scroll pager as two steps: start a load, finish a load.
  - Invariant: the loaded posts are always a gap-free prefix of the newest published posts.
  - The tag pills of a card and its entry-animation delay class.
- **Settings page** (`handleSubmit` of `src/app/admin/settings/page.tsx`), in `settings.dfy`.
  - The client checks and their order, plus a lemma connecting them to the server's checks.
  - The toasts and the `loading` flag.
- **Seeding** (`prisma/seed.ts`), in `seed.dfy`.
  - The admin credential gate.
  - The admin upsert.
  - The post upserts, proved idempotent: seeding twice leaves the same table as seeding once.
- **Request middleware** (`src/middleware.ts`), in `middleware.dfy`.
  - Old post slugs redirect permanently to the current slug.
  - `/admin` paths without a token go to sign-in.

## How the model treats the environment

Time, randomness, the database and cryptography become parameters of the model:

- **Time**: `now`, in integer milliseconds.
- **Randomness**: the sweep's random draw is the parameter `sweep`.
- **Database rows**: generated ids are parameters. The tables are maps or sequences.
- **bcrypt**: `compare` is a function parameter. A new hash is a plain parameter.
- **A session**: modelled as the e-mail it carries.

Behaviour worth noting, which the model follows as written:

- **Rate-limit key** (`src/auth.config.ts:22`): the key is the submitted e-mail as typed, with no normalisation, so e-mails that differ only in case are counted separately.
- **Zero remaining seconds** (`src/lib/rate-limit.ts:85-87`): `getRateLimitInfo` returns `0`, not `null`, when a record expires exactly at the instant it is read. Its doc comment at `src/lib/rate-limit.ts:75` says `null` if not rate limited. `authorize` then falls back to "10 minutes", because `0` is falsy (`src/auth.config.ts:25`).
- **Highlight range** (`src/components/SearchableSelect.tsx:112-114`, `:123-154`): the highlight is reset only when the search text changes.
  - A server answer that shrinks the list leaves the highlight where it was, so the highlight is not always a valid index.
  - The model proves the range only for the arrow keys. `Enter` re-checks the range before selecting.
- **Dummy hash** (`src/auth.config.ts:33-34`): the dummy hash is 38 characters long, not the 60 of a bcrypt hash. bcryptjs's `compare` answers `false` for a hash of the wrong length without hashing. So an unknown e-mail may be answered faster than a known one, despite the comment's intent. Timing is not part of this model; `Auth.Authorize` only states that one comparison is made.
- **Empty slug message** (`src/app/actions.ts:14`): zod runs the slug checks in declaration order, so an empty slug reports the pattern message, not "Slug is required" (`Actions.EmptySlugMessage`).
- **Infinite scroll** (`src/components/PostList.tsx:33-37`): no caller in this repository passes `enableInfiniteScroll`. The pager is still modelled as written.

## Model

| member | source | states |
|---|---|---|
| RateLimit.BackoffMultiplier | src/lib/rate-limit.ts:34-35 | the window multiplier of a denied attempt is 2, 4, 8, 16 or 32, and it is 32 exactly from the fifth over-quota attempt on |
| RateLimit.BackoffDoubles | src/lib/rate-limit.ts:34-35 | each further over-quota attempt doubles the multiplier until it reaches the cap of 32 |
| RateLimit.Check | src/lib/rate-limit.ts:10-70 | the transition of one call on the store; its four paths are stated by `CreateTransition`, `ResetForgetsHistory`, `IncrementTransition` and `DenyTransition` |
| RateLimit.Sweep | src/lib/rate-limit.ts:64-66 | the cleanup keeps exactly the records whose expiry is not strictly before `now`, unchanged |
| RateLimit.MaybeSweep | src/lib/rate-limit.ts:61-67 | the sweep applied when the random draw falls under 10% (`Math.random() < 0.1`); its effect is stated by `SweepIsBestEffort` and `SweepDeletesOnlyExpired` |
| RateLimit.CreateTransition | src/lib/rate-limit.ts:54-58 | a key without a record is allowed and gets count 1 and a full window; without a sweep no other key changes |
| RateLimit.ResetForgetsHistory | src/lib/rate-limit.ts:20-28 | an expired record is replaced by a fresh one and the call allowed, whatever its old count; the sweep does not run on this path |
| RateLimit.IncrementTransition | src/lib/rate-limit.ts:49-53 | a live record under the limit (including one expiring at `now`) is allowed, counted and keeps its expiry |
| RateLimit.DenyTransition | src/lib/rate-limit.ts:30-47 | a live record at or over the limit is denied, counted, and its expiry set to `now + window * multiplier`; no other key changes |
| RateLimit.DeniedIff | src/lib/rate-limit.ts:10-70 | a call is denied if and only if the key has a live record at or over the limit |
| RateLimit.SweepIsBestEffort | src/lib/rate-limit.ts:61-69 | the sweep never changes the decision, runs only on the create and increment paths, and there removes exactly the expired records |
| RateLimit.SweepDeletesOnlyExpired | src/lib/rate-limit.ts:64-66 | a record is removed by the sweep if and only if it is expired, and kept records are unchanged |
| RateLimit.CheckKeepsCountsPositive | src/lib/rate-limit.ts:10-70 | every stored record keeps a count of at least one |
| RateLimit.LiveCountIncreases | src/lib/rate-limit.ts:31-53 | while a record lives every call raises its count by exactly one |
| RateLimit.CeilDiv | src/lib/rate-limit.ts:87 | `Math.ceil(a / b)`: the least quotient whose multiple covers `a` |
| RateLimit.RemainingSeconds | src/lib/rate-limit.ts:77-88 | no value exactly for an absent or expired key; otherwise the remaining milliseconds rounded up to whole seconds, zero only when the expiry is `now` |
| RateLimit.RemainingAfterDenial | src/lib/rate-limit.ts:30-47 | read at the instant of a denial, the remaining time is exactly `window * multiplier` seconds, between 2 and 32 windows |
| RateLimit.LiveRunQuota | src/lib/rate-limit.ts:31-53 | a live record at count `c` allows exactly `limit - c` more calls at one instant and denies the next one |
| RateLimit.FreshKeyQuota | src/lib/rate-limit.ts:10-70 | a fresh key gets exactly `limit` allowed calls at one instant, then a denial, however the sweep draws fall |
| RateLimit.RateLimiter.CheckRateLimit | src/lib/rate-limit.ts:10-70 | the method's new store and answer are those of the transition `Check` |
| RateLimit.RateLimiter.GetRateLimitInfo | src/lib/rate-limit.ts:77-88 | reads the store only; no value for an absent or expired key, otherwise the seconds left rounded up |
| Auth.ThrottleMinutes | src/auth.config.ts:25 | a missing or zero remaining time gives 10 minutes; otherwise the remaining seconds rounded up to whole minutes |
| Auth.ThrottleMessage | src/auth.config.ts:26 | the thrown message starts with the fixed "Too many login attempts" prefix |
| Auth.ThrottleMessageWording | src/auth.config.ts:26 | the message says "minutes" exactly when the count is above one, ends with a period, and its digits spell the count |
| Auth.MinutesAtDenial | src/auth.config.ts:22-26 | at the instant of a denial the message names ten times the backoff multiplier: 20, 40, 80, 160 or 320 minutes |
| Auth.HashToCompare | src/auth.config.ts:34 | the stored hash when the admin exists with a non-empty hash; the dummy hash for an unknown e-mail and for an admin whose stored hash is empty |
| Auth.LoginResult | src/auth.config.ts:40-48 | the login result of a non-throttled attempt given bcrypt's verdict; its properties are those of `LoginResultReveals` |
| Auth.LoginResultReveals | src/auth.config.ts:29-48 | an unknown e-mail and a rejected password both give `null`; a user is returned exactly for a known e-mail with an accepted password, as `{id, email, name: 'Admin'}` |
| Auth.Authorize | src/auth.config.ts:16-49 | missing fields give `null` without touching the limiter; otherwise the limiter is charged first; a denial throws the minutes message without comparing; an allowed attempt compares exactly once and returns the login result |
| Auth.JwtCallback | src/auth.config.ts:67-72 | a signed-in user's e-mail is copied into the token; otherwise the token is unchanged |
| Auth.SessionCallback | src/auth.config.ts:60-66 | with a token and a session user, the session's id and e-mail come from the token and the name is kept; otherwise the session is unchanged |
| Auth.SignInReachesSession | src/auth.config.ts:59-73 | after sign-in, the session carries the signed-in identity's id and e-mail |
| Strings.Lower | src/components/PostForm.tsx:22 | lower-casing keeps the length and maps each character by the ASCII rule |
| Strings.Trim | src/components/PostList.tsx:190 | the trimmed text is the input with a whitespace prefix and a whitespace suffix removed, and it has no whitespace at either end, so these are the longest such prefix and suffix |
| Strings.TrimIsPart | src/components/PostList.tsx:190 | the trimmed text occurs inside the original |
| Strings.TrimEmptyIff | src/components/PostList.tsx:189 | trimming leaves nothing exactly when the text is all whitespace |
| Strings.Split | src/app/feed.xml/route.ts:38 | splitting yields at least one piece and no piece contains the separator |
| Strings.JoinSplit | src/app/feed.xml/route.ts:38 | joining the pieces with the separator gives back the original text |
| Strings.SplitCount | src/app/feed.xml/route.ts:38 | there is one more piece than separators |
| Strings.ReplaceAllAppend | src/app/feed.xml/route.ts:76-81 | a global single-character replacement distributes over concatenation |
| Strings.ReplaceFirstAt | src/middleware.ts:11 | a string-pattern `replace` substitutes exactly the first occurrence |
| Strings.ReplaceFirstAbsent | src/middleware.ts:11 | without an occurrence `replace` returns the string unchanged |
| Strings.NatToStringValue | src/auth.config.ts:26 | the decimal rendering of a number reads back as that number |
| Posts.Published | src/app/actions.ts:144 | exactly the published rows are kept |
| Posts.ByNewest | src/app/actions.ts:145 | ordering by creation time descending is a permutation of the rows |
| Posts.TiesReversed | src/app/actions.ts:145 | two rows with the same creation time come out in reverse table order |
| Posts.ByNewestSorted | src/app/actions.ts:145 | the ordered rows list newer rows first |
| Posts.InsertSorted | src/app/actions.ts:145 | inserting a row into a newest-first list keeps it newest first |
| Posts.SortedPublished | src/app/actions.ts:143-145 | the ordered published rows are exactly the table's published rows, newest first |
| Posts.NewestPublishedRows | src/app/actions.ts:143-148 | any page of the query has at most `take` rows, all published rows of the table, newest first |
| Posts.NewestPublishedTop | src/app/feed.xml/route.ts:6-22 | the first page has as many rows as asked for when there are enough, and leaves out no published row newer than one it includes |
| Feed.EscapeXml | src/app/feed.xml/route.ts:75-82 | the five chained global replacements, `&` first; its properties follow in the rows below |
| Feed.EscapeXmlIsPerChar | src/app/feed.xml/route.ts:75-82 | the five chained replacements escape each character independently, `&` first so no entity is escaped twice |
| Feed.EscapeXmlAppend | src/app/feed.xml/route.ts:75-82 | escaping distributes over concatenation |
| Feed.EscapedHasNoMarkup | src/app/feed.xml/route.ts:75-82 | escaped text contains no `<`, `>`, `"` or `'` |
| Feed.AmpersandsStartEntities | src/app/feed.xml/route.ts:75-82 | every `&` of escaped text starts one of the five entities |
| Feed.EscapePlainIsIdentity | src/app/feed.xml/route.ts:75-82 | text without special characters is left unchanged |
| Feed.EscapeNeverShortens | src/app/feed.xml/route.ts:75-82 | escaping never shortens text, and keeps its length exactly when there is nothing to escape |
| Feed.UnescapeEscape | src/app/feed.xml/route.ts:75-82 | decoding the five entities recovers the original text |
| Feed.CategoriesOf | src/app/feed.xml/route.ts:36-41 | one category per comma-separated piece, trimmed then escaped, in order |
| Feed.ItemFields | src/app/feed.xml/route.ts:26-45 | link and guid are the same post URL; the description is the escaped first 300 characters plus `...`; the categories follow the tags, none for empty tags |
| Feed.Items | src/app/feed.xml/route.ts:24-47 | one item per post, in order |
| Feed.FeedSelection | src/app/feed.xml/route.ts:6-22 | at most 20 items, one per published post in newest-first order, leaving out only posts no newer than all included |
| Feed.Description | src/app/feed.xml/route.ts:33 | the escaped first 300 characters of the content followed by `...`, as `ItemFields` states |
| Feed.Categories | src/app/feed.xml/route.ts:35-42 | no category for empty tags, otherwise one per comma-separated piece, as `CategoriesOf` states |
| Feed.BuildItem | src/app/feed.xml/route.ts:26-45 | the fields of one item, as `ItemFields` states |
| Feed.FeedPosts | src/app/feed.xml/route.ts:6-22 | the query for the feed's posts, as `FeedSelection` states |
| Feed.Feed | src/app/feed.xml/route.ts:6-47 | one item per selected post, in order, as `Items` and `FeedSelection` state |
| PostForm.CollapseRuns | src/components/PostForm.tsx:23 | `.replace(/[^a-z0-9]+/g, '-')`; the lemmas below state what it does |
| PostForm.CollapseShape | src/components/PostForm.tsx:23 | the result uses only `[a-z0-9-]`, has no doubled hyphen, is empty only for empty input and starts with the input's first character or the hyphen its run became |
| PostForm.CollapseKeepsSlugChars | src/components/PostForm.tsx:23 | the result's `[a-z0-9]` characters are exactly the input's, in order, and its other characters are all hyphens: dropping the hyphens leaves the input's `[a-z0-9]` characters |
| PostForm.CollapseRun | src/components/PostForm.tsx:23 | a nonempty run of characters outside `[a-z0-9]` becomes one hyphen |
| PostForm.CollapseSplitsAtSlugChar | src/components/PostForm.tsx:23 | an `[a-z0-9]` character is kept and ends the run before it, so collapsing works separately on either side of it; with `CollapseRun` this fixes the result for every input |
| PostForm.StripEdgesKeeps | src/components/PostForm.tsx:24 | removing the edge hyphens leaves no hyphen at either end and keeps the other properties |
| PostForm.StripEdges | src/components/PostForm.tsx:24 | `.replace(/(^-|-$)+/g, '')` on collapsed text: one hyphen off each end, as `StripEdgesKeeps` states |
| PostForm.GenerateSlug | src/components/PostForm.tsx:21-24 | lower-case, collapse the runs, strip the edge hyphens; its properties are those of `GeneratedSlugShape`, `CanonicalIsFixed` and `GenerateSlugIdempotent` |
| PostForm.GeneratedSlugShape | src/components/PostForm.tsx:21-24 | a generated slug is empty or canonical: slug alphabet, no doubled hyphen, no edge hyphen |
| PostForm.CollapseCanonical | src/components/PostForm.tsx:23 | collapsing leaves text already in slug form unchanged |
| PostForm.LowerOfSlugAlphabet | src/components/PostForm.tsx:22 | lower-casing leaves slug-alphabet text unchanged |
| PostForm.CanonicalIsFixed | src/components/PostForm.tsx:21-24 | a canonical slug generates itself |
| PostForm.GenerateSlugIdempotent | src/components/PostForm.tsx:21-24 | generating a slug from a generated slug gives it back |
| PostForm.SlugAfterTitleChange | src/components/PostForm.tsx:18-27 | when editing an existing post the slug is kept; when creating, it becomes `GenerateSlug(title)`, which is empty or canonical |
| PostForm.Substring | src/components/PostForm.tsx:52 | `substring` with in-range ordered bounds is the slice between them |
| PostForm.InsertText | src/components/PostForm.tsx:52-58 | the spliced text and the selection afterwards, as `InsertTextWraps` states |
| PostForm.InsertTextWraps | src/components/PostForm.tsx:45-60 | the new text is prefix, `before`, the selection, `after`, suffix; the selection moves by the length of `before` and still covers the same text |
| Actions.Issues | src/app/actions.ts:12-19 | the issues of all fields in schema order, as `IssuesEmptyIff` and `FirstIssueOrder` state |
| Actions.ValidPost | src/app/actions.ts:12-19 | the five field constraints of `PostSchema` stated directly |
| Actions.FailedChecks | src/app/actions.ts:12-19 | no messages exactly when every check passes; the first message is that of the first failing check |
| Actions.IssuesEmptyIff | src/app/actions.ts:12-19 | the form has no issues exactly when every field meets its declared constraints |
| Actions.FirstIssueOrder | src/app/actions.ts:12-19 | the first issue belongs to the first field, in the order title, slug, excerpt, content, tags, that has one |
| Actions.EmptySlugMessage | src/app/actions.ts:14 | an empty slug reports the pattern message, since the pattern is checked before the minimum length |
| Actions.GeneratedSlugAccepted | src/app/actions.ts:14 | a non-empty generated slug of at most 100 characters passes all slug checks |
| Actions.DecodePublished | src/app/actions.ts:51 | published exactly when the form value is `on` or `true` |
| Actions.ParsePost | src/app/actions.ts:45-54 | parsing succeeds exactly for a valid form and then returns its fields; otherwise it returns the non-empty issue list |
| Actions.SaveFailure | src/app/actions.ts:64-77 | never a success; a validation error gives its first issue, or no message when it has none; P2002 gives the duplicate-slug message; another known-request error, like any other error, gives the unauthorized message when its message is "Unauthorized" and the fallback otherwise; a thrown non-error gives the fallback |
| Actions.Offset | src/app/actions.ts:147 | the offset is non-negative from page 1 on and negative before it for a positive limit |
| Actions.OffsetIsProduct | src/app/actions.ts:147 | the offset equals `(page - 1) * limit` |
| Actions.OffsetNext | src/app/actions.ts:147 | each page starts `limit` rows after the previous one |
| Actions.FetchPosts | src/app/actions.ts:141-153 | a query error or a negative offset gives an empty list; otherwise the page at that offset |
| Actions.FetchPostsRows | src/app/actions.ts:141-153 | whatever happens, at most `limit` published rows of the table, newest first |
| Actions.ConsecutivePages | src/app/actions.ts:141-153 | pages `p` and `p + 1` together are the `2 * limit` posts starting at page `p`: nothing skipped or repeated |
| Actions.MutationsRequireSession | src/app/actions.ts:26-31 | without a signed-in e-mail every mutation fails with the unauthorized message and changes nothing |
| Actions.CreateSpec | src/app/actions.ts:41-78 | `createPost` on the table, as `CreateIff` and `CreateKeepsTableValid` state |
| Actions.UpdateSpec | src/app/actions.ts:80-121 | `updatePost` on the table, as `UpdateIff` and `UpdateKeepsTableValid` state |
| Actions.DeleteSpec | src/app/actions.ts:124-138 | `deletePost` on the table, as `DeleteKeepsTableValid` and `MutationsRequireSession` state |
| Actions.ChangePasswordSpec | src/app/actions.ts:156-205 | `changePassword` on the admin table, as `ChangePasswordOrder` states |
| Actions.CreateIff | src/app/actions.ts:41-78 | a create succeeds exactly when signed in, the form is valid and neither the id nor the slug is taken; then exactly one row is added, otherwise nothing changes |
| Actions.UpdateIff | src/app/actions.ts:80-121 | an update succeeds exactly when signed in, the form is valid, the row exists and the slug is free; then only that row changes and it keeps its creation time |
| Actions.CreateKeepsTableValid | src/app/actions.ts:56-58 | a create keeps every row under its own id and keeps slugs unique |
| Actions.UpdateKeepsTableValid | src/app/actions.ts:97-100 | an update keeps every row under its own id and keeps slugs unique |
| Actions.DeleteKeepsTableValid | src/app/actions.ts:124-138 | a delete keeps every row under its own id and keeps slugs unique |
| Actions.PostTable.CreatePost | src/app/actions.ts:41-78 | the new table and result are those of `CreateSpec` |
| Actions.PostTable.UpdatePost | src/app/actions.ts:80-121 | the new table and result are those of `UpdateSpec` |
| Actions.PostTable.DeletePost | src/app/actions.ts:124-138 | the new table and result are those of `DeleteSpec` |
| Actions.ChangePasswordOrder | src/app/actions.ts:156-205 | the checks run in a fixed order (session, both fields, length, reuse, admin lookup, current password), each failure with its own message; success, with its message, exactly when all pass; only then the admin's hash changes, keeping its id and every other admin |
| Actions.AdminTable.ChangePassword | src/app/actions.ts:156-205 | the new table and result are those of `ChangePasswordSpec` |
| Home.FeaturedPost | src/app/page.tsx:21-30 | the featured-post query, as `FeaturedPostIsNewest` states |
| Home.FirstFeatured | src/app/page.tsx:21-30 | the first featured post of the list, or none exactly when no post is featured |
| Home.FeaturedPostIsNewest | src/app/page.tsx:21-30 | the featured post is a published featured row at least as new as every other one; none only when no published row is featured |
| Home.Exclude | src/app/page.tsx:52 | removes exactly the posts with the featured id, nothing when there is no featured post |
| Home.MapTopics | src/app/page.tsx:54-58 | one topic per post, its title and `/posts/<slug>` link |
| Home.TopicPosts | src/app/page.tsx:39-59 | the posts behind the topics, as `TopicPostsShape` states |
| Home.TopicPostsShape | src/app/page.tsx:39-59 | at most three topics; the featured post first; after it only other posts, the leading ones of the filtered recent list in order |
| Home.BuildFeaturedTopics | src/app/page.tsx:40-59 | the loop builds the topics of `TopicPosts`: at most three, the featured one first |
| Home.GetHomePageData | src/app/page.tsx:18-66 | a query error gives empty data; otherwise the six newest published posts and their topics |
| Select.FindByValue | src/components/SearchableSelect.tsx:41 | the first option with the value, or none exactly when no option has it |
| Select.SelectedOption | src/components/SearchableSelect.tsx:40-41 | the option with the value, looked up in the given options first and then in the search results |
| Select.FilterByLabel | src/components/SearchableSelect.tsx:47 | exactly the options whose label contains the search, ignoring case |
| Select.FilterByLabelAppend | src/components/SearchableSelect.tsx:45-47 | filtering distributes over concatenation, so the kept options stay in their order |
| Select.FilterByLabelSingle | src/components/SearchableSelect.tsx:47 | one option is kept exactly when its label contains the search |
| Select.FilterAllMatch | src/components/SearchableSelect.tsx:47 | when every option matches, filtering keeps the list as is |
| Select.EmptySearchKeepsAll | src/components/SearchableSelect.tsx:47 | an empty search keeps every option |
| Select.OptionSource | src/components/SearchableSelect.tsx:44 | the search results with a server search and a non-empty search box, otherwise the given options |
| Select.FilteredOptions | src/components/SearchableSelect.tsx:45-47 | a server search lists its source unfiltered; otherwise it is `FilterByLabel` of the given options, in their order |
| Select.LocalFilterSound | src/components/SearchableSelect.tsx:45-47 | without a server search every listed option is a given one whose label contains the search |
| Select.SearchableSelect.constructor | src/components/SearchableSelect.tsx:30-34 | closed, empty search, no highlight, no results |
| Select.SearchableSelect.SetSearch | src/components/SearchableSelect.tsx:112-114 | the highlight is cleared exactly when the search text changes |
| Select.SearchableSelect.HandleSelect | src/components/SearchableSelect.tsx:116-121 | reports the value to the parent, closes, clears the search and the results |
| Select.SearchableSelect.HandleClickOutside | src/components/SearchableSelect.tsx:94-100 | closes and clears the search and the results |
| Select.SearchableSelect.ToggleOpen | src/components/SearchableSelect.tsx:173 | flips open and closed, nothing else |
| Select.SearchableSelect.HandleKeyDown | src/components/SearchableSelect.tsx:123-154 | closed: Enter, space or ArrowDown opens; open: Escape closes and clears, the arrows move the highlight within the list, Enter selects a highlighted option; the arrows keep the highlight in range |
| Select.SearchableSelect.PerformSearch | src/components/SearchableSelect.tsx:50-72 | no server search: nothing; a blank term clears the results without a call; otherwise the answer, or nothing after an error, and `isSearching` cleared |
| PostList.Initial | src/components/PostList.tsx:27-37 | page 1, not loading, more to load exactly when infinite scroll is on and the first page is full |
| PostList.Start | src/components/PostList.tsx:44-46 | a load starts exactly when visible, more may exist and none runs, asking for the next page |
| PostList.Finish | src/components/PostList.tsx:47-62 | loading is cleared; a short page ends pagination; a non-empty page is appended and counted; an error changes nothing else |
| PostList.InitialConsistent | src/components/PostList.tsx:27-37 | starting from the first page of the query the state is consistent |
| PostList.StartConsistent | src/components/PostList.tsx:44-46 | starting a load keeps the state consistent |
| PostList.FinishConsistent | src/components/PostList.tsx:47-62 | finishing with `fetchPosts(page + 1, 12)` or an error keeps the loaded posts a gap-free, duplicate-free prefix of the newest published posts |
| PostList.NonBlank | src/components/PostList.tsx:189 | keeps no piece that is all whitespace |
| PostList.NonBlankAppend | src/components/PostList.tsx:189 | the filter distributes over concatenation, so the kept pieces stay in their order |
| PostList.NonBlankSingle | src/components/PostList.tsx:189 | one piece is kept exactly when it is not all whitespace |
| PostList.TagPills | src/components/PostList.tsx:187-191 | at most three pills, none for empty tags |
| PostList.TagPillsShape | src/components/PostList.tsx:189-190 | the pills are the first three non-blank pieces, trimmed: none empty, none edged by whitespace, none containing a comma |
| PostList.DelayClass | src/components/PostList.tsx:163 | the first six cards get `hero-delay-1` to `hero-delay-6`, later ones nothing |
| PostList.PostListView.constructor | src/components/PostList.tsx:19-37 | the mounted state is `Initial` and nothing is visible yet |
| PostList.PostListView.OnIntersect | src/components/PostList.tsx:44-46 | state and requested page are those of `Start` |
| PostList.PostListView.OnLoaded | src/components/PostList.tsx:47-62 | the new state is that of `Finish` |
| PostList.PostListView.MarkVisible | src/components/PostList.tsx:79-83 | a non-empty id joins the visible set, an empty one changes nothing; the pager is unchanged |
| PostList.PostListView.ShowsEndOfContent | src/components/PostList.tsx:221 | the end-of-content message shows exactly when there is nothing more to load, no footer and at least one post |
| Settings.ClientCheck | src/app/admin/settings/page.tsx:21-34 | no message exactly when the new password is long enough, confirmed and different; otherwise the first failing check's message |
| Settings.ServerAgreesWithClient | src/app/admin/settings/page.tsx:21-34 | a form passing the client checks is never refused by the server for length or reuse; it succeeds exactly when signed in, the admin exists and the current password matches |
| Settings.MessageOr | src/app/admin/settings/page.tsx:46 | the message when it is non-empty, otherwise the fallback |
| Settings.SettingsForm.Submit | src/app/admin/settings/page.tsx:17-43 | a failed client check shows its message and sends nothing; otherwise loading is set and the two passwords are sent |
| Settings.SettingsForm.Settle | src/app/admin/settings/page.tsx:45-59 | success shows the message and schedules sign-out; a failure or a throw shows an error and clears loading |
| Seed.IsWeak | prisma/seed.ts:25-26 | the lower-cased password contains one of the five weak words, as `CredentialCheck` uses it |
| Seed.CredentialCheck | prisma/seed.ts:7-29 | seeding proceeds exactly with both values set, a password of at least 12 characters and no weak word in it, ignoring case; each failure in its order |
| Seed.UpsertAdmin | prisma/seed.ts:30-39 | the admin with that e-mail has the new hash; an existing admin keeps its id; a new one is created; others are unchanged |
| Seed.Slugs | prisma/seed.ts:261-267 | the slugs of the seeded posts |
| Seed.LastWith | prisma/seed.ts:261-267 | the last seeded post with the slug, absent exactly when no seeded post has it |
| Seed.UpsertPost | prisma/seed.ts:262-266 | one upsert by slug: the row with that slug is updated in place, or a new row is created |
| Seed.UpsertPosts | prisma/seed.ts:261-267 | the upserts in order, as `UpsertPostsAt` and `SeedIdempotent` state |
| Seed.UpsertPostsAt | prisma/seed.ts:261-267 | after the upserts the slugs are the old and the seeded ones; a seeded slug holds its last data under its old id or a new one; others are untouched |
| Seed.SeedIdempotent | prisma/seed.ts:261-267 | seeding the same posts twice leaves the table as seeding once |
| Seed.Database.SeedPosts | prisma/seed.ts:261-267 | the loop leaves the table of `UpsertPosts` and does not touch the admins |
| Seed.Database.Run | prisma/seed.ts:6-267 | a failed check exits before any write; otherwise the admin upsert and then the post upserts |
| Middleware.PostsSlug | src/middleware.ts:10-11 | under `/posts/` the slug is everything after the prefix |
| Middleware.PrefixesDisjoint | src/middleware.ts:10-33 | no path is under both `/posts/` and `/admin` |
| Middleware.Route | src/middleware.ts:6-52 | a redirect exactly for an old slug whose post exists, to that post's current slug; sign-in exactly for an `/admin` path without a token; otherwise the request passes |
| Middleware.RedirectSettles | src/middleware.ts:9-28 | when the current slug is not itself an old slug, a redirected request passes through |

## Left out

- Database access: I/O, concurrency between requests and Prisma's generated ids are not modelled. Tables are maps or sequences, and a Prisma operation is one atomic step.
- RateLimit.RateLimiter.CheckRateLimit: the sweep runs in the background without being awaited in the source. The model applies it at once. A failed sweep is not modelled; it is silently ignored in the source.
- RateLimit: `Math.random` becomes the `sweep` parameter. The clock becomes `now`, and `authorize` reads it a second time as `infoNow`.
- RateLimit: JavaScript numbers are modelled as unbounded integers. The expiry arithmetic could lose precision for windows beyond 2^53 milliseconds, and that is not modelled.
- Auth: bcrypt's `compare` and `hash` are parameters, and their cost and timing are not modelled. Next-auth's own handling of `authorize` results, thrown errors and the `sub` claim is not modelled.
- Strings.Lower: only ASCII letters are lower-cased. JavaScript also maps other characters to ASCII, such as the Kelvin sign to `k`. Prisma's case-insensitive `contains` is approximated the same way.
- Strings.Trim: the whitespace set is ASCII whitespace plus no-break space and the byte order mark, not all of Unicode's.
- Strings: text is a sequence of characters. JavaScript's lengths and `substring` count UTF-16 code units, and that difference is not modelled.
- Feed: the XML text around the items is not modelled. That covers the channel header, `toUTCString` date formatting, the CDATA section and the fixed author line. Dates stay timestamps.
- Posts.ByNewest: rows with equal creation time come out in reverse table order (`Posts.TiesReversed`). The database fixes no order for ties, so this is one of the orders it may return.
- PostForm: `router.push`, toasts, the preview tab, `setTimeout` and focus are not modelled. `handleAction` is not modelled; it only forwards to the server actions.
- Actions: `revalidatePath` calls are not modelled, and neither is `authenticate`, which only returns a fixed string.
- Actions: with no Prisma schema available, the following are modelled as stated:
  - create stamps both timestamps with `now`;
  - update refreshes `updatedAt`;
  - an update with a missing id fails with the generic message.
- Actions.FetchPosts: `limit` is a natural number; a negative `take` is not modelled.
- Actions: an admin is looked up by the session's e-mail and updated by its id. The two are the same row because the table is keyed by e-mail.
- Select: what is left out:
  - the JSX rendering, focus and scrolling effects;
  - the debounce timer (`performSearch` is modelled as called with the current search);
  - the race between overlapping searches.
- PostList: the grid/list toggle, the header and footer animations and the DOM observers are not modelled. The observers become the calls `OnIntersect` and `MarkVisible`.
- Settings: the browser refuses to submit the form while a field marked `required` is empty or the new password is shorter than `minLength={12}` (`src/app/admin/settings/page.tsx:78`, `:98-99`, `:124`). That check is not modelled. So `SettingsForm.Submit` also covers an empty current password, which the browser never sends.
- Settings: the delayed `signOut` is the flag `signOutScheduled`. The router and the form's input handlers are not modelled.
- Seed: logging, `process.exit` and the disconnect are not modelled. The eight post literals are not modelled: the posts are a parameter.
- Middleware: what is left out:
  - the `matcher` configuration;
  - the query string;
  - `withAuth`'s `callbackUrl` on the sign-in redirect;
  - the token's validity, which is the parameter `hasToken`.
