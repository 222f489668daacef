/** The two string transforms of the post editor, `src/components/PostForm.tsx`:
    slug generation from the title and the markdown toolbar's text splice. */
module PostForm {
  import opened Strings

  /** `[a-z0-9]` */
  predicate IsSlugChar(c: char) {
    'a' <= c <= 'z' || '0' <= c <= '9'
  }

  /** Characters allowed in a slug: `[a-z0-9-]`. */
  predicate SlugAlphabet(s: string) {
    forall i :: 0 <= i < |s| ==> IsSlugChar(s[i]) || s[i] == '-'
  }

  predicate NoDoubleHyphen(s: string) {
    forall i :: 0 <= i < |s| - 1 ==> !(s[i] == '-' && s[i + 1] == '-')
  }

  predicate NoEdgeHyphen(s: string) {
    s == [] || (s[0] != '-' && s[|s| - 1] != '-')
  }

  /** `[a-z0-9]+(-[a-z0-9]+)*`: the form generated slugs take. */
  predicate CanonicalSlug(s: string) {
    s != [] && SlugAlphabet(s) && NoDoubleHyphen(s) && NoEdgeHyphen(s)
  }

  /** Drops the run of characters outside `[a-z0-9]` at the front. */
  function SkipRun(s: string): (r: string)
    ensures |r| <= |s| && forall i :: 0 <= i < |r| ==> r[i] == s[|s| - |r| + i]
    ensures r == [] || IsSlugChar(r[0])
    ensures s != [] && !IsSlugChar(s[0]) ==> |r| < |s|
  {
    if s != [] && !IsSlugChar(s[0]) then SkipRun(s[1..]) else s
  }

  /** `.replace(/[^a-z0-9]+/g, '-')`: every maximal run of characters
      outside `[a-z0-9]` becomes a single `-`. */
  function CollapseRuns(s: string): string
    decreases |s|
  {
    if s == [] then []
    else if IsSlugChar(s[0]) then [s[0]] + CollapseRuns(s[1..])
    else ['-'] + CollapseRuns(SkipRun(s))
  }

  /** What collapsing returns uses only `[a-z0-9-]`, never has two hyphens
      in a row, is empty only for empty input and starts with the first
      character, or with the hyphen its run became. */
  lemma {:induction false} CollapseShape(s: string)
    ensures var r := CollapseRuns(s);
      && SlugAlphabet(r) && NoDoubleHyphen(r)
      && (s == [] <==> r == [])
      && (s != [] ==> r[0] == (if IsSlugChar(s[0]) then s[0] else '-'))
    decreases |s|
  {
    if s == [] {
    } else if IsSlugChar(s[0]) {
      var rest := CollapseRuns(s[1..]);
      CollapseShape(s[1..]);
      assert forall i :: 1 <= i < |rest| + 1 ==> ([s[0]] + rest)[i] == rest[i - 1];
    } else {
      var t := SkipRun(s);
      var rest := CollapseRuns(t);
      CollapseShape(t);
      assert forall i :: 1 <= i < |rest| + 1 ==> (['-'] + rest)[i] == rest[i - 1];
    }
  }

  /** The `[a-z0-9]` characters of `s`, in order. */
  function SlugChars(s: string): string {
    if s == [] then [] else (if IsSlugChar(s[0]) then [s[0]] else []) + SlugChars(s[1..])
  }

  lemma {:induction false} SkipRunSlugChars(s: string)
    ensures SlugChars(SkipRun(s)) == SlugChars(s)
    decreases |s|
  {
    if s != [] && !IsSlugChar(s[0]) {
      SkipRunSlugChars(s[1..]);
    }
  }

  /** Collapsing keeps every `[a-z0-9]` character in order; since what it
      returns is in `[a-z0-9-]`, dropping its hyphens gives exactly those. */
  lemma {:induction false} CollapseKeepsSlugChars(s: string)
    ensures SlugChars(CollapseRuns(s)) == SlugChars(s) && SlugAlphabet(CollapseRuns(s))
    decreases |s|
  {
    CollapseShape(s);
    if s == [] {
    } else if IsSlugChar(s[0]) {
      var rest := CollapseRuns(s[1..]);
      CollapseKeepsSlugChars(s[1..]);
      assert ([s[0]] + rest)[1..] == rest;
    } else {
      var t := SkipRun(s);
      var rest := CollapseRuns(t);
      CollapseKeepsSlugChars(t);
      SkipRunSlugChars(s);
      assert (['-'] + rest)[1..] == rest;
    }
  }

  /** A run of characters outside `[a-z0-9]` is dropped up to the first
      character that ends it. */
  lemma {:induction false} SkipRunStops(u: string, w: string)
    requires w != [] && IsSlugChar(w[0])
    ensures SkipRun(u + w) == SkipRun(u) + w
    decreases |u|
  {
    if u == [] {
      assert u + w == w;
    } else if IsSlugChar(u[0]) {
    } else {
      assert (u + w)[1..] == u[1..] + w;
      SkipRunStops(u[1..], w);
    }
  }

  /** A nonempty run of characters outside `[a-z0-9]` becomes one hyphen. */
  lemma CollapseRun(w: string)
    requires w != [] && forall i :: 0 <= i < |w| ==> !IsSlugChar(w[i])
    ensures CollapseRuns(w) == "-"
  {
  }

  lemma AppendAssoc(a: string, b: string, c: string)
    ensures a + (b + c) == (a + b) + c
  {
  }

  lemma TailOfAppend(u: string, w: string)
    requires u != []
    ensures (u + w)[0] == u[0] && (u + w)[1..] == u[1..] + w
  {
  }

  /** The step of CollapseSplitsAtSlugChar for an input starting with an
      `[a-z0-9]` character, given the split of its tail. */
  lemma CollapseSplitsSlugHead(u: string, w: string)
    requires u != [] && IsSlugChar(u[0])
    ensures CollapseRuns(u + w) == [u[0]] + CollapseRuns(u[1..] + w)
    ensures CollapseRuns(u) == [u[0]] + CollapseRuns(u[1..])
  {
    TailOfAppend(u, w);
  }

  /** The step of CollapseSplitsAtSlugChar for an input starting with a run,
      which stops before `w`. */
  lemma CollapseSplitsOtherHead(u: string, w: string)
    requires u != [] && !IsSlugChar(u[0]) && w != [] && IsSlugChar(w[0])
    ensures CollapseRuns(u + w) == ['-'] + CollapseRuns(SkipRun(u) + w)
    ensures CollapseRuns(u) == ['-'] + CollapseRuns(SkipRun(u))
  {
    TailOfAppend(u, w);
    SkipRunStops(u, w);
  }

  /** An `[a-z0-9]` character ends the run before it and is kept: collapsing
      works separately on each side of it. With CollapseRun this fixes
      CollapseRuns for every input: each maximal run becomes one hyphen and
      every other character stays. */
  lemma {:induction false} CollapseSplitsAtSlugChar(u: string, c: char, v: string)
    requires IsSlugChar(c)
    ensures CollapseRuns(u + ([c] + v)) == CollapseRuns(u) + ([c] + CollapseRuns(v))
    decreases |u|
  {
    var w := [c] + v;
    if u == [] {
      assert u + w == w;
      TailOfAppend([c], v);
    } else {
      var h, t := if IsSlugChar(u[0]) then [u[0]] else ['-'], if IsSlugChar(u[0]) then u[1..] else SkipRun(u);
      if IsSlugChar(u[0]) {
        CollapseSplitsSlugHead(u, w);
      } else {
        CollapseSplitsOtherHead(u, w);
      }
      assert CollapseRuns(u + w) == h + CollapseRuns(t + w) && CollapseRuns(u) == h + CollapseRuns(t);
      CollapseSplitsAtSlugChar(t, c, v);
      AppendAssoc(h, CollapseRuns(t), [c] + CollapseRuns(v));
    }
  }

  /** `.replace(/(^-|-$)+/g, '')`: one hyphen off each end. */
  function StripEdges(s: string): string {
    var t := if s != [] && s[0] == '-' then s[1..] else s;
    if t != [] && t[|t| - 1] == '-' then t[..|t| - 1] else t
  }

  /** `title.toLowerCase().replace(/[^a-z0-9]+/g, '-').replace(/(^-|-$)+/g, '')` */
  function GenerateSlug(title: string): string {
    StripEdges(CollapseRuns(Lower(title)))
  }

  lemma StripEdgesKeeps(s: string)
    requires SlugAlphabet(s) && NoDoubleHyphen(s)
    ensures var r := StripEdges(s); SlugAlphabet(r) && NoDoubleHyphen(r) && NoEdgeHyphen(r)
  {
    var t := if s != [] && s[0] == '-' then s[1..] else s;
    assert SlugAlphabet(t) && NoDoubleHyphen(t);
    assert t != [] ==> t[0] != '-';
    var r := StripEdges(s);
    assert r == if t != [] && t[|t| - 1] == '-' then t[..|t| - 1] else t;
    if t != [] && t[|t| - 1] == '-' && |t| >= 2 {
      assert t[|t| - 2] != '-';
    }
  }

  /** A generated slug uses only `[a-z0-9-]`, never has two hyphens in a row
      and never starts or ends with one: it is canonical or empty. */
  lemma GeneratedSlugShape(title: string)
    ensures var r := GenerateSlug(title);
      SlugAlphabet(r) && NoDoubleHyphen(r) && NoEdgeHyphen(r)
      && (r == [] || CanonicalSlug(r))
  {
    CollapseShape(Lower(title));
    StripEdgesKeeps(CollapseRuns(Lower(title)));
  }

  /** Collapsing leaves a string alone when its hyphens are already single. */
  lemma {:induction false} CollapseCanonical(s: string)
    requires SlugAlphabet(s) && NoDoubleHyphen(s) && (s == [] || s[0] != '-' || |s| == 1 || IsSlugChar(s[1]))
    ensures CollapseRuns(s) == s
    decreases |s|
  {
    if s != [] {
      var tail := s[1..];
      assert SlugAlphabet(tail) && NoDoubleHyphen(tail);
      assert tail != [] && tail[0] == '-' && |tail| > 1 ==> IsSlugChar(tail[1]);
      if IsSlugChar(s[0]) {
        CollapseCanonical(tail);
      } else {
        assert s[0] == '-';
        assert SkipRun(s) == tail;
        CollapseCanonical(tail);
      }
    }
  }

  lemma LowerOfSlugAlphabet(s: string)
    requires SlugAlphabet(s)
    ensures Lower(s) == s
  {
  }

  /** A canonical slug is its own slug. */
  lemma CanonicalIsFixed(s: string)
    requires CanonicalSlug(s)
    ensures GenerateSlug(s) == s
  {
    LowerOfSlugAlphabet(s);
    if |s| > 1 && s[0] == '-' { assert false; }
    CollapseCanonical(s);
  }

  /** Generating a slug from a slug changes nothing. */
  lemma GenerateSlugIdempotent(title: string)
    ensures GenerateSlug(GenerateSlug(title)) == GenerateSlug(title)
  {
    GeneratedSlugShape(title);
    var r := GenerateSlug(title);
    if r != [] { CanonicalIsFixed(r); }
  }

  /** The slug field after the title changes: only a new post follows the title. */
  function SlugAfterTitleChange(editing: bool, slug: string, title: string): (r: string)
    ensures editing ==> r == slug
    ensures !editing ==> r == GenerateSlug(title)
    ensures !editing ==> r == [] || CanonicalSlug(r)
  {
    GeneratedSlugShape(title);
    if editing then slug else GenerateSlug(title)
  }

  // ---------------------------------------------------------------------
  // insertText
  // ---------------------------------------------------------------------

  /** `s.substring(a, b)`: both ends clamped into `[0, |s|]`, then swapped
      when out of order. */
  function Substring(s: string, a: int, b: int): (r: string)
    ensures 0 <= a <= b <= |s| ==> r == s[a..b]
  {
    var a' := if a < 0 then 0 else if a > |s| then |s| else a;
    var b' := if b < 0 then 0 else if b > |s| then |s| else b;
    if a' <= b' then s[a'..b'] else s[b'..a']
  }

  /** The new textarea value and the selection set afterwards. */
  datatype Insertion = Insertion(text: string, selectionStart: int, selectionEnd: int)

  /** `insertText(before, after)` on a textarea holding `text` with the
      selection `[start, end)`. */
  function InsertText(text: string, start: int, end: int, before: string, after: string): Insertion {
    Insertion(Substring(text, 0, start) + before + Substring(text, start, end) + after + Substring(text, end, |text|),
              start + |before|, end + |before|)
  }

  /** For a selection the browser can report, the selection is wrapped in
      `before` and `after`, everything around it is kept, and the selection
      afterwards covers the originally selected characters. */
  lemma InsertTextWraps(text: string, start: int, end: int, before: string, after: string)
    requires 0 <= start <= end <= |text|
    ensures var r := InsertText(text, start, end, before, after);
      && |r.text| == |text| + |before| + |after|
      && start <= r.selectionStart <= r.selectionEnd <= |r.text|
      && r.text[..start] == text[..start]
      && r.text[start..r.selectionStart] == before
      && r.text[r.selectionStart..r.selectionEnd] == text[start..end]
      && r.text[r.selectionEnd..r.selectionEnd + |after|] == after
      && r.text[r.selectionEnd + |after|..] == text[end..]
  {
    var r := InsertText(text, start, end, before, after);
    assert r.text == text[..start] + before + text[start..end] + after + text[end..];
  }
}
