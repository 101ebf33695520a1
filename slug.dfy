/** `slugify` (gdrive_client.py:68-77): a product folder name becomes the file
    name of its page. The pipeline has four stages, each a function here:
    lower-case and strip surrounding whitespace (Lower, then Strip with
    Space); turn each maximal run of whitespace and underscores into one
    hyphen (CollapseRuns); delete everything outside `[a-z0-9-]`
    (KeepSlugChars); strip hyphens from both ends (Strip with Hyphen). */
module Slug {

  /** Python's `str.isspace`, which is also what `\s` matches in a `str`
      pattern and what `strip()` removes. */
  predicate IsSpace(c: char)
    ensures IsSpace(c) ==> !IsSlugChar(c) && c != '_' && !LowersToAscii(c)
  {
    c == ' ' || '\t' <= c <= '\r' || '\U{1C}' <= c <= '\U{1F}'
    || c == '\U{85}' || c == '\U{A0}' || c == '\U{1680}'
    || '\U{2000}' <= c <= '\U{200A}' || c == '\U{2028}' || c == '\U{2029}'
    || c == '\U{202F}' || c == '\U{205F}' || c == '\U{3000}'
  }

  /** The character class `[\s_]`. */
  predicate IsSeparator(c: char) {
    IsSpace(c) || c == '_'
  }

  /** The character classes that `slugify` strips or collapses. */
  datatype CharClass = Space | Separator | Hyphen

  predicate InClass(cls: CharClass, c: char) {
    match cls
    case Space => IsSpace(c)
    case Separator => IsSeparator(c)
    case Hyphen => c == '-'
  }

  /** The character class `[a-z0-9-]`. */
  predicate IsSlugChar(c: char) {
    'a' <= c <= 'z' || '0' <= c <= '9' || c == '-'
  }

  /** What `slugify` can return: only `[a-z0-9-]`, no hyphen at either end. */
  predicate IsSlug(s: string) {
    && (forall i :: 0 <= i < |s| ==> IsSlugChar(s[i]))
    && (s == [] || (s[0] != '-' && s[|s| - 1] != '-'))
  }

  // ---------------------------------------------------------------------
  // str.lower

  /** Characters that `str.lower` changes into something containing an ASCII
      letter: `A`-`Z`, KELVIN SIGN and LATIN CAPITAL LETTER I WITH DOT ABOVE. */
  predicate LowersToAscii(c: char) {
    'A' <= c <= 'Z' || c == '\U{212A}' || c == '\U{130}'
  }

  /** `str.lower` on one character. Every other code point is kept as it is:
      Python may map it to another non-ASCII character, which the later
      filter deletes just the same. */
  function LowerChar(c: char): (r: string)
    ensures forall i :: 0 <= i < |r| ==> !LowersToAscii(r[i])
    ensures !LowersToAscii(c) ==> r == [c]
    ensures c == '\U{212A}' ==> r == "k"
    ensures c == '\U{130}' ==> r == "i\U{307}"
  {
    if 'A' <= c <= 'Z' then [(c as int + 32) as char]
    else if c == '\U{212A}' then "k"
    else if c == '\U{130}' then "i\U{307}"
    else [c]
  }

  function Lower(s: string): (r: string)
    ensures forall i :: 0 <= i < |r| ==> !LowersToAscii(r[i])
  {
    if s == [] then [] else LowerChar(s[0]) + Lower(s[1..])
  }

  /** On ASCII text, lower-casing maps `A`-`Z` to `a`-`z`, one for one, and
      keeps every other character. */
  lemma {:induction false} LowerAscii(s: string)
    requires forall i :: 0 <= i < |s| ==> s[i] < '\U{80}'
    ensures |Lower(s)| == |s|
    ensures forall i :: 0 <= i < |s| ==>
      Lower(s)[i] == if 'A' <= s[i] <= 'Z' then (s[i] as int + 32) as char else s[i]
  {
    if s != [] {
      LowerAscii(s[1..]);
      assert |LowerChar(s[0])| == 1;
      forall i | 0 <= i < |s|
        ensures Lower(s)[i] == if 'A' <= s[i] <= 'Z' then (s[i] as int + 32) as char else s[i]
      {
        if i > 0 {
          assert Lower(s)[i] == Lower(s[1..])[i - 1];
          assert s[i] == s[1..][i - 1];
        }
      }
    }
  }

  /** Lower-casing leaves a string without upper-case letters unchanged. */
  lemma {:induction false} LowerFixes(s: string)
    requires forall i :: 0 <= i < |s| ==> !LowersToAscii(s[i])
    ensures Lower(s) == s
  {
    if s != [] {
      LowerFixes(s[1..]);
    }
  }

  /** Lower-casing works character by character. */
  lemma {:induction false} LowerAppend(a: string, b: string)
    ensures Lower(a + b) == Lower(a) + Lower(b)
  {
    if a == [] {
      assert a + b == b;
    } else {
      assert (a + b)[1..] == a[1..] + b;
      LowerAppend(a[1..], b);
      ConcatAssoc(LowerChar(a[0]), Lower(a[1..]), Lower(b));
    }
  }

  // ---------------------------------------------------------------------
  // str.strip

  /** The number of leading characters of `s` that `drop` accepts. */
  function LeadingCount(s: string, drop: CharClass): (k: nat)
    ensures k <= |s|
    ensures k < |s| ==> !InClass(drop, s[k])
  {
    if s == [] || !InClass(drop, s[0]) then 0 else 1 + LeadingCount(s[1..], drop)
  }

  /** The number of trailing characters of `s` that `drop` accepts. */
  function TrailingCount(s: string, drop: CharClass): (k: nat)
    ensures k <= |s|
    ensures k < |s| ==> !InClass(drop, s[|s| - 1 - k])
  {
    if s == [] || !InClass(drop, s[|s| - 1]) then 0 else 1 + TrailingCount(s[..|s| - 1], drop)
  }

  /** The leading run stops at the first character outside the class. */
  lemma {:induction false} LeadingCountBelow(s: string, cls: CharClass, i: nat)
    requires i < |s| && !InClass(cls, s[i])
    ensures LeadingCount(s, cls) <= i
  {
    if i > 0 && InClass(cls, s[0]) {
      LeadingCountBelow(s[1..], cls, i - 1);
    }
  }

  /** `str.strip`: the longest leading and trailing runs of characters that
      `drop` accepts are removed, and nothing else. */
  function Strip(s: string, drop: CharClass): (r: string)
    ensures r == [] || (!InClass(drop, r[0]) && !InClass(drop, r[|r| - 1]))
    ensures r == s <==> s == [] || (!InClass(drop, s[0]) && !InClass(drop, s[|s| - 1]))
    ensures (forall i :: 0 <= i < |s| ==> InClass(drop, s[i])) ==> r == []
  {
    var lead := LeadingCount(s, drop);
    var inner := s[lead..];
    inner[..|inner| - TrailingCount(inner, drop)]
  }

  /** Every character of `s` is in the class `cls`. */
  predicate AllInClass(cls: CharClass, s: string) {
    forall i :: 0 <= i < |s| ==> InClass(cls, s[i])
  }

  /** The leading run that `LeadingCount` measures lies inside the class. */
  lemma {:induction false} LeadingCountRun(s: string, cls: CharClass)
    ensures AllInClass(cls, s[..LeadingCount(s, cls)])
  {
    if s != [] && InClass(cls, s[0]) {
      LeadingCountRun(s[1..], cls);
      var k := LeadingCount(s[1..], cls);
      assert s[..k + 1] == [s[0]] + s[1..][..k];
    }
  }

  /** The trailing run that `TrailingCount` measures lies inside the class. */
  lemma {:induction false} TrailingCountRun(s: string, cls: CharClass)
    ensures AllInClass(cls, s[|s| - TrailingCount(s, cls)..])
  {
    if s != [] && InClass(cls, s[|s| - 1]) {
      var front := s[..|s| - 1];
      TrailingCountRun(front, cls);
      var k := TrailingCount(front, cls);
      assert s[|s| - (k + 1)..] == front[|front| - k..] + [s[|s| - 1]];
    }
  }

  /** `Strip` removes a run of class characters from each end and keeps the
      middle: the input is the result with those runs put back. Together
      with the first ensures of `Strip`, this fixes the result. */
  lemma StripSplits(s: string, drop: CharClass)
    ensures exists a, b :: s == a + Strip(s, drop) + b && AllInClass(drop, a) && AllInClass(drop, b)
  {
    var lead := LeadingCount(s, drop);
    var inner := s[lead..];
    var cut := |inner| - TrailingCount(inner, drop);
    var a, b := s[..lead], inner[cut..];
    assert AllInClass(drop, a) by {
      LeadingCountRun(s, drop);
    }
    assert AllInClass(drop, b) by {
      TrailingCountRun(inner, drop);
    }
    assert s == a + Strip(s, drop) + b by {
      assert Strip(s, drop) == inner[..cut];
      SplitAround(s, lead, cut);
    }
  }

  /** Cutting `s` after `i` characters and its remainder after `j` more. */
  lemma SplitAround<T>(s: seq<T>, i: nat, j: nat)
    requires i <= |s| && j <= |s| - i
    ensures s == s[..i] + s[i..][..j] + s[i..][j..]
  {
  }

  // ---------------------------------------------------------------------
  // re.sub(r'[\s_]+', '-', text)

  /** Every maximal run of separators becomes one `-`; everything else,
      including hyphens already present, is kept. */
  function CollapseRuns(s: string): (r: string)
    ensures forall i :: 0 <= i < |r| ==> !IsSeparator(r[i])
    ensures |r| <= |s|
    decreases |s|
  {
    if s == [] then []
    else if IsSeparator(s[0]) then "-" + CollapseRuns(s[LeadingCount(s, Separator)..])
    else [s[0]] + CollapseRuns(s[1..])
  }

  /** A string without separators is left as it is. */
  lemma {:induction false} CollapseRunsFixes(s: string)
    requires forall i :: 0 <= i < |s| ==> !IsSeparator(s[i])
    ensures CollapseRuns(s) == s
  {
    if s != [] {
      CollapseRunsFixes(s[1..]);
    }
  }

  /** Appending text after a non-separator does not lengthen the leading
      separator run. */
  lemma {:induction false} LeadingCountAppend(p: string, rest: string)
    requires LeadingCount(p, Separator) < |p|
    ensures LeadingCount(p + rest, Separator) == LeadingCount(p, Separator)
  {
    assert (p + rest)[0] == p[0];
    if IsSeparator(p[0]) {
      assert (p + rest)[1..] == p[1..] + rest;
      LeadingCountAppend(p[1..], rest);
    }
  }

  /** The leading separator run of `run + q` is exactly `run`. */
  lemma {:induction false} LeadingRun(run: string, q: string)
    requires forall i :: 0 <= i < |run| ==> IsSeparator(run[i])
    requires q == [] || !IsSeparator(q[0])
    ensures LeadingCount(run + q, Separator) == |run|
  {
    if run == [] {
      assert run + q == q;
    } else {
      assert (run + q)[0] == run[0];
      assert (run + q)[1..] == run[1..] + q;
      LeadingRun(run[1..], q);
    }
  }

  /** A run of separators at the front becomes one `-`. */
  lemma CollapseRunsFront(run: string, q: string)
    requires run != [] && forall i :: 0 <= i < |run| ==> IsSeparator(run[i])
    requires q == [] || !IsSeparator(q[0])
    ensures CollapseRuns(run + q) == "-" + CollapseRuns(q)
  {
    var s := run + q;
    assert s[0] == run[0];
    LeadingRun(run, q);
    assert s[|run|..] == q;
  }

  /** How far one step of `CollapseRuns` advances over a non-empty string,
      and what it emits. */
  function Step(s: string): (k: nat)
    requires s != []
    ensures 0 < k <= |s|
  {
    if IsSeparator(s[0]) then LeadingCount(s, Separator) else 1
  }

  function Emitted(s: string): string
    requires s != []
  {
    if IsSeparator(s[0]) then "-" else [s[0]]
  }

  lemma CollapseRunsUnfold(s: string)
    requires s != []
    ensures CollapseRuns(s) == Emitted(s) + CollapseRuns(s[Step(s)..])
  {
  }

  /** Text appended after a non-separator does not change the first step. */
  lemma StepAppend(p: string, rest: string)
    requires p != [] && !IsSeparator(p[|p| - 1])
    ensures Step(p + rest) == Step(p) && Emitted(p + rest) == Emitted(p)
    ensures (p + rest)[Step(p)..] == p[Step(p)..] + rest
  {
    assert (p + rest)[0] == p[0];
    if IsSeparator(p[0]) {
      LeadingCountBelow(p, Separator, |p| - 1);
      LeadingCountAppend(p, rest);
    }
  }

  /** Concatenation is associative, stated over plain strings so that the
      solver meets it without the contracts of the functions involved. */
  lemma ConcatAssoc(a: string, b: string, c: string)
    ensures a + (b + c) == (a + b) + c
  {
  }

  /** The first step of `CollapseRuns` over `p + u` only looks at `p`. */
  lemma CollapseRunsUnfoldAppend(p: string, u: string)
    requires p != [] && !IsSeparator(p[|p| - 1])
    ensures CollapseRuns(p + u) == Emitted(p) + CollapseRuns(p[Step(p)..] + u)
  {
    StepAppend(p, u);
    CollapseRunsUnfold(p + u);
  }

  /** One step of `CollapseRuns` over `p + u`, for a non-empty `p` that
      ends in a non-separator. */
  lemma CollapseRunsAppendStep(p: string, u: string)
    requires p != [] && !IsSeparator(p[|p| - 1])
    requires CollapseRuns(p[Step(p)..] + u) == CollapseRuns(p[Step(p)..]) + CollapseRuns(u)
    ensures CollapseRuns(p + u) == CollapseRuns(p) + CollapseRuns(u)
  {
    CollapseRunsUnfoldAppend(p, u);
    CollapseRunsUnfold(p);
    ConcatAssoc(Emitted(p), CollapseRuns(p[Step(p)..]), CollapseRuns(u));
  }

  /** A string that does not end in a separator is collapsed independently
      of what follows it. */
  lemma {:induction false} CollapseRunsAppend(p: string, u: string)
    requires p == [] || !IsSeparator(p[|p| - 1])
    ensures CollapseRuns(p + u) == CollapseRuns(p) + CollapseRuns(u)
    decreases |p|
  {
    if p == [] {
      assert p + u == u;
    } else {
      var t := p[Step(p)..];
      assert t != [] ==> t[|t| - 1] == p[|p| - 1];
      CollapseRunsAppend(t, u);
      CollapseRunsAppendStep(p, u);
    }
  }

  /** A maximal run of separators (one not touching another separator on
      either side) contributes exactly one `-` to the output, at its place. */
  lemma CollapseRunsSplit(p: string, run: string, q: string)
    requires run != [] && forall i :: 0 <= i < |run| ==> IsSeparator(run[i])
    requires p == [] || !IsSeparator(p[|p| - 1])
    requires q == [] || !IsSeparator(q[0])
    ensures CollapseRuns(p + run + q) == CollapseRuns(p) + "-" + CollapseRuns(q)
  {
    ConcatAssoc(p, run, q);
    CollapseRunsAppend(p, run + q);
    CollapseRunsFront(run, q);
    ConcatAssoc(CollapseRuns(p), "-", CollapseRuns(q));
  }

  // ---------------------------------------------------------------------
  // re.sub(r'[^a-z0-9-]', '', text)

  /** Deletes every character outside `[a-z0-9-]`. */
  function KeepSlugChars(s: string): (r: string)
    ensures forall i :: 0 <= i < |r| ==> IsSlugChar(r[i])
    ensures (forall i :: 0 <= i < |s| ==> IsSlugChar(s[i])) ==> r == s
  {
    if s == [] then []
    else if IsSlugChar(s[0]) then [s[0]] + KeepSlugChars(s[1..])
    else KeepSlugChars(s[1..])
  }

  /** The filter works character by character. */
  lemma {:induction false} KeepSlugCharsAppend(a: string, b: string)
    ensures KeepSlugChars(a + b) == KeepSlugChars(a) + KeepSlugChars(b)
  {
    if a == [] {
      assert a + b == b;
    } else {
      assert (a + b)[1..] == a[1..] + b;
      KeepSlugCharsAppend(a[1..], b);
      var head := if IsSlugChar(a[0]) then [a[0]] else [];
      ConcatAssoc(head, KeepSlugChars(a[1..]), KeepSlugChars(b));
    }
  }

  /** The filter keeps every occurrence of every character of `[a-z0-9-]`:
      only characters outside the class are lost. */
  lemma {:induction false} KeepSlugCharsCounts(s: string, c: char)
    requires IsSlugChar(c)
    ensures multiset(KeepSlugChars(s))[c] == multiset(s)[c]
  {
    if s != [] {
      assert s == [s[0]] + s[1..];
      KeepSlugCharsCounts(s[1..], c);
    }
  }

  // ---------------------------------------------------------------------
  // slugify

  function Slugify(text: string): (slug: string)
    ensures IsSlug(slug)
  {
    var trimmed := Strip(Lower(text), Space);
    var hyphenated := CollapseRuns(trimmed);
    var kept := KeepSlugChars(hyphenated);
    Strip(kept, Hyphen)
  }

  /** Lower-casing and run collapsing leave a slug as it is. */
  lemma LowerAndCollapseFixSlugs(s: string)
    requires IsSlug(s)
    ensures Lower(s) == s && CollapseRuns(s) == s
  {
    forall i | 0 <= i < |s|
      ensures !LowersToAscii(s[i]) && !IsSeparator(s[i])
    {
      assert IsSlugChar(s[i]);
    }
    LowerFixes(s);
    CollapseRunsFixes(s);
  }

  /** Stripping whitespace or hyphens leaves a slug as it is. */
  lemma StripFixesSlugs(s: string)
    requires IsSlug(s)
    ensures Strip(s, Space) == s && Strip(s, Hyphen) == s
  {
    assert s != [] ==> IsSlugChar(s[0]) && IsSlugChar(s[|s| - 1]);
  }

  /** Every slug is returned unchanged. */
  lemma SlugifyFixesSlugs(s: string)
    requires IsSlug(s)
    ensures Slugify(s) == s
  {
    LowerAndCollapseFixSlugs(s);
    StripFixesSlugs(s);
  }

  /** The strings `slugify` leaves unchanged are exactly the slugs. */
  lemma SlugifyFixedPoints(s: string)
    ensures Slugify(s) == s <==> IsSlug(s)
  {
    if IsSlug(s) {
      SlugifyFixesSlugs(s);
    }
  }

  /** `slugify` is idempotent. */
  lemma SlugifyIdempotent(text: string)
    ensures Slugify(Slugify(text)) == Slugify(text)
  {
    SlugifyFixesSlugs(Slugify(text));
  }

  // ---------------------------------------------------------------------
  // Words joined by separators

  /** Lower-casing never produces a separator. */
  lemma {:induction false} LowerKeepsNoSeparators(s: string)
    requires forall i :: 0 <= i < |s| ==> !IsSeparator(s[i])
    ensures |Lower(s)| >= |s|
    ensures forall i :: 0 <= i < |Lower(s)| ==> !IsSeparator(Lower(s)[i])
  {
    if s != [] {
      LowerKeepsNoSeparators(s[1..]);
    }
  }

  /** A word: no whitespace or underscore, and something of it survives
      lower-casing and filtering without a hyphen at either end. */
  predicate IsWord(w: string) {
    && (forall i :: 0 <= i < |w| ==> !IsSeparator(w[i]))
    && KeepSlugChars(Lower(w)) != []
    && IsSlug(KeepSlugChars(Lower(w)))
  }

  /** The slug of a word is its lower-cased, filtered text. */
  lemma SlugifyWord(w: string)
    requires IsWord(w)
    ensures Slugify(w) == KeepSlugChars(Lower(w))
  {
    LowerKeepsNoSeparators(w);
    var lowered := Lower(w);
    assert Strip(lowered, Space) == lowered;
    CollapseRunsFixes(lowered);
    StripFixesSlugs(KeepSlugChars(lowered));
  }

  /** Lower-casing `a + run + b` leaves the separator run as it is. */
  lemma LowerJoin(a: string, run: string, b: string)
    requires forall i :: 0 <= i < |run| ==> IsSeparator(run[i])
    ensures Lower(a + run + b) == Lower(a) + run + Lower(b)
  {
    assert Lower(run) == run by {
      forall i | 0 <= i < |run|
        ensures !LowersToAscii(run[i])
      {
        SeparatorIsLower(run[i]);
      }
      LowerFixes(run);
    }
    assert Lower(a + run) == Lower(a) + run by {
      LowerAppend(a, run);
    }
    LowerAppend(a + run, b);
  }

  lemma SeparatorIsLower(c: char)
    requires IsSeparator(c)
    ensures !LowersToAscii(c)
  {
  }

  /** Between two non-empty separator-free strings, a separator run is the
      only thing stripping and collapsing change. */
  lemma CollapseJoin(a: string, run: string, b: string)
    requires a != [] && b != []
    requires forall i :: 0 <= i < |a| ==> !IsSeparator(a[i])
    requires forall i :: 0 <= i < |b| ==> !IsSeparator(b[i])
    requires run != [] && forall i :: 0 <= i < |run| ==> IsSeparator(run[i])
    ensures CollapseRuns(Strip(a + run + b, Space)) == a + "-" + b
  {
    var joined := a + run + b;
    assert joined[0] == a[0] && joined[|joined| - 1] == b[|b| - 1];
    assert Strip(joined, Space) == joined;
    CollapseRunsSplit(a, run, b);
    CollapseRunsFixes(a);
    CollapseRunsFixes(b);
  }

  /** Two non-empty slugs joined by one hyphen form a slug. */
  lemma HyphenJoinIsSlug(a: string, b: string)
    requires a != [] && b != [] && IsSlug(a) && IsSlug(b)
    ensures IsSlug(a + "-" + b)
  {
    var k := a + "-" + b;
    assert k[0] == a[0] && k[|k| - 1] == b[|b| - 1];
  }

  /** The stages before filtering, on `a + run + b`. */
  lemma JoinStages(a: string, run: string, b: string)
    requires IsWord(a) && IsWord(b)
    requires run != [] && forall i :: 0 <= i < |run| ==> IsSeparator(run[i])
    ensures CollapseRuns(Strip(Lower(a + run + b), Space)) == Lower(a) + "-" + Lower(b)
  {
    LowerJoin(a, run, b);
    LowerKeepsNoSeparators(a);
    LowerKeepsNoSeparators(b);
    CollapseJoin(Lower(a), run, Lower(b));
  }

  /** Filtering keeps the hyphen between two filtered parts. */
  lemma KeepOneHyphen(x: string, y: string)
    ensures KeepSlugChars(x + "-" + y) == KeepSlugChars(x) + "-" + KeepSlugChars(y)
  {
    KeepSlugCharsAppend(x + "-", y);
    KeepSlugCharsAppend(x, "-");
  }

  /** Two words joined by any run of whitespace and underscores give the two
      slugs joined by exactly one hyphen. */
  lemma SlugifyJoin(a: string, run: string, b: string)
    requires IsWord(a) && IsWord(b)
    requires run != [] && forall i :: 0 <= i < |run| ==> IsSeparator(run[i])
    ensures Slugify(a + run + b) == Slugify(a) + "-" + Slugify(b)
  {
    var ka, kb := KeepSlugChars(Lower(a)), KeepSlugChars(Lower(b));
    JoinStages(a, run, b);
    KeepOneHyphen(Lower(a), Lower(b));
    HyphenJoinIsSlug(ka, kb);
    StripFixesSlugs(ka + "-" + kb);
    SlugifyWord(a);
    SlugifyWord(b);
  }

  // ---------------------------------------------------------------------
  // Hyphens already present are kept

  lemma HyphenRegroup(x: string, r2: string, b: string)
    ensures x + "-" + r2 + b == x + ("-" + r2 + b)
  {
    ConcatAssoc(x, "-" + r2, b);
    ConcatAssoc(x, "-", r2);
  }

  /** Lower-casing `a + r1 + "-" + r2 + b` leaves the separator runs and the
      hyphen between them as they are. */
  lemma LowerHyphenJoin(a: string, r1: string, r2: string, b: string)
    requires forall i :: 0 <= i < |r1| ==> IsSeparator(r1[i])
    requires forall i :: 0 <= i < |r2| ==> IsSeparator(r2[i])
    ensures Lower(a + r1 + "-" + r2 + b) == Lower(a) + r1 + "-" + r2 + Lower(b)
  {
    var tail := "-" + r2 + b;
    HyphenRegroup(a + r1, r2, b);
    LowerJoin(a, r1, tail);
    LowerJoin("-", r2, b);
    LowerFixes("-");
    ConcatAssoc(Lower(a) + r1, "-" + r2, Lower(b));
    ConcatAssoc(Lower(a) + r1, "-", r2);
  }

  /** After a hyphen, a separator run becomes one more hyphen. */
  lemma CollapseHyphenTail(r2: string, b: string)
    requires b != [] && forall i :: 0 <= i < |b| ==> !IsSeparator(b[i])
    requires r2 != [] && forall i :: 0 <= i < |r2| ==> IsSeparator(r2[i])
    ensures CollapseRuns("-" + r2 + b) == "-" + "-" + b
  {
    CollapseRunsSplit("-", r2, b);
    CollapseRunsFixes(b);
    CollapseRunsFixes("-");
  }

  /** A hyphen between two separator runs survives: each run becomes one
      more hyphen beside it. */
  lemma CollapseHyphenJoin(a: string, r1: string, r2: string, b: string)
    requires a != [] && b != []
    requires forall i :: 0 <= i < |a| ==> !IsSeparator(a[i])
    requires forall i :: 0 <= i < |b| ==> !IsSeparator(b[i])
    requires r1 != [] && forall i :: 0 <= i < |r1| ==> IsSeparator(r1[i])
    requires r2 != [] && forall i :: 0 <= i < |r2| ==> IsSeparator(r2[i])
    ensures CollapseRuns(a + r1 + "-" + r2 + b) == a + "-" + "-" + "-" + b
  {
    var tail := "-" + r2 + b;
    HyphenRegroup(a + r1, r2, b);
    CollapseAfterWord(a, r1, tail);
    CollapseHyphenTail(r2, b);
    ThreeHyphens(a, b);
  }

  /** A word, a separator run, then anything that does not start with a
      separator. */
  lemma CollapseAfterWord(a: string, r1: string, tail: string)
    requires a != [] && forall i :: 0 <= i < |a| ==> !IsSeparator(a[i])
    requires r1 != [] && forall i :: 0 <= i < |r1| ==> IsSeparator(r1[i])
    requires tail == [] || !IsSeparator(tail[0])
    ensures CollapseRuns(a + r1 + tail) == a + "-" + CollapseRuns(tail)
  {
    CollapseRunsSplit(a, r1, tail);
    CollapseRunsFixes(a);
  }

  lemma ThreeHyphens(x: string, y: string)
    ensures x + "-" + ("-" + "-" + y) == x + "-" + "-" + "-" + y
  {
    ConcatAssoc(x + "-", "-" + "-", y);
    ConcatAssoc(x + "-", "-", "-");
  }

  /** Filtering keeps the three hyphens between two filtered parts. */
  lemma {:induction false} KeepThreeHyphens(x: string, y: string)
    ensures KeepSlugChars(x + "-" + "-" + "-" + y) == KeepSlugChars(x) + "-" + "-" + "-" + KeepSlugChars(y)
  {
    KeepSlugCharsAppend(x + "-" + "-" + "-", y);
    KeepSlugCharsAppend(x + "-" + "-", "-");
    KeepSlugCharsAppend(x + "-", "-");
    KeepSlugCharsAppend(x, "-");
  }

  /** The stages before filtering, on `a + r1 + "-" + r2 + b`. */
  lemma HyphenJoinStages(a: string, r1: string, r2: string, b: string)
    requires IsWord(a) && IsWord(b)
    requires r1 != [] && forall i :: 0 <= i < |r1| ==> IsSeparator(r1[i])
    requires r2 != [] && forall i :: 0 <= i < |r2| ==> IsSeparator(r2[i])
    ensures CollapseRuns(Strip(Lower(a + r1 + "-" + r2 + b), Space)) == Lower(a) + "-" + "-" + "-" + Lower(b)
  {
    var la, lb := Lower(a), Lower(b);
    var lowered := la + r1 + "-" + r2 + lb;
    LowerHyphenJoin(a, r1, r2, b);
    LowerKeepsNoSeparators(a);
    LowerKeepsNoSeparators(b);
    assert Strip(lowered, Space) == lowered by {
      assert lowered[0] == la[0] && lowered[|lowered| - 1] == lb[|lb| - 1];
    }
    CollapseHyphenJoin(la, r1, r2, lb);
  }

  /** Three hyphens between two non-empty slugs survive stripping. */
  lemma StripThreeHyphens(x: string, y: string)
    requires x != [] && y != [] && IsSlug(x) && IsSlug(y)
    ensures Strip(x + "-" + "-" + "-" + y, Hyphen) == x + "-" + "-" + "-" + y
  {
    var k := x + "-" + "-" + "-" + y;
    assert k[0] == x[0] && k[|k| - 1] == y[|y| - 1];
  }

  /** Hyphens already in the text are not merged with the runs around them:
      `"a - b"` gives `"a---b"`. */
  lemma SlugifyHyphenJoin(a: string, r1: string, r2: string, b: string)
    requires IsWord(a) && IsWord(b)
    requires r1 != [] && forall i :: 0 <= i < |r1| ==> IsSeparator(r1[i])
    requires r2 != [] && forall i :: 0 <= i < |r2| ==> IsSeparator(r2[i])
    ensures Slugify(a + r1 + "-" + r2 + b) == Slugify(a) + "-" + "-" + "-" + Slugify(b)
  {
    HyphenJoinStages(a, r1, r2, b);
    KeepThreeHyphens(Lower(a), Lower(b));
    StripThreeHyphens(KeepSlugChars(Lower(a)), KeepSlugChars(Lower(b)));
    SlugifyWord(a);
    SlugifyWord(b);
  }
}
