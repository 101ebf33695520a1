/** The `webViewLink` rewrite inside `main` (gdrive_client.py:122-126): each
    listed image that has a view link gets `/view?usp=drivesdk` replaced by
    `/preview` with Python's `str.replace`, which rewrites every
    non-overlapping occurrence, found left to right, not only a trailing
    one. The image records are updated in place. */
module ViewLink {
  import opened Wrappers
  import opened Drive

  const ViewPattern: string := "/view?usp=drivesdk"
  const PreviewText: string := "/preview"

  /** `pat` occurs in `s` starting at index `i`. */
  predicate MatchAt(s: string, pat: string, i: nat) {
    i + |pat| <= |s| && s[i..i + |pat|] == pat
  }

  ghost predicate Occurs(s: string, pat: string) {
    exists i: nat :: MatchAt(s, pat, i)
  }

  /** `s.replace(pat, rep)` for a non-empty `pat`: scan from the left; at a
      match emit `rep` and skip the match, otherwise copy one character. */
  function ReplaceAll(s: string, pat: string, rep: string): (r: string)
    requires pat != []
    ensures |pat| <= |rep| ==> |s| <= |r|
    ensures |rep| <= |pat| ==> |r| <= |s|
    decreases |s|
  {
    if s == [] then []
    else if MatchAt(s, pat, 0) then rep + ReplaceAll(s[|pat|..], pat, rep)
    else [s[0]] + ReplaceAll(s[1..], pat, rep)
  }

  /** The number of occurrences that `ReplaceAll` rewrites. */
  function MatchCount(s: string, pat: string): nat
    requires pat != []
    decreases |s|
  {
    if s == [] then 0
    else if MatchAt(s, pat, 0) then 1 + MatchCount(s[|pat|..], pat)
    else MatchCount(s[1..], pat)
  }

  /** Dropping the first character shifts every match one place left. */
  lemma MatchAtTail(s: string, pat: string, i: nat)
    requires s != []
    ensures MatchAt(s, pat, i + 1) <==> MatchAt(s[1..], pat, i)
  {
    if i + 1 + |pat| <= |s| {
      assert s[i + 1..i + 1 + |pat|] == s[1..][i..i + |pat|];
    }
  }

  lemma MulSucc(m: nat, d: int)
    ensures (m + 1) * d == m * d + d
  {
  }

  /** Every rewritten occurrence changes the length by `|rep| - |pat|`. */
  lemma {:induction false} ReplaceAllLength(s: string, pat: string, rep: string)
    requires pat != []
    ensures |ReplaceAll(s, pat, rep)| == |s| + MatchCount(s, pat) * (|rep| - |pat|)
    decreases |s|
  {
    var d := |rep| - |pat|;
    if s == [] {
    } else if MatchAt(s, pat, 0) {
      var rest := s[|pat|..];
      var m := MatchCount(rest, pat);
      ReplaceAllLength(rest, pat, rep);
      assert |ReplaceAll(s, pat, rep)| == |rep| + |ReplaceAll(rest, pat, rep)|;
      assert |ReplaceAll(rest, pat, rep)| == |s| - |pat| + m * d;
      assert MatchCount(s, pat) == m + 1;
      MulSucc(m, d);
    } else {
      var m := MatchCount(s[1..], pat);
      ReplaceAllLength(s[1..], pat, rep);
      assert |ReplaceAll(s, pat, rep)| == 1 + |ReplaceAll(s[1..], pat, rep)|;
      assert MatchCount(s, pat) == m;
    }
  }

  /** Nothing is rewritten exactly when the pattern does not occur. */
  lemma {:induction false} MatchCountZero(s: string, pat: string)
    requires pat != []
    ensures MatchCount(s, pat) == 0 <==> !Occurs(s, pat)
    decreases |s|
  {
    if s == [] {
    } else if MatchAt(s, pat, 0) {
    } else {
      MatchCountZero(s[1..], pat);
      if Occurs(s, pat) {
        var i: nat :| MatchAt(s, pat, i);
        assert i != 0;
        MatchAtTail(s, pat, i - 1);
      }
      if Occurs(s[1..], pat) {
        var i: nat :| MatchAt(s[1..], pat, i);
        MatchAtTail(s, pat, i);
      }
    }
  }

  /** A string without the pattern is returned unchanged. */
  lemma {:induction false} ReplaceAllAbsent(s: string, pat: string, rep: string)
    requires pat != [] && !Occurs(s, pat)
    ensures ReplaceAll(s, pat, rep) == s
    decreases |s|
  {
    if s != [] {
      assert !MatchAt(s, pat, 0);
      forall i: nat
        ensures !MatchAt(s[1..], pat, i)
      {
        MatchAtTail(s, pat, i);
      }
      ReplaceAllAbsent(s[1..], pat, rep);
    }
  }

  /** When the first occurrence starts right after `a`, the result is `a`,
      then `rep`, then the rewrite of what follows the occurrence. */
  lemma {:induction false} ReplaceAllFirstMatch(a: string, pat: string, rep: string, b: string)
    requires pat != []
    requires forall i: nat :: i < |a| ==> !MatchAt(a + pat + b, pat, i)
    ensures ReplaceAll(a + pat + b, pat, rep) == a + rep + ReplaceAll(b, pat, rep)
    decreases |a|
  {
    var s := a + pat + b;
    if a == [] {
      assert s == pat + b;
      assert MatchAt(s, pat, 0);
      assert s[|pat|..] == b;
    } else {
      assert !MatchAt(s, pat, 0);
      assert s[1..] == a[1..] + pat + b;
      forall i: nat | i < |a[1..]|
        ensures !MatchAt(a[1..] + pat + b, pat, i)
      {
        MatchAtTail(s, pat, i);
      }
      ReplaceAllFirstMatch(a[1..], pat, rep, b);
      assert s[0] == a[0];
    }
  }

  /** The view-link rewrite changes a link exactly when the link contains
      `/view?usp=drivesdk`. */
  lemma RewriteChangesIffOccurs(link: string)
    ensures ReplaceAll(link, ViewPattern, PreviewText) == link <==> !Occurs(link, ViewPattern)
  {
    ReplaceAllLength(link, ViewPattern, PreviewText);
    MatchCountZero(link, ViewPattern);
    if !Occurs(link, ViewPattern) {
      ReplaceAllAbsent(link, ViewPattern, PreviewText);
    }
  }

  const SharingSuffix: string := "/view?usp=sharing"

  predicate NoQuery(base: string) {
    forall i :: 0 <= i < |base| ==> base[i] != '?'
  }

  lemma ViewPatternQuery()
    ensures |ViewPattern| == 18 && ViewPattern[5] == '?'
    ensures forall j :: 0 <= j < |ViewPattern| && ViewPattern[j] == '?' ==> j == 5
  {
  }

  lemma SharingSuffixQuery()
    ensures |SharingSuffix| == 17
  {
  }

  /** An occurrence of the view suffix in `base + tail`, where `base` holds
      no `?`, puts the suffix's `?` inside `tail`. */
  lemma MatchInTail(base: string, tail: string, i: nat)
    requires NoQuery(base) && MatchAt(base + tail, ViewPattern, i)
    ensures |base| <= i + 5 < |base| + |tail| && tail[i + 5 - |base|] == '?'
  {
    ViewPatternQuery();
    var s := base + tail;
    assert s[i + 5] == s[i..i + |ViewPattern|][5] == '?';
  }

  /** A link that ends in `/view?usp=drivesdk` and has no other query part
      becomes the same link ending in `/preview`. */
  lemma RewriteDriveSdkLink(base: string)
    requires NoQuery(base)
    ensures ReplaceAll(base + ViewPattern, ViewPattern, PreviewText) == base + PreviewText
  {
    forall i: nat | i < |base|
      ensures !MatchAt(base + ViewPattern + [], ViewPattern, i)
    {
      assert base + ViewPattern + [] == base + ViewPattern;
      if MatchAt(base + ViewPattern, ViewPattern, i) {
        MatchInTail(base, ViewPattern, i);
        ViewPatternQuery();
      }
    }
    ReplaceAllFirstMatch(base, ViewPattern, PreviewText, []);
    assert base + ViewPattern + [] == base + ViewPattern;
    assert base + PreviewText + [] == base + PreviewText;
  }

  /** A link that ends in `/view?usp=sharing` is left as it is. */
  lemma KeepSharingLink(base: string)
    requires NoQuery(base)
    ensures ReplaceAll(base + SharingSuffix, ViewPattern, PreviewText) == base + SharingSuffix
  {
    var s := base + SharingSuffix;
    forall i: nat
      ensures !MatchAt(s, ViewPattern, i)
    {
      if MatchAt(s, ViewPattern, i) {
        MatchInTail(base, SharingSuffix, i);
        ViewPatternQuery();
        SharingSuffixQuery();
      }
    }
    ReplaceAllAbsent(s, ViewPattern, PreviewText);
  }

  lemma PreviewTextSlash()
    ensures |PreviewText| == 8 && PreviewText[0] == '/' && PreviewText[1] == 'p'
    ensures forall j :: 1 <= j < |PreviewText| ==> PreviewText[j] != '/'
  {
  }

  lemma ViewPatternSlash()
    ensures |ViewPattern| == 18 && ViewPattern[0] == '/' && ViewPattern[1] == 'v'
    ensures forall j :: 1 <= j < |ViewPattern| ==> ViewPattern[j] != '/'
  {
  }

  /** A match inside the second part of a concatenation, seen from each side. */
  lemma MatchAtAppend(x: string, y: string, pat: string, j: nat)
    ensures MatchAt(x + y, pat, |x| + j) <==> MatchAt(y, pat, j)
  {
    if |x| + j + |pat| <= |x + y| {
      assert (x + y)[|x| + j..|x| + j + |pat|] == y[j..j + |pat|];
    }
  }

  /** The first character of a rewrite: `/` from `/preview` after a match,
      the input's own first character otherwise. */
  lemma RewriteFirstChar(t: string)
    requires t != []
    ensures |ReplaceAll(t, ViewPattern, PreviewText)| > 0
    ensures ReplaceAll(t, ViewPattern, PreviewText)[0] == if MatchAt(t, ViewPattern, 0) then '/' else t[0]
  {
    PreviewTextSlash();
  }

  /** Every rewrite emits `/preview`, which starts with `/`: so a prefix of
      the result without `/` was copied unchanged from the input. */
  lemma {:induction false} CopiedPrefix(t: string, k: nat)
    requires k <= |ReplaceAll(t, ViewPattern, PreviewText)|
    requires forall j :: 0 <= j < k ==> ReplaceAll(t, ViewPattern, PreviewText)[j] != '/'
    ensures k <= |t| && ReplaceAll(t, ViewPattern, PreviewText)[..k] == t[..k]
    decreases |t|
  {
    PreviewTextSlash();
    if k > 0 {
      var rest := ReplaceAll(t[1..], ViewPattern, PreviewText);
      RewriteFirstChar(t);
      var r := ReplaceAll(t, ViewPattern, PreviewText);
      assert r == [t[0]] + rest;
      forall j | 0 <= j < k - 1
        ensures rest[j] != '/'
      {
        assert rest[j] == r[j + 1];
      }
      CopiedPrefix(t[1..], k - 1);
      assert t[..k] == [t[0]] + t[1..][..k - 1];
    }
  }

  /** The rewrite does not start with the view suffix when the input does
      not: a match would have to be copied from the input. */
  lemma NoViewAtCopy(s: string)
    requires s != [] && !MatchAt(s, ViewPattern, 0)
    ensures !MatchAt(ReplaceAll(s, ViewPattern, PreviewText), ViewPattern, 0)
  {
    var r := ReplaceAll(s, ViewPattern, PreviewText);
    var rest := ReplaceAll(s[1..], ViewPattern, PreviewText);
    assert r == [s[0]] + rest;
    if MatchAt(r, ViewPattern, 0) {
      ViewPatternSlash();
      assert rest[..17] == ViewPattern[1..];
      CopiedPrefix(s[1..], 17);
    }
  }

  /** `/preview` followed by a text without the view suffix has none:
      no match can start inside `/preview`. */
  lemma NoViewAfterPreview(rest: string)
    requires !Occurs(rest, ViewPattern)
    ensures !Occurs(PreviewText + rest, ViewPattern)
  {
    var r := PreviewText + rest;
    forall i: nat
      ensures !MatchAt(r, ViewPattern, i)
    {
      if i >= |PreviewText| {
        MatchAtAppend(PreviewText, rest, ViewPattern, i - |PreviewText|);
      } else if i > 0 {
        PreviewTextSlash();
        ViewPatternSlash();
        assert r[i] == PreviewText[i];
      } else {
        PreviewTextSlash();
        ViewPatternSlash();
        assert r[1] == PreviewText[1];
      }
    }
  }

  /** A copied first character followed by a rewrite without the view
      suffix has none, when the input does not start with it. */
  lemma NoViewAfterCopy(s: string)
    requires s != [] && !MatchAt(s, ViewPattern, 0)
    requires !Occurs(ReplaceAll(s[1..], ViewPattern, PreviewText), ViewPattern)
    ensures !Occurs(ReplaceAll(s, ViewPattern, PreviewText), ViewPattern)
  {
    var rest := ReplaceAll(s[1..], ViewPattern, PreviewText);
    var r := ReplaceAll(s, ViewPattern, PreviewText);
    assert r == [s[0]] + rest;
    NoViewAtCopy(s);
    forall i: nat | i > 0
      ensures !MatchAt(r, ViewPattern, i)
    {
      MatchAtAppend([s[0]], rest, ViewPattern, i - 1);
    }
  }

  /** No rewritten link still contains `/view?usp=drivesdk`: every
      occurrence is replaced, and the replacements create none. */
  lemma {:induction false} NoViewLeft(s: string)
    ensures !Occurs(ReplaceAll(s, ViewPattern, PreviewText), ViewPattern)
    decreases |s|
  {
    if s != [] {
      if MatchAt(s, ViewPattern, 0) {
        NoViewLeft(s[|ViewPattern|..]);
        NoViewAfterPreview(ReplaceAll(s[|ViewPattern|..], ViewPattern, PreviewText));
      } else {
        NoViewLeft(s[1..]);
        NoViewAfterCopy(s);
      }
    }
  }

  /** The rewrite of one image record: only `webViewLink` can change, and
      only when the record has one. */
  function RewriteImage(img: Image): (r: Image)
    ensures r.id == img.id && r.name == img.name && r.thumbnailLink == img.thumbnailLink
    ensures r.webViewLink.None? <==> img.webViewLink.None?
    ensures img.webViewLink.Some? ==>
      r.webViewLink.value == ReplaceAll(img.webViewLink.value, ViewPattern, PreviewText)
  {
    match img.webViewLink
    case None => img
    case Some(link) => img.(webViewLink := Some(ReplaceAll(link, ViewPattern, PreviewText)))
  }

  /** The rewrite of a whole listing, record by record. */
  function RewriteAll(images: seq<Image>): (r: seq<Image>)
    ensures |r| == |images|
    ensures forall i :: 0 <= i < |images| ==> r[i] == RewriteImage(images[i])
  {
    if images == [] then [] else [RewriteImage(images[0])] + RewriteAll(images[1..])
  }

  /** The loop of gdrive_client.py:122-126, which updates each image record
      of the listing in place. */
  method RewriteViewLinks(images: array<Image>)
    modifies images
    ensures images[..] == RewriteAll(old(images[..]))
  {
    for i := 0 to images.Length
      invariant forall k :: 0 <= k < i ==> images[k] == RewriteImage(old(images[k]))
      invariant forall k :: i <= k < images.Length ==> images[k] == old(images[k])
    {
      var img := images[i];
      if img.webViewLink.Some? {
        images[i] := img.(webViewLink := Some(ReplaceAll(img.webViewLink.value, ViewPattern, PreviewText)));
      }
    }
  }
}
