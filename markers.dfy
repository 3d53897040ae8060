/**
 * Escaping of the `[TOC]` and `[MINITOC]` placeholders inside heading text
 * (classes/Toc.php, the two `str_ireplace` calls), so that placeholder
 * expansion never fires on the text of a heading.
 */
module Markers {
  import opened Text

  const TocMarker: string := "[TOC]"
  const MiniTocMarker: string := "[MINITOC]"
  const TocEscaped: string := "&#91;TOC&#93;"
  const MiniTocEscaped: string := "&#91;MINITOC&#93;"

  /**
   * PHP's `str_ireplace($pat, $rep, $s)`: the leftmost case-insensitive
   * occurrence is replaced, and the search goes on after it.
   */
  function IReplace(s: string, pat: string, rep: string): string
    requires |pat| > 0
    decreases |s|
  {
    if |s| < |pat| then s
    else if Lower(s[..|pat|]) == Lower(pat) then rep + IReplace(s[|pat|..], pat, rep)
    else [s[0]] + IReplace(s[1..], pat, rep)
  }

  /** `str_ireplace(['[TOC]', '[MINITOC]'], [...], $text)`: the two searches in turn. */
  function EscapeMarkers(text: string): string {
    IReplace(IReplace(text, TocMarker, TocEscaped), MiniTocMarker, MiniTocEscaped)
  }

  /** Escaped text holds neither placeholder, in any case. */
  lemma EscapedHasNoMarker(text: string)
    ensures NoIOccurrence(EscapeMarkers(text), TocMarker)
    ensures NoIOccurrence(EscapeMarkers(text), MiniTocMarker)
  {
    var once := IReplace(text, TocMarker, TocEscaped);
    NoMarkerAfterReplace(text, TocMarker, TocEscaped, TocMarker);
    NoMarkerAfterReplace(once, MiniTocMarker, MiniTocEscaped, MiniTocMarker);
    NoMarkerAfterReplace(once, MiniTocMarker, MiniTocEscaped, TocMarker);
  }

  /** No character of `w` is, ignoring case, the character `c`. */
  predicate Avoids(w: string, c: char) {
    forall i :: 0 <= i < |w| ==> LowerChar(w[i]) != LowerChar(c)
  }

  /**
   * Where the output does not show the replacement's first character, it
   * is the input unchanged.
   */
  lemma {:induction false} PrefixUnchanged(s: string, pat: string, rep: string, k: nat)
    requires |pat| > 0 && |rep| > 0
    requires k <= |IReplace(s, pat, rep)|
    requires Avoids(IReplace(s, pat, rep)[..k], rep[0])
    ensures k <= |s| && IReplace(s, pat, rep)[..k] == s[..k]
    decreases |s|
  {
    var r := IReplace(s, pat, rep);
    if k == 0 || |s| < |pat| {
    } else if Lower(s[..|pat|]) == Lower(pat) {
      ReplacedStartsWithReplacement(s, pat, rep);
      assert false;
    } else {
      var tail := IReplace(s[1..], pat, rep);
      assert r == [s[0]] + tail;
      assert r[..k][1..] == tail[..k - 1];
      PrefixUnchanged(s[1..], pat, rep, k - 1);
    }
  }

  lemma ReplacedStartsWithReplacement(s: string, pat: string, rep: string)
    requires |pat| > 0 && |rep| > 0 && |s| >= |pat| && Lower(s[..|pat|]) == Lower(pat)
    ensures |IReplace(s, pat, rep)| > 0 && IReplace(s, pat, rep)[0] == rep[0]
  {
  }

  lemma OccursInSuffix(s: string, w: string, d: nat, p: int)
    requires d <= |s| && IOccursAt(s[d..], w, p)
    ensures IOccursAt(s, w, d + p)
  {
    assert s[d..][p..p + |w|] == s[d + p..d + p + |w|];
  }

  lemma SuffixHasNone(s: string, w: string, d: nat)
    requires d <= |s| && NoIOccurrence(s, w)
    ensures NoIOccurrence(s[d..], w)
  {
    forall p | 0 <= p <= |s[d..]| ensures !IOccursAt(s[d..], w, p) {
      if IOccursAt(s[d..], w, p) {
        OccursInSuffix(s, w, d, p);
      }
    }
  }

  lemma OccursPastPrefix(a: string, b: string, w: string, p: int)
    requires IOccursAt(a + b, w, p) && p >= |a|
    ensures IOccursAt(b, w, p - |a|)
  {
    assert (a + b)[p..p + |w|] == b[p - |a|..p - |a| + |w|];
  }

  /** An occurrence cannot start inside a text that avoids its first character. */
  lemma NoOccurrenceStartsIn(a: string, b: string, w: string, p: int)
    requires |w| > 0 && Avoids(a, w[0]) && 0 <= p < |a|
    ensures !IOccursAt(a + b, w, p)
  {
    if IOccursAt(a + b, w, p) {
      OccursCharwise(a + b, w, p);
    }
  }

  lemma OccursCharwise(s: string, w: string, p: int)
    ensures IOccursAt(s, w, p) <==>
      0 <= p && p + |w| <= |s| && forall i :: 0 <= i < |w| ==> LowerChar(s[p + i]) == LowerChar(w[i])
  {
    if 0 <= p && p + |w| <= |s| && forall i :: 0 <= i < |w| ==> LowerChar(s[p + i]) == LowerChar(w[i]) {
      assert Lower(s[p..p + |w|]) == Lower(w);
    }
  }

  /**
   * A replacement that shares no character with the start of `w`, and
   * whose first character does not occur in `w`, removes every occurrence
   * of `w` when `w` is the pattern and creates none otherwise.
   */
  lemma {:induction false} NoMarkerAfterReplace(s: string, pat: string, rep: string, w: string)
    requires |pat| > 0 && |rep| > 0 && |w| > 0
    requires Avoids(rep, w[0]) && Avoids(w, rep[0])
    requires w == pat || NoIOccurrence(s, w)
    ensures NoIOccurrence(IReplace(s, pat, rep), w)
    decreases |s|
  {
    var r := IReplace(s, pat, rep);
    if |s| < |pat| {
    } else if Lower(s[..|pat|]) == Lower(pat) {
      var tail := IReplace(s[|pat|..], pat, rep);
      assert r == rep + tail;
      if w != pat {
        SuffixHasNone(s, w, |pat|);
      }
      NoMarkerAfterReplace(s[|pat|..], pat, rep, w);
      forall p | 0 <= p <= |r| ensures !IOccursAt(r, w, p) {
        if p < |rep| {
          NoOccurrenceStartsIn(rep, tail, w, p);
        } else if IOccursAt(r, w, p) {
          OccursPastPrefix(rep, tail, w, p);
        }
      }
    } else {
      var tail := IReplace(s[1..], pat, rep);
      assert r == [s[0]] + tail;
      if w != pat {
        SuffixHasNone(s, w, 1);
      }
      NoMarkerAfterReplace(s[1..], pat, rep, w);
      forall p | 0 <= p <= |r| ensures !IOccursAt(r, w, p) {
        if p == 0 && IOccursAt(r, w, 0) {
          FirstOccurrenceIsOriginal(s, pat, rep, w);
        } else if IOccursAt(r, w, p) {
          OccursPastPrefix([s[0]], tail, w, p);
        }
      }
    }
  }

  /** An occurrence at the very start of the output was already in the input. */
  lemma FirstOccurrenceIsOriginal(s: string, pat: string, rep: string, w: string)
    requires |pat| > 0 && |rep| > 0 && |w| > 0
    requires Avoids(w, rep[0])
    requires |s| >= |pat| && Lower(s[..|pat|]) != Lower(pat)
    requires IOccursAt(IReplace(s, pat, rep), w, 0)
    ensures IOccursAt(s, w, 0)
  {
    var tail := IReplace(s[1..], pat, rep);
    assert IReplace(s, pat, rep) == [s[0]] + tail;
    OccursAfterKeptChar(s, tail, pat, rep, w);
  }

  lemma OccursAfterKeptChar(s: string, tail: string, pat: string, rep: string, w: string)
    requires |pat| > 0 && |rep| > 0 && |w| > 0 && |s| > 0
    requires Avoids(w, rep[0])
    requires tail == IReplace(s[1..], pat, rep)
    requires IOccursAt([s[0]] + tail, w, 0)
    ensures IOccursAt(s, w, 0)
  {
    var r := [s[0]] + tail;
    var k := |w| - 1;
    OccursCharwise(r, w, 0);
    assert Avoids(tail[..k], rep[0]) by {
      forall i | 0 <= i < k ensures LowerChar(tail[..k][i]) != LowerChar(rep[0]) {
        assert r[i + 1] == tail[..k][i];
        assert LowerChar(r[i + 1]) == LowerChar(w[i + 1]);
      }
    }
    PrefixUnchanged(s[1..], pat, rep, k);
    forall i | 0 <= i < |w| ensures LowerChar(s[i]) == LowerChar(w[i]) {
      if i > 0 {
        assert s[i] == s[1..][..k][i - 1];
        assert r[i] == tail[..k][i - 1];
      }
    }
    OccursCharwise(s, w, 0);
  }

  /** Text that holds neither placeholder, in any case. */
  predicate Unmarked(s: string) {
    NoIOccurrence(s, TocMarker) && NoIOccurrence(s, MiniTocMarker)
  }

  /** A character that neither placeholder holds, in any case: no placeholder runs across it. */
  predicate IsStop(c: char) {
    Avoids(TocMarker, c) && Avoids(MiniTocMarker, c)
  }

  /** Every character other than a letter and the two brackets is a stop. */
  lemma NonLetterStops(c: char)
    requires !IsAlpha(c) && c != '[' && c != ']'
    ensures IsStop(c)
  {
  }

  /** Text without `[` holds no placeholder. */
  lemma NoBracketUnmarked(s: string)
    requires forall i :: 0 <= i < |s| ==> s[i] != '['
    ensures Unmarked(s)
  {
    forall p | 0 <= p <= |s| ensures !IOccursAt(s, TocMarker, p) && !IOccursAt(s, MiniTocMarker, p) {
      OccursCharwise(s, TocMarker, p);
      OccursCharwise(s, MiniTocMarker, p);
      if p < |s| {
        assert LowerChar(s[p]) != '[';
      }
    }
  }

  lemma SliceHasNone(s: string, w: string, i: nat, j: nat)
    requires i <= j <= |s| && NoIOccurrence(s, w)
    ensures NoIOccurrence(s[i..j], w)
  {
    forall p | 0 <= p <= |s[i..j]| ensures !IOccursAt(s[i..j], w, p) {
      if IOccursAt(s[i..j], w, p) {
        OccursInSlice(s, w, i, j, p);
      }
    }
  }

  lemma OccursInSlice(s: string, w: string, i: nat, j: nat, p: int)
    requires i <= j <= |s| && IOccursAt(s[i..j], w, p)
    ensures IOccursAt(s, w, i + p)
  {
    var t := s[i..j];
    assert forall k :: 0 <= k < |t| ==> t[k] == s[i + k];
    assert t[p..p + |w|] == s[i + p..i + p + |w|];
  }

  /** A slice of text without placeholders has none. */
  lemma UnmarkedSlice(s: string, i: nat, j: nat)
    requires i <= j <= |s| && Unmarked(s)
    ensures Unmarked(s[i..j])
  {
    SliceHasNone(s, TocMarker, i, j);
    SliceHasNone(s, MiniTocMarker, i, j);
  }

  lemma ConcatHasNone(a: string, b: string, w: string)
    requires NoIOccurrence(a, w) && NoIOccurrence(b, w)
    requires |a| == 0 || |b| == 0 || Avoids(w, a[|a| - 1]) || Avoids(w, b[0])
    ensures NoIOccurrence(a + b, w)
  {
    forall p | 0 <= p <= |a + b| ensures !IOccursAt(a + b, w, p) {
      if IOccursAt(a + b, w, p) {
        if p + |w| <= |a| {
          OccursBeforeSuffix(a, b, w, p);
        } else if p >= |a| {
          OccursPastPrefix(a, b, w, p);
        } else {
          Straddles(a, b, w, p);
        }
      }
    }
  }

  lemma OccursBeforeSuffix(a: string, b: string, w: string, p: int)
    requires IOccursAt(a + b, w, p) && p + |w| <= |a|
    ensures IOccursAt(a, w, p)
  {
    assert (a + b)[p..p + |w|] == a[p..p + |w|];
  }

  /** An occurrence across the seam shows both characters next to it. */
  lemma Straddles(a: string, b: string, w: string, p: int)
    requires IOccursAt(a + b, w, p) && p < |a| < p + |w|
    ensures !Avoids(w, a[|a| - 1]) && !Avoids(w, b[0])
  {
    OccursCharwise(a + b, w, p);
    assert (a + b)[p + (|a| - 1 - p)] == a[|a| - 1];
    assert (a + b)[p + (|a| - p)] == b[0];
  }

  /** Two texts without placeholders, joined at a stop, have none. */
  lemma UnmarkedConcat(a: string, b: string)
    requires Unmarked(a) && Unmarked(b)
    requires |a| == 0 || |b| == 0 || IsStop(a[|a| - 1]) || IsStop(b[0])
    ensures Unmarked(a + b)
  {
    ConcatHasNone(a, b, TocMarker);
    ConcatHasNone(a, b, MiniTocMarker);
  }

  /** Lowercasing creates no placeholder: the search ignores case. */
  lemma UnmarkedLower(s: string)
    requires Unmarked(s)
    ensures Unmarked(Lower(s))
  {
    forall p | 0 <= p <= |s|
      ensures !IOccursAt(Lower(s), TocMarker, p) && !IOccursAt(Lower(s), MiniTocMarker, p)
    {
      OccursLowered(s, TocMarker, p);
      OccursLowered(s, MiniTocMarker, p);
    }
  }

  lemma OccursLowered(s: string, w: string, p: int)
    ensures IOccursAt(Lower(s), w, p) <==> IOccursAt(s, w, p)
  {
    if 0 <= p && p + |w| <= |s| {
      var t := s[p..p + |w|];
      assert Lower(s)[p..p + |w|] == Lower(t);
      assert Lower(Lower(t)) == Lower(t);
    }
  }
}
