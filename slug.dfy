/**
 * The slugifier `hyphenize` (classes/Toc.php:359-379): a fixed pipeline of
 * regular-expression rewrites applied to the transliterated heading text.
 * Transliteration (`iconv`) is supplied by the host; everything from
 * `htmlspecialchars_decode` on is modelled here, one function per rewrite.
 */
module Slug {
  import opened Text

  /** `htmlspecialchars_decode`, restricted to `&amp; &lt; &gt; &quot;`, in one left-to-right pass. */
  function DecodeEntities(s: string): string
    decreases |s|
  {
    if |s| == 0 then []
    else if s[0] != '&' then [s[0]] + DecodeEntities(s[1..])
    else if |s| >= 5 && s[..5] == "&amp;" then "&" + DecodeEntities(s[5..])
    else if |s| >= 4 && s[..4] == "&lt;" then "<" + DecodeEntities(s[4..])
    else if |s| >= 4 && s[..4] == "&gt;" then ">" + DecodeEntities(s[4..])
    else if |s| >= 6 && s[..6] == "&quot;" then "\"" + DecodeEntities(s[6..])
    else [s[0]] + DecodeEntities(s[1..])
  }

  predicate NoUpper(s: string) {
    forall i :: 0 <= i < |s| ==> !IsUpper(s[i])
  }

  /** Length of the leading run of capitals. */
  function UpperRun(s: string): (n: nat)
    ensures n <= |s|
  {
    if |s| == 0 || !IsUpper(s[0]) then 0 else 1 + UpperRun(s[1..])
  }

  /** The run is all capitals and stops at the first character that is not one. */
  lemma {:induction false} UpperRunShape(s: string)
    ensures forall i :: 0 <= i < UpperRun(s) ==> IsUpper(s[i])
    ensures UpperRun(s) < |s| ==> !IsUpper(s[UpperRun(s)])
    decreases |s|
  {
    if |s| > 0 && IsUpper(s[0]) {
      UpperRunShape(s[1..]);
      assert forall i :: 1 <= i < |s| ==> s[1..][i - 1] == s[i];
    }
  }

  /**
   * `preg_replace('/([A-Z]+)([A-Z][a-z])/', '\1-\2', $s)`: a run of two or
   * more capitals followed by a small letter is cut before its last capital.
   * With greedy `[A-Z]+` the only match starting at a run is the whole run
   * followed by a small letter; a failed match at the run's start fails at
   * every later start inside the run, so one character is emitted and the
   * search resumes after it.
   */
  function SplitAcronyms(s: string): string
    decreases |s|
  {
    if |s| == 0 then []
    else
      var q := UpperRun(s);
      if 2 <= q < |s| && IsLower(s[q]) then s[..q - 1] + "-" + s[q - 1..q + 1] + SplitAcronyms(s[q + 1..])
      else [s[0]] + SplitAcronyms(s[1..])
  }

  /**
   * `preg_replace('/([a-zd])([A-Z])/', '\1-\2', $s)`: a small letter followed
   * by a capital is split. The class `[a-zd]` is the small letters only (the
   * `d` is a letter, not `\d`), so a digit before a capital is not split.
   */
  function SplitCamel(s: string): (r: string)
    ensures NoUpper(s) ==> r == s
    ensures (forall i :: 0 <= i < |s| - 1 ==> !(IsLower(s[i]) && IsUpper(s[i + 1]))) ==> r == s
    decreases |s|
  {
    if |s| < 2 then s
    else if IsLower(s[0]) && IsUpper(s[1]) then [s[0], '-', s[1]] + SplitCamel(s[2..])
    else [s[0]] + SplitCamel(s[1..])
  }

  /** The characters of `(?:[\s_-]|\.)`. */
  const Separators: set<char> := {' ', '\t', '\n', '\U{0B}', '\U{0C}', '\r', '_', '-', '.'}

  predicate NoDoubleDash(s: string) {
    forall i, j :: 0 <= i && j == i + 1 < |s| ==> !(s[i] == '-' && s[j] == '-')
  }

  /** Every separator in `s` is a lone `-`. */
  predicate LoneDashesOnly(s: string) {
    NoDoubleDash(s) && forall i :: 0 <= i < |s| ==> (s[i] in Separators ==> s[i] == '-')
  }

  /** `preg_replace('/(?:[\s_-]|\.)+/', '-', $s)`: each run of separators becomes one `-`. */
  function CollapseSeparators(s: string): string
    decreases |s|
  {
    if |s| == 0 then []
    else if s[0] in Separators then
      var n := LeadingRun(s, Separators);
      "-" + CollapseSeparators(s[n..])
    else [s[0]] + CollapseSeparators(s[1..])
  }

  predicate IsSlugChar(c: char) { IsAlpha(c) || IsDigit(c) || c == '-' }

  predicate AllSlugChars(s: string) {
    forall i :: 0 <= i < |s| ==> IsSlugChar(s[i])
  }

  /** `preg_replace('/[^a-zA-Z0-9\-]/', '', $s)`. */
  function KeepSlugChars(s: string): (r: string)
    ensures AllSlugChars(r)
    ensures AllSlugChars(s) ==> r == s
  {
    if |s| == 0 then []
    else if IsSlugChar(s[0]) then [s[0]] + KeepSlugChars(s[1..])
    else KeepSlugChars(s[1..])
  }

  /** `preg_replace('/(-)\1+/', '-', $s)`: each run of dashes becomes one. */
  function SqueezeDashes(s: string): string
    decreases |s|
  {
    if |s| == 0 then []
    else if s[0] == '-' then
      var n := LeadingRun(s, {'-'});
      "-" + SqueezeDashes(s[n..])
    else [s[0]] + SqueezeDashes(s[1..])
  }

  /** `preg_replace('/-&-/', '--', $s)`. */
  function FixAmpersand(s: string): (r: string)
    ensures '&' !in s ==> r == s
    decreases |s|
  {
    if |s| < 3 then s
    else if s[..3] == "-&-" then
      assert s[..3][1] == s[1];
      "--" + FixAmpersand(s[3..])
    else [s[0]] + FixAmpersand(s[1..])
  }

  /** The characters `trim($s, '.-_ ')` strips. */
  const TrimmedEnds: set<char> := {'.', '-', '_', ' '}

  /** A slug as `hyphenize` produces it: `[a-z0-9-]`, no `-` at either end, no `--`. */
  predicate IsSlug(s: string) {
    && (forall i :: 0 <= i < |s| ==> IsLower(s[i]) || IsDigit(s[i]) || s[i] == '-')
    && (|s| > 0 ==> s[0] != '-' && s[|s| - 1] != '-')
    && NoDoubleDash(s)
  }

  /** `hyphenize` applied to already transliterated text. */
  function Hyphenize(s: string): string {
    var squeezed := SqueezeDashes(KeepSlugChars(CollapseSeparators(SplitCamel(SplitAcronyms(DecodeEntities(s))))));
    Lower(Trim(FixAmpersand(squeezed), TrimmedEnds))
  }

  /** What `hyphenize` returns is a slug. */
  lemma HyphenizeIsSlug(s: string)
    ensures IsSlug(Hyphenize(s))
  {
    var kept := KeepSlugChars(CollapseSeparators(SplitCamel(SplitAcronyms(DecodeEntities(s)))));
    var squeezed := SqueezeDashes(kept);
    SqueezeShape(kept);
    assert '&' !in squeezed by {
      assert forall i :: 0 <= i < |squeezed| ==> IsSlugChar(squeezed[i]);
    }
    var trimmed := Trim(FixAmpersand(squeezed), TrimmedEnds);
    TrimKeepsShape(squeezed, TrimmedEnds);
    LowerKeepsShape(trimmed);
  }

  lemma TrimKeepsShape(s: string, cut: set<char>)
    requires AllSlugChars(s) && NoDoubleDash(s) && '-' in cut
    ensures var t := Trim(s, cut); AllSlugChars(t) && NoDoubleDash(t) && (|t| > 0 ==> t[0] != '-' && t[|t| - 1] != '-')
  {
    var t := Trim(s, cut);
    var i, j := TrimCutsOnlyListed(s, cut);
    SliceKeepsShape(s, i, j);
  }

  lemma SliceKeepsShape(s: string, i: nat, j: nat)
    requires AllSlugChars(s) && NoDoubleDash(s) && i <= j <= |s|
    ensures AllSlugChars(s[i..j]) && NoDoubleDash(s[i..j])
  {
    var t := s[i..j];
    assert forall k :: 0 <= k < |t| ==> t[k] == s[i + k];
  }

  lemma LowerKeepsShape(s: string)
    requires AllSlugChars(s) && NoDoubleDash(s) && (|s| > 0 ==> s[0] != '-' && s[|s| - 1] != '-')
    ensures IsSlug(Lower(s))
  {
  }

  /** A slug is left unchanged by every step of the pipeline. */
  lemma {:induction false} HyphenizeFixesSlugs(s: string)
    requires IsSlug(s)
    ensures Hyphenize(s) == s
  {
    SlugPassesFront(s);
    SlugPassesMiddle(s);
    SlugPassesEnd(s);
  }

  lemma SlugPassesFront(s: string)
    requires IsSlug(s)
    ensures SplitCamel(SplitAcronyms(DecodeEntities(s))) == s
  {
    assert '&' !in s by {
      assert forall i :: 0 <= i < |s| ==> s[i] != '&';
    }
    DecodeKeepsPlain(s, []);
    assert s + [] == s;
    assert NoUpper(s);
    SplitAcronymsFixes(s);
  }

  lemma SlugPassesMiddle(s: string)
    requires IsSlug(s)
    ensures SqueezeDashes(KeepSlugChars(CollapseSeparators(s))) == s
  {
    assert LoneDashesOnly(s);
    CollapseFixes(s);
    assert AllSlugChars(s);
    SqueezeFixes(s);
  }

  lemma SlugPassesEnd(s: string)
    requires IsSlug(s)
    ensures Lower(Trim(FixAmpersand(s), TrimmedEnds)) == s
  {
    assert '&' !in s by {
      assert forall i :: 0 <= i < |s| ==> s[i] != '&';
    }
    assert Trim(s, TrimmedEnds) == s;
  }

  /** Slugifying a slug gives the same slug. */
  lemma {:induction false} HyphenizeIdempotent(s: string)
    ensures Hyphenize(Hyphenize(s)) == Hyphenize(s)
  {
    HyphenizeIsSlug(s);
    HyphenizeFixesSlugs(Hyphenize(s));
  }

  /**
   * A reference for the rewrites that work character by character:
   * `piece(s, k)` is what position `k` of `s` becomes, looking at its
   * neighbours, and the result is the pieces in order.
   */
  function PerPosition(s: string, i: nat, piece: (string, nat) -> string): string
    requires i <= |s|
    decreases |s| - i
  {
    if i == |s| then [] else piece(s, i) + PerPosition(s, i + 1, piece)
  }

  lemma {:induction false} PerPositionCopies(s: string, i: nat, j: nat, piece: (string, nat) -> string)
    requires i <= j <= |s|
    requires forall k :: i <= k < j ==> piece(s, k) == [s[k]]
    ensures PerPosition(s, i, piece) == s[i..j] + PerPosition(s, j, piece)
    decreases j - i
  {
    if i < j {
      PerPositionCopies(s, i + 1, j, piece);
      PerPositionStep(s, i, i + 1, piece);
      SliceCons(s, i, j);
      Associative([s[i]], s[i + 1..j], PerPosition(s, j, piece));
    }
  }

  lemma {:induction false} PerPositionDrops(s: string, i: nat, j: nat, piece: (string, nat) -> string)
    requires i <= j <= |s|
    requires forall k :: i <= k < j ==> piece(s, k) == []
    ensures PerPosition(s, i, piece) == PerPosition(s, j, piece)
    decreases j - i
  {
    if i < j {
      PerPositionDrops(s, i + 1, j, piece);
    }
  }

  /** A run of `n` positions whose first piece is `-` and whose other pieces are empty. */
  lemma PerPositionDash(s: string, i: nat, n: nat, piece: (string, nat) -> string)
    requires 0 < n && i + n <= |s| && piece(s, i) == "-"
    requires forall k :: i + 1 <= k < i + n ==> piece(s, k) == []
    ensures PerPosition(s, i, piece) == "-" + PerPosition(s, i + n, piece)
  {
    PerPositionStep(s, i, i + 1, piece);
    PerPositionDrops(s, i + 1, i + n, piece);
  }

  /** A dash goes before the last capital of a run of two or more that a small letter follows. */
  predicate AcronymCut(s: string, k: nat) {
    1 <= k && k + 1 < |s| && IsUpper(s[k - 1]) && IsUpper(s[k]) && IsLower(s[k + 1])
  }

  function AcronymPiece(s: string, k: nat): string {
    if k < |s| then (if AcronymCut(s, k) then "-" else "") + [s[k]] else ""
  }

  /** A dash goes before a capital that follows a small letter (never one that follows a digit). */
  predicate CamelCut(s: string, k: nat) {
    1 <= k < |s| && IsLower(s[k - 1]) && IsUpper(s[k])
  }

  function CamelPiece(s: string, k: nat): string {
    if k < |s| then (if CamelCut(s, k) then "-" else "") + [s[k]] else ""
  }

  /** The first separator of a run becomes `-`, the others vanish, everything else is kept. */
  function CollapsePiece(s: string, k: nat): string {
    if k >= |s| then ""
    else if s[k] !in Separators then [s[k]]
    else if k > 0 && s[k - 1] in Separators then ""
    else "-"
  }

  /** A slug character is kept, anything else dropped. */
  function KeepPiece(s: string, k: nat): string {
    if k < |s| && IsSlugChar(s[k]) then [s[k]] else ""
  }

  /** A dash right after a dash vanishes, everything else is kept. */
  function SqueezePiece(s: string, k: nat): string {
    if k >= |s| then ""
    else if s[k] == '-' && k > 0 && s[k - 1] == '-' then ""
    else [s[k]]
  }

  lemma {:induction false} SplitAcronymsFrom(s: string, i: nat)
    requires i <= |s| && !AcronymCut(s, i)
    ensures SplitAcronyms(s[i..]) == PerPosition(s, i, AcronymPiece)
    decreases |s| - i
  {
    if i < |s| {
      var j, x := AcronymStep(s, i);
      SplitAcronymsFrom(s, j);
    } else {
      assert s[i..] == [];
    }
  }

  /** One step of the acronym split, on both sides: the same text `x` is emitted before position `j`. */
  lemma AcronymStep(s: string, i: nat) returns (j: nat, x: string)
    requires i < |s| && !AcronymCut(s, i)
    ensures i < j <= |s| && !AcronymCut(s, j)
    ensures SplitAcronyms(s[i..]) == x + SplitAcronyms(s[j..])
    ensures PerPosition(s, i, AcronymPiece) == x + PerPosition(s, j, AcronymPiece)
  {
    var q := UpperRun(s[i..]);
    UpperRunAt(s, i);
    if i + q < |s| && 2 <= q && IsLower(s[i + q]) {
      j, x := AcronymStepMatch(s, i, q);
    } else {
      j, x := AcronymStepMiss(s, i, q);
    }
  }

  lemma AcronymStepMatch(s: string, i: nat, q: nat) returns (j: nat, x: string)
    requires i + q < |s| && 2 <= q && q == UpperRun(s[i..]) && IsLower(s[i + q]) && !AcronymCut(s, i)
    requires forall k :: i <= k < i + q ==> IsUpper(s[k])
    ensures i < j <= |s| && !AcronymCut(s, j)
    ensures SplitAcronyms(s[i..]) == x + SplitAcronyms(s[j..])
    ensures PerPosition(s, i, AcronymPiece) == x + PerPosition(s, j, AcronymPiece)
  {
    j, x := i + q + 1, s[i..i + q - 1] + "-" + [s[i + q - 1], s[i + q]];
    AcronymMatch(s, i, q, j, x);
    AcronymMatchPieces(s, i, q, j, x);
  }

  lemma AcronymStepMiss(s: string, i: nat, q: nat) returns (j: nat, x: string)
    requires i < |s| && q == UpperRun(s[i..]) && !(i + q < |s| && 2 <= q && IsLower(s[i + q])) && !AcronymCut(s, i)
    requires i + q <= |s| && (forall k :: i <= k < i + q ==> IsUpper(s[k])) && (i + q < |s| ==> !IsUpper(s[i + q]))
    ensures i < j <= |s| && !AcronymCut(s, j)
    ensures SplitAcronyms(s[i..]) == x + SplitAcronyms(s[j..])
    ensures PerPosition(s, i, AcronymPiece) == x + PerPosition(s, j, AcronymPiece)
  {
    AcronymMiss(s, i, q);
    PerPositionStep(s, i, i + 1, AcronymPiece);
    assert AcronymPiece(s, i) == [s[i]];
    j, x := i + 1, [s[i]];
  }

  lemma UpperRunAt(s: string, i: nat)
    requires i < |s|
    ensures var q := UpperRun(s[i..]);
      && i + q <= |s| && (forall k :: i <= k < i + q ==> IsUpper(s[k]))
      && (i + q < |s| ==> !IsUpper(s[i + q]))
  {
    var t := s[i..];
    UpperRunShape(t);
    assert forall k :: i <= k < |s| ==> s[k] == t[k - i];
  }

  lemma AcronymMatch(s: string, i: nat, q: nat, j: nat, x: string)
    requires i + q < |s| && 2 <= q && q == UpperRun(s[i..]) && IsLower(s[i + q]) && j == i + q + 1
    requires x == s[i..i + q - 1] + "-" + [s[i + q - 1], s[i + q]]
    ensures SplitAcronyms(s[i..]) == x + SplitAcronyms(s[j..])
  {
    var t := s[i..];
    assert t[q] == s[i + q];
    AcronymUnfold(t, q);
    TakeOfSuffix(s, i, q - 1, i + q - 1);
    SliceOfSuffix(s, i, q - 1, q + 1, i + q - 1, j);
    DropOfSuffix(s, i, q + 1, j);
    SlicePair(s, i + q - 1, i + q, j);
  }

  lemma AcronymUnfold(t: string, q: nat)
    requires 2 <= q < |t| && q == UpperRun(t) && IsLower(t[q])
    ensures SplitAcronyms(t) == t[..q - 1] + "-" + t[q - 1..q + 1] + SplitAcronyms(t[q + 1..])
  {
    AcronymFirstMatch(t);
  }

  /** The first step of the split where a match starts (stated on `UpperRun(t)` itself, which keeps it cheap). */
  lemma AcronymFirstMatch(t: string)
    requires 2 <= UpperRun(t) < |t| && IsLower(t[UpperRun(t)])
    ensures SplitAcronyms(t) == t[..UpperRun(t) - 1] + "-" + t[UpperRun(t) - 1..UpperRun(t) + 1] + SplitAcronyms(t[UpperRun(t) + 1..])
  {
  }

  lemma AcronymMiss(s: string, i: nat, q: nat)
    requires i < |s| && q == UpperRun(s[i..]) && !(i + q < |s| && 2 <= q && IsLower(s[i + q]))
    requires i + q <= |s| && (forall k :: i <= k < i + q ==> IsUpper(s[k])) && (i + q < |s| ==> !IsUpper(s[i + q]))
    ensures SplitAcronyms(s[i..]) == [s[i]] + SplitAcronyms(s[i + 1..])
    ensures !AcronymCut(s, i + 1)
  {
    var t := s[i..];
    assert t[0] == s[i] && t[1..] == s[i + 1..];
    if q < |t| {
      assert t[q] == s[i + q];
    }
  }

  lemma AcronymMatchPieces(s: string, i: nat, q: nat, j: nat, x: string)
    requires i + q < |s| && 2 <= q && IsLower(s[i + q]) && !AcronymCut(s, i) && j == i + q + 1
    requires forall k :: i <= k < i + q ==> IsUpper(s[k])
    requires x == s[i..i + q - 1] + "-" + [s[i + q - 1], s[i + q]]
    ensures PerPosition(s, i, AcronymPiece) == x + PerPosition(s, j, AcronymPiece)
    ensures !AcronymCut(s, j)
  {
    AcronymRunCopies(s, i, q);
    PerPositionCopies(s, i, i + q - 1, AcronymPiece);
    AcronymCutPieces(s, i + q - 1, i + q, j);
    Regroup(s[i..i + q - 1], "-", [s[i + q - 1], s[i + q]], PerPosition(s, j, AcronymPiece));
  }

  /** At a cut, the dash and the capital, then the small letter, which is copied. */
  lemma AcronymCutPieces(s: string, k: nat, m: nat, l: nat)
    requires AcronymCut(s, k) && m == k + 1 && l == k + 2
    ensures PerPosition(s, k, AcronymPiece) == "-" + [s[k], s[m]] + PerPosition(s, l, AcronymPiece)
    ensures !AcronymCut(s, l)
  {
    assert AcronymPiece(s, k) == "-" + [s[k]];
    assert AcronymPiece(s, m) == [s[m]];
    PerPositionStep(s, k, m, AcronymPiece);
    PerPositionStep(s, m, l, AcronymPiece);
  }

  lemma AcronymRunCopies(s: string, i: nat, q: nat)
    requires i + q < |s| && 2 <= q && !AcronymCut(s, i)
    requires forall k :: i <= k < i + q ==> IsUpper(s[k])
    ensures forall k :: i <= k < i + q - 1 ==> AcronymPiece(s, k) == [s[k]]
  {
    forall k | i <= k < i + q - 1 ensures AcronymPiece(s, k) == [s[k]] {
      assert k == i || IsUpper(s[k + 1]);
    }
  }

  /** The acronym split puts a dash before exactly the positions `AcronymCut` names. */
  lemma SplitAcronymsCuts(s: string)
    ensures SplitAcronyms(s) == PerPosition(s, 0, AcronymPiece)
  {
    assert s[0..] == s;
    SplitAcronymsFrom(s, 0);
  }

  lemma {:induction false} SplitCamelFrom(s: string, i: nat)
    requires i <= |s| && !CamelCut(s, i)
    ensures SplitCamel(s[i..]) == PerPosition(s, i, CamelPiece)
    decreases |s| - i
  {
    if i < |s| {
      if i + 1 < |s| && IsLower(s[i]) && IsUpper(s[i + 1]) {
        CamelStepCut(s, i);
        SplitCamelFrom(s, i + 2);
      } else {
        CamelStepKeep(s, i);
        SplitCamelFrom(s, i + 1);
      }
    } else {
      assert s[i..] == [];
    }
  }

  lemma CamelStepCut(s: string, i: nat)
    requires i + 1 < |s| && IsLower(s[i]) && IsUpper(s[i + 1]) && !CamelCut(s, i)
    ensures SplitCamel(s[i..]) == [s[i], '-', s[i + 1]] + SplitCamel(s[i + 2..])
    ensures PerPosition(s, i, CamelPiece) == [s[i], '-', s[i + 1]] + PerPosition(s, i + 2, CamelPiece)
    ensures !CamelCut(s, i + 2)
  {
    CamelCutSource(s, i);
    CamelCutPieces(s, i);
  }

  lemma CamelCutSource(s: string, i: nat)
    requires i + 1 < |s| && IsLower(s[i]) && IsUpper(s[i + 1])
    ensures SplitCamel(s[i..]) == [s[i], '-', s[i + 1]] + SplitCamel(s[i + 2..])
  {
    var t := s[i..];
    assert t[0] == s[i] && t[1] == s[i + 1];
    DropOfSuffix(s, i, 2, i + 2);
  }

  lemma CamelCutPieces(s: string, i: nat)
    requires i + 1 < |s| && IsLower(s[i]) && IsUpper(s[i + 1]) && !CamelCut(s, i)
    ensures PerPosition(s, i, CamelPiece) == [s[i], '-', s[i + 1]] + PerPosition(s, i + 2, CamelPiece)
  {
    assert CamelPiece(s, i) == [s[i]];
    assert CamelPiece(s, i + 1) == "-" + [s[i + 1]];
    PerPositionStep(s, i, i + 1, CamelPiece);
    PerPositionStep(s, i + 1, i + 2, CamelPiece);
    Regroup([s[i]], "-", [s[i + 1]], PerPosition(s, i + 2, CamelPiece));
    assert [s[i]] + "-" + [s[i + 1]] == [s[i], '-', s[i + 1]];
  }

  lemma CamelStepKeep(s: string, i: nat)
    requires i < |s| && !(i + 1 < |s| && IsLower(s[i]) && IsUpper(s[i + 1])) && !CamelCut(s, i)
    ensures SplitCamel(s[i..]) == [s[i]] + SplitCamel(s[i + 1..])
    ensures PerPosition(s, i, CamelPiece) == [s[i]] + PerPosition(s, i + 1, CamelPiece)
    ensures !CamelCut(s, i + 1)
  {
    var t := s[i..];
    assert t[0] == s[i] && t[1..] == s[i + 1..];
    if |t| >= 2 {
      assert t[1] == s[i + 1];
    }
    assert CamelPiece(s, i) == [s[i]];
    PerPositionStep(s, i, i + 1, CamelPiece);
  }

  /** The camel-case split puts a dash before exactly the positions `CamelCut` names: a digit before a capital is never split. */
  lemma SplitCamelCuts(s: string)
    ensures SplitCamel(s) == PerPosition(s, 0, CamelPiece)
  {
    assert s[0..] == s;
    SplitCamelFrom(s, 0);
  }

  lemma {:induction false} CollapseFrom(s: string, i: nat)
    requires i <= |s| && (0 < i < |s| ==> s[i - 1] !in Separators || s[i] !in Separators)
    ensures CollapseSeparators(s[i..]) == PerPosition(s, i, CollapsePiece)
    decreases |s| - i
  {
    if i < |s| {
      var j, x := CollapseStep(s, i);
      CollapseFrom(s, j);
    } else {
      assert s[i..] == [];
    }
  }

  /** One step of the rewrite from `i`: a run of separators, or one other character. */
  lemma CollapseStep(s: string, i: nat) returns (j: nat, x: string)
    requires i < |s| && (0 < i ==> s[i - 1] !in Separators || s[i] !in Separators)
    ensures i < j <= |s| && (j < |s| ==> s[j - 1] !in Separators || s[j] !in Separators)
    ensures CollapseSeparators(s[i..]) == x + CollapseSeparators(s[j..])
    ensures PerPosition(s, i, CollapsePiece) == x + PerPosition(s, j, CollapsePiece)
  {
    if s[i] in Separators {
      var n := RunAt(s, i, Separators);
      CollapseRun(s, i, n);
      j, x := i + n, "-";
    } else {
      CollapseKeep(s, i);
      j, x := i + 1, [s[i]];
    }
  }

  lemma CollapseRun(s: string, i: nat, n: nat)
    requires i < |s| && (0 < i ==> s[i - 1] !in Separators) && 0 < n && i + n <= |s|
    requires n == LeadingRun(s[i..], Separators) && s[i..][n..] == s[i + n..]
    requires forall k :: i <= k < i + n ==> s[k] in Separators
    ensures CollapseSeparators(s[i..]) == "-" + CollapseSeparators(s[i + n..])
    ensures PerPosition(s, i, CollapsePiece) == "-" + PerPosition(s, i + n, CollapsePiece)
  {
    CollapseRunSource(s, i, n);
    CollapseRunPieces(s, i, n);
    PerPositionDash(s, i, n, CollapsePiece);
  }

  lemma CollapseRunSource(s: string, i: nat, n: nat)
    requires i < |s| && s[i] in Separators && n == LeadingRun(s[i..], Separators) && s[i..][n..] == s[i + n..]
    ensures CollapseSeparators(s[i..]) == "-" + CollapseSeparators(s[i + n..])
  {
    assert s[i..][0] == s[i];
  }

  lemma CollapseRunPieces(s: string, i: nat, n: nat)
    requires i < |s| && (0 < i ==> s[i - 1] !in Separators) && 0 < n && i + n <= |s|
    requires forall k :: i <= k < i + n ==> s[k] in Separators
    ensures CollapsePiece(s, i) == "-"
    ensures forall k :: i + 1 <= k < i + n ==> CollapsePiece(s, k) == []
  {
  }

  lemma PerPositionStep(s: string, i: nat, n: nat, piece: (string, nat) -> string)
    requires i < |s| && n == i + 1
    ensures PerPosition(s, i, piece) == piece(s, i) + PerPosition(s, n, piece)
  {
  }

  lemma CollapseKeep(s: string, i: nat)
    requires i < |s| && s[i] !in Separators
    ensures CollapseSeparators(s[i..]) == [s[i]] + CollapseSeparators(s[i + 1..])
    ensures PerPosition(s, i, CollapsePiece) == [s[i]] + PerPosition(s, i + 1, CollapsePiece)
  {
    assert s[i..][0] == s[i] && s[i..][1..] == s[i + 1..];
    assert CollapsePiece(s, i) == [s[i]];
  }

  /** The run of `cut` characters at `i`, as `LeadingRun` measures it on the suffix. */
  lemma RunAt(s: string, i: nat, cut: set<char>) returns (n: nat)
    requires i < |s| && s[i] in cut
    ensures n == LeadingRun(s[i..], cut) && 0 < n && i + n <= |s|
    ensures forall k :: i <= k < i + n ==> s[k] in cut
    ensures i + n < |s| ==> s[i + n] !in cut
    ensures s[i..][n..] == s[i + n..]
  {
    var t := s[i..];
    n := LeadingRun(t, cut);
    assert forall k :: i <= k < |s| ==> s[k] == t[k - i];
  }

  /** Each run of separators becomes one `-` and every other character is kept, in order. */
  lemma CollapseRuns(s: string)
    ensures CollapseSeparators(s) == PerPosition(s, 0, CollapsePiece)
  {
    assert s[0..] == s;
    CollapseFrom(s, 0);
  }

  lemma {:induction false} KeepFrom(s: string, i: nat)
    requires i <= |s|
    ensures KeepSlugChars(s[i..]) == PerPosition(s, i, KeepPiece)
    decreases |s| - i
  {
    if i < |s| {
      assert s[i..][1..] == s[i + 1..];
      KeepFrom(s, i + 1);
    }
  }

  /** Every slug character of the input survives, in order, and nothing else does. */
  lemma KeepsSlugChars(s: string)
    ensures KeepSlugChars(s) == PerPosition(s, 0, KeepPiece)
  {
    assert s[0..] == s;
    KeepFrom(s, 0);
  }

  lemma {:induction false} SqueezeFrom(s: string, i: nat)
    requires i <= |s| && (0 < i < |s| ==> s[i - 1] != '-' || s[i] != '-')
    ensures SqueezeDashes(s[i..]) == PerPosition(s, i, SqueezePiece)
    decreases |s| - i
  {
    if i < |s| {
      if s[i] == '-' {
        var n := RunAt(s, i, {'-'});
        SqueezeRun(s, i, n);
        SqueezeFrom(s, i + n);
      } else {
        SqueezeKeep(s, i);
        SqueezeFrom(s, i + 1);
      }
    } else {
      assert s[i..] == [];
    }
  }

  lemma SqueezeRun(s: string, i: nat, n: nat)
    requires i < |s| && (0 < i ==> s[i - 1] != '-') && 0 < n && i + n <= |s|
    requires n == LeadingRun(s[i..], {'-'}) && s[i..][n..] == s[i + n..]
    requires forall k :: i <= k < i + n ==> s[k] == '-'
    ensures SqueezeDashes(s[i..]) == "-" + SqueezeDashes(s[i + n..])
    ensures PerPosition(s, i, SqueezePiece) == "-" + PerPosition(s, i + n, SqueezePiece)
  {
    SqueezeRunSource(s, i, n);
    SqueezeRunPieces(s, i, n);
    PerPositionDash(s, i, n, SqueezePiece);
  }

  lemma SqueezeRunSource(s: string, i: nat, n: nat)
    requires i < |s| && s[i] == '-' && n == LeadingRun(s[i..], {'-'}) && s[i..][n..] == s[i + n..]
    ensures SqueezeDashes(s[i..]) == "-" + SqueezeDashes(s[i + n..])
  {
    assert s[i..][0] == s[i];
  }

  lemma SqueezeRunPieces(s: string, i: nat, n: nat)
    requires i < |s| && (0 < i ==> s[i - 1] != '-') && 0 < n && i + n <= |s|
    requires forall k :: i <= k < i + n ==> s[k] == '-'
    ensures SqueezePiece(s, i) == "-"
    ensures forall k :: i + 1 <= k < i + n ==> SqueezePiece(s, k) == []
  {
  }

  lemma SqueezeKeep(s: string, i: nat)
    requires i < |s| && s[i] != '-'
    ensures SqueezeDashes(s[i..]) == [s[i]] + SqueezeDashes(s[i + 1..])
    ensures PerPosition(s, i, SqueezePiece) == [s[i]] + PerPosition(s, i + 1, SqueezePiece)
  {
    assert s[i..][0] == s[i] && s[i..][1..] == s[i + 1..];
    assert SqueezePiece(s, i) == [s[i]];
  }

  /** Only the dashes that follow a dash are removed; every other character is kept, in order. */
  lemma SqueezesRuns(s: string)
    ensures SqueezeDashes(s) == PerPosition(s, 0, SqueezePiece)
  {
    assert s[0..] == s;
    SqueezeFrom(s, 0);
  }

  /** `-&-` is rewritten to `--` where it first occurs, and the search resumes after it. */
  lemma {:induction false} FixAmpersandRewrites(a: string, b: string)
    requires '&' !in a
    ensures FixAmpersand(a + "-&-" + b) == a + "--" + FixAmpersand(b)
    decreases |a|
  {
    if |a| == 0 {
      var s := a + "-&-" + b;
      assert s == "-&-" + b && s[..3] == "-&-" && s[3..] == b;
    } else {
      AmpersandKeepsHead(a, b);
      FixAmpersandRewrites(a[1..], b);
      Regroup([a[0]], a[1..], "--", FixAmpersand(b));
      assert [a[0]] + a[1..] == a;
    }
  }

  lemma AmpersandKeepsHead(a: string, b: string)
    requires '&' !in a && |a| > 0
    ensures FixAmpersand(a + "-&-" + b) == [a[0]] + FixAmpersand(a[1..] + "-&-" + b)
  {
    var s := a + "-&-" + b;
    assert s[1] != '&' by {
      if |a| > 1 {
        assert s[1] == a[1];
      }
    }
    assert s[..3] != "-&-" by {
      assert s[..3][1] == s[1];
    }
    assert s[1..] == a[1..] + "-&-" + b;
  }

  /**
   * The `-&-` rewrite never fires inside `hyphenize`: only slug characters
   * reach it, so the exception for `&` is dead code.
   */
  lemma AmpersandNeverReached(x: string)
    ensures var squeezed := SqueezeDashes(KeepSlugChars(x)); FixAmpersand(squeezed) == squeezed
  {
    var squeezed := SqueezeDashes(KeepSlugChars(x));
    SqueezeShape(KeepSlugChars(x));
    assert '&' !in squeezed by {
      assert forall i :: 0 <= i < |squeezed| ==> IsSlugChar(squeezed[i]);
    }
  }

  lemma {:induction false} DecodeKeepsPlain(a: string, b: string)
    requires '&' !in a
    ensures DecodeEntities(a + b) == a + DecodeEntities(b)
    decreases |a|
  {
    if |a| > 0 {
      var x := a + b;
      assert a[0] in a;
      assert '&' !in a[1..] by {
        assert forall k :: 0 <= k < |a[1..]| ==> a[1..][k] == a[k + 1];
      }
      assert x[0] == a[0] && x[1..] == a[1..] + b;
      DecodeStep(x);
      DecodeKeepsPlain(a[1..], b);
      assert a == [a[0]] + a[1..];
    } else {
      assert a + b == b;
    }
  }

  lemma DecodeStep(x: string)
    requires |x| > 0 && x[0] != '&'
    ensures DecodeEntities(x) == [x[0]] + DecodeEntities(x[1..])
  {
  }

  /**
   * In one left-to-right pass, text before the first `&` is kept and each
   * of `&amp; &lt; &gt; &quot;` becomes its character; decoding resumes
   * after the entity, so `&amp;lt;` gives `&lt;`.
   */
  lemma DecodesEntities(a: string, e: string, c: string, b: string)
    requires '&' !in a
    requires (e, c) in {("&amp;", "&"), ("&lt;", "<"), ("&gt;", ">"), ("&quot;", "\"")}
    ensures DecodeEntities(a + e + b) == a + c + DecodeEntities(b)
  {
    DecodeEntity(e, c, b);
    DecodeKeepsPlain(a, e + b);
    Associative(a, e, b);
    Associative(a, c, DecodeEntities(b));
  }

  lemma DecodeEntity(e: string, c: string, b: string)
    requires (e, c) in {("&amp;", "&"), ("&lt;", "<"), ("&gt;", ">"), ("&quot;", "\"")}
    ensures DecodeEntities(e + b) == c + DecodeEntities(b)
  {
    var s := e + b;
    assert s[..|e|] == e && s[|e|..] == b;
    assert s[0] == '&';
    if e != "&amp;" {
      assert s[1] != 'a';
      assert |s| >= 5 ==> s[..5] != "&amp;" by {
        if |s| >= 5 {
          assert s[..5][1] == s[1];
        }
      }
    }
    if e == "&gt;" || e == "&quot;" {
      assert s[..4] != "&lt;" by {
        assert s[..4][1] == s[1];
      }
    }
    if e == "&quot;" {
      assert s[..4] != "&gt;" by {
        assert s[..4][1] == s[1];
      }
    }
  }

  /** What squeezing leaves: the first character, slug characters only when it got only those, and no `--`. */
  lemma {:induction false} SqueezeShape(s: string)
    ensures |s| > 0 ==> |SqueezeDashes(s)| > 0 && SqueezeDashes(s)[0] == s[0]
    ensures NoDoubleDash(SqueezeDashes(s))
    ensures AllSlugChars(s) ==> AllSlugChars(SqueezeDashes(s))
    decreases |s|
  {
    if |s| > 0 {
      var n := if s[0] == '-' then LeadingRun(s, {'-'}) else 1;
      var rest := SqueezeDashes(s[n..]);
      SqueezeShape(s[n..]);
      assert AllSlugChars(s) ==> AllSlugChars(s[n..]) by {
        assert forall k :: 0 <= k < |s[n..]| ==> s[n..][k] == s[n + k];
      }
      assert |rest| > 0 ==> s[0] != '-' || rest[0] != '-';
      ConsNoDoubleDash(s[0], rest);
    }
  }

  lemma ConsNoDoubleDash(c: char, t: string)
    requires NoDoubleDash(t) && (|t| > 0 ==> c != '-' || t[0] != '-')
    ensures NoDoubleDash([c] + t)
  {
    var r := [c] + t;
    forall i, j | 0 <= i && j == i + 1 < |r| ensures !(r[i] == '-' && r[j] == '-') {
      if i > 0 {
        assert r[i] == t[i - 1] && r[j] == t[j - 1];
      }
    }
  }

  /** Where every position is copied, the reference gives the input back. */
  lemma AllCopied(s: string, piece: (string, nat) -> string)
    requires forall k :: 0 <= k < |s| ==> piece(s, k) == [s[k]]
    ensures PerPosition(s, 0, piece) == s
  {
    PerPositionCopies(s, 0, |s|, piece);
    assert s[0..|s|] == s;
  }

  lemma SplitAcronymsFixes(s: string)
    requires NoUpper(s)
    ensures SplitAcronyms(s) == s
  {
    SplitAcronymsCuts(s);
    AllCopied(s, AcronymPiece);
  }

  lemma CollapseFixes(s: string)
    requires LoneDashesOnly(s)
    ensures CollapseSeparators(s) == s
  {
    CollapseRuns(s);
    forall k | 0 <= k < |s| ensures CollapsePiece(s, k) == [s[k]] {
      if k > 0 {
        assert !(s[k - 1] == '-' && s[k] == '-');
      }
    }
    AllCopied(s, CollapsePiece);
  }

  lemma SqueezeFixes(s: string)
    requires NoDoubleDash(s)
    ensures SqueezeDashes(s) == s
  {
    SqueezesRuns(s);
    forall k | 0 <= k < |s| ensures SqueezePiece(s, k) == [s[k]] {
      if k > 0 {
        assert !(s[k - 1] == '-' && s[k] == '-');
      }
    }
    AllCopied(s, SqueezePiece);
  }
}
