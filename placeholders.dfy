/**
 * The placeholder expansion of `process` (classes/Toc.php:194-257): the
 * `[TOC]` and `[MINITOC]` markers of the content are found with the pattern
 * `(<p>)?\s*\[(?:MINI)?TOC\]\s*(?(1)</p>)` (case-insensitive), each gets the
 * slice of the outline it stands for, the content is tocified, and the
 * markers of the tocified content are replaced, in order, by the renderings.
 * The template engine that renders a slice is the `render` parameter.
 */
module Placeholders {
  import opened Wrappers
  import opened Text
  import opened Scanner
  import opened Ids
  import opened Outline
  import opened Rewrite

  datatype Kind = Toc | MiniToc

  /** One match of the placeholder pattern: where it starts, which keyword, where it ends. */
  datatype Marker = Marker(offset: nat, kind: Kind, end: nat)

  /** The bracketed keyword, and the position after its `]`. */
  datatype Keyword = Keyword(kind: Kind, end: nat)

  /** `\[(?:MINI)?TOC\]` at `q`, ignoring case: the optional `MINI` is tried first. */
  function KeywordAt(s: string, q: nat): (r: Option<Keyword>)
    ensures r.Some? ==> q < r.value.end <= |s|
    ensures r.Some? && r.value.kind == Toc ==> IOccursAt(s, "[TOC]", q) && r.value.end == q + 5
    ensures r.Some? && r.value.kind == MiniToc ==> IOccursAt(s, "[MINITOC]", q) && r.value.end == q + 9
    ensures r.None? <==> !IOccursAt(s, "[TOC]", q) && !IOccursAt(s, "[MINITOC]", q)
  {
    if IOccursAt(s, "[MINITOC]", q) then Some(Keyword(MiniToc, q + 9))
    else if IOccursAt(s, "[TOC]", q) then Some(Keyword(Toc, q + 5))
    else None
  }

  /** The pattern with its first group: `<p>`, spaces, the keyword, spaces, and the required `</p>`. */
  function ParagraphAt(s: string, p: nat): (r: Option<Marker>)
    requires p < |s|
    ensures r.Some? ==> r.value.offset == p < r.value.end <= |s|
  {
    if !IOccursAt(s, "<p>", p) then None
    else match KeywordAt(s, SpaceEnd(s, p + 3))
      case None => None
      case Some(k) =>
        var r := SpaceEnd(s, k.end);
        if IOccursAt(s, "</p>", r) then Some(Marker(p, k.kind, r + 4)) else None
  }

  /** The pattern without its first group: spaces, the keyword, spaces. */
  function BareAt(s: string, p: nat): (r: Option<Marker>)
    requires p < |s|
    ensures r.Some? ==> r.value.offset == p < r.value.end <= |s|
  {
    match KeywordAt(s, SpaceEnd(s, p))
    case None => None
    case Some(k) => Some(Marker(p, k.kind, SpaceEnd(s, k.end)))
  }

  /**
   * The match starting at `p`: the greedy `(<p>)?` is tried first, and when
   * the rest fails with it, the pattern is tried without it. The spaces
   * never give back characters: a shorter run would leave a space where `[`
   * or `</p>` must stand.
   */
  function MarkerAt(s: string, p: nat): (r: Option<Marker>)
    requires p < |s|
    ensures r.Some? ==> r.value.offset == p < r.value.end <= |s|
  {
    match ParagraphAt(s, p)
    case Some(m) => Some(m)
    case None => BareAt(s, p)
  }

  /** Markers lie at or after `p`, within `size`, in order and without overlap. */
  predicate Apart(ms: seq<Marker>, p: nat, size: nat) {
    && (forall i :: 0 <= i < |ms| ==> p <= ms[i].offset < ms[i].end <= size)
    && (forall i, j :: 0 <= i < j < |ms| ==> ms[i].end <= ms[j].offset)
  }

  /** `preg_match_all` of the placeholder pattern from `p`: the search resumes after each match. */
  function MarkersFrom(s: string, p: nat): (ms: seq<Marker>)
    requires p <= |s|
    ensures Apart(ms, p, |s|)
    decreases |s| - p
  {
    if p == |s| then []
    else match MarkerAt(s, p)
      case Some(m) =>
        var rest := MarkersFrom(s, m.end);
        ApartCons(m, rest, p, |s|);
        [m] + rest
      case None => MarkersFrom(s, p + 1)
  }

  lemma ApartCons(m: Marker, rest: seq<Marker>, p: nat, size: nat)
    requires p <= m.offset < m.end <= size && Apart(rest, m.end, size)
    ensures Apart([m] + rest, p, size)
  {
    assert forall i :: 1 <= i < |[m] + rest| ==> ([m] + rest)[i] == rest[i - 1];
  }

  /** The placeholders of `s`, left to right. */
  function Markers(s: string): seq<Marker> {
    MarkersFrom(s, 0)
  }

  /** Every marker found holds its keyword, and is the pattern's match at its own offset. */
  lemma {:induction false} MarkersFromShape(s: string, p: nat)
    requires p <= |s|
    ensures forall m :: m in MarkersFrom(s, p) ==> m.offset < |s| && MarkerAt(s, m.offset) == Some(m)
    decreases |s| - p
  {
    if p < |s| {
      MarkersFromStep(s, p);
      match MarkerAt(s, p)
      case Some(m) =>
        MarkersFromShape(s, m.end);
        assert forall x :: x in [m] + MarkersFrom(s, m.end) ==> x == m || x in MarkersFrom(s, m.end);
      case None => MarkersFromShape(s, p + 1);
    }
  }

  /** Position `q` lies inside one of the markers `ms`. */
  predicate MarkerCovered(ms: seq<Marker>, q: nat) {
    exists i :: 0 <= i < |ms| && ms[i].offset <= q < ms[i].end
  }

  /**
   * The search misses nothing: at a position from `p` on that no marker
   * found covers, the pattern does not match.
   */
  lemma {:induction false} MarkersFromIsLeftmost(s: string, p: nat, q: nat)
    requires p <= q < |s| && !MarkerCovered(MarkersFrom(s, p), q)
    ensures MarkerAt(s, q).None?
    decreases |s| - p
  {
    MarkersFromStep(s, p);
    match MarkerAt(s, p)
    case Some(m) =>
      MarkerNotCoveredTail(m, MarkersFrom(s, m.end), q);
      MarkersFromIsLeftmost(s, m.end, q);
    case None =>
      if q > p {
        MarkersFromIsLeftmost(s, p + 1, q);
      }
  }

  /** One step of the search: the match at `p` and the search after it, or the search from the next position. */
  lemma MarkersFromStep(s: string, p: nat)
    requires p < |s|
    ensures MarkerAt(s, p).Some? ==> MarkersFrom(s, p) == [MarkerAt(s, p).value] + MarkersFrom(s, MarkerAt(s, p).value.end)
    ensures MarkerAt(s, p).None? ==> MarkersFrom(s, p) == MarkersFrom(s, p + 1)
  {
  }

  /** At a position no placeholder of `s` covers, the pattern does not match. */
  lemma MarkersIsLeftmost(s: string, q: nat)
    requires q < |s| && !MarkerCovered(Markers(s), q)
    ensures MarkerAt(s, q).None?
  {
    MarkersFromIsLeftmost(s, 0, q);
  }

  lemma MarkerNotCoveredTail(m: Marker, rest: seq<Marker>, q: nat)
    requires !MarkerCovered([m] + rest, q)
    ensures !(m.offset <= q < m.end) && !MarkerCovered(rest, q)
  {
    var ms := [m] + rest;
    assert ms[0] == m;
    forall i | 0 <= i < |rest| ensures !(rest[i].offset <= q < rest[i].end) {
      assert ms[i + 1] == rest[i];
    }
  }

  /** The bracketed keyword of each kind. */
  function KeywordText(kind: Kind): string {
    match kind
    case Toc => "[TOC]"
    case MiniToc => "[MINITOC]"
  }

  /** A marker of kind `[TOC]` holds `[TOC]`, one of kind `[MINITOC]` holds `[MINITOC]`, ignoring case. */
  lemma MarkerHoldsKeyword(s: string, m: Marker)
    requires m in Markers(s)
    ensures exists q :: m.offset <= q < m.end && IOccursAt(s, KeywordText(m.kind), q)
  {
    MarkersFromShape(s, 0);
    match ParagraphAt(s, m.offset)
    case Some(_) =>
      var q := SpaceEnd(s, m.offset + 3);
      var k := KeywordAt(s, q).value;
      assert m.offset <= q < m.end && m.kind == k.kind;
      assert IOccursAt(s, KeywordText(k.kind), q);
    case None =>
      var q := SpaceEnd(s, m.offset);
      var k := KeywordAt(s, q).value;
      assert m.offset <= q < m.end && m.kind == k.kind;
      assert IOccursAt(s, KeywordText(k.kind), q);
  }

  /** Text with neither keyword, in any case, holds no placeholder. */
  lemma {:induction false} NoKeywordNoMarker(s: string, p: nat)
    requires p <= |s|
    requires NoIOccurrence(s, "[TOC]") && NoIOccurrence(s, "[MINITOC]")
    ensures MarkersFrom(s, p) == []
    decreases |s| - p
  {
    if p < |s| {
      assert MarkerAt(s, p).None? by {
        if IOccursAt(s, "<p>", p) {
          var q := SpaceEnd(s, p + 3);
          assert !IOccursAt(s, "[TOC]", q) && !IOccursAt(s, "[MINITOC]", q);
        }
        var q := SpaceEnd(s, p);
        assert !IOccursAt(s, "[TOC]", q) && !IOccursAt(s, "[MINITOC]", q);
      }
      NoKeywordNoMarker(s, p + 1);
    }
  }

  /** What the template receives for one marker: the slice, the kind, and the anchoring heading. */
  datatype Selection = Selection(list: seq<Heading>, kind: Kind, heading: Option<Heading>)

  /**
   * The level `$heading['level'] > $level` compares with. Without a
   * preceding heading `$level` is null, and PHP compares an integer with
   * null as booleans: `level > null` holds exactly when the level is not
   * 0, as `level > 0` does.
   */
  function AnchorLevel(current: Option<Heading>): nat {
    match current
    case Some(h) => h.level
    case None => 0
  }

  /** The variables of the loop over the outline: `$toc[$current]` (null while `$current` is -1) and `$minitoc`. */
  datatype Walk = Walk(current: Option<Heading>, minitoc: seq<Heading>)

  /**
   * The loop of `process` over the outline from state `w`: a heading before
   * the marker becomes the current one; after it, a heading deeper than the
   * current one is taken, and the first one that is not ends the loop.
   */
  function Walked(toc: seq<Heading>, offset: nat, w: Walk): Walk
    decreases |toc|
  {
    if |toc| == 0 then w
    else if toc[0].offset < offset then Walked(toc[1..], offset, w.(current := Some(toc[0])))
    else if toc[0].level > AnchorLevel(w.current) then Walked(toc[1..], offset, w.(minitoc := w.minitoc + [toc[0]]))
    else w
  }

  /** The selection for marker `m`: the whole outline for `[TOC]`, the loop's result for `[MINITOC]`. */
  function Select(toc: seq<Heading>, m: Marker): Selection {
    match m.kind
    case Toc => Selection(toc, Toc, None)
    case MiniToc =>
      var w := Walked(toc, m.offset, Walk(None, []));
      Selection(w.minitoc, MiniToc, w.current)
  }

  /** The selection `process` computes for one marker, with the loop over the outline. */
  method SelectFor(toc: seq<Heading>, m: Marker) returns (sel: Selection)
    ensures sel == Select(toc, m)
  {
    if m.kind == Toc {
      return Selection(toc, Toc, None);
    }
    var current: Option<Heading> := None;
    var minitoc: seq<Heading> := [];
    var i := 0;
    while i < |toc|
      invariant 0 <= i <= |toc|
      invariant Walked(toc[i..], m.offset, Walk(current, minitoc)) == Walked(toc, m.offset, Walk(None, []))
    {
      var heading := toc[i];
      assert toc[i..][0] == heading && toc[i..][1..] == toc[i + 1..];
      if heading.offset < m.offset {
        current := Some(heading);
      } else {
        var level := AnchorLevel(current);
        if heading.level > level {
          minitoc := minitoc + [heading];
        } else {
          break;
        }
      }
      i := i + 1;
    }
    if i == |toc| {
      assert toc[i..] == [];
    }
    sel := Selection(minitoc, MiniToc, current);
  }

  /** The outline's offsets increase, as `createToc`'s do. */
  predicate Increasing(toc: seq<Heading>) {
    forall i, j :: 0 <= i < j < |toc| ==> toc[i].offset < toc[j].offset
  }

  /** How many headings come before `offset`: a leading run, since the offsets increase. */
  function Preceding(toc: seq<Heading>, offset: nat): (k: nat)
    ensures k <= |toc|
    ensures forall i :: 0 <= i < k ==> toc[i].offset < offset
    ensures k < |toc| ==> toc[k].offset >= offset
  {
    if |toc| == 0 || toc[0].offset >= offset then 0 else 1 + Preceding(toc[1..], offset)
  }

  /** Past the marker, the loop takes the leading run of headings deeper than the current one. */
  lemma {:induction false} WalkAfter(toc: seq<Heading>, offset: nat, w: Walk)
    requires forall i :: 0 <= i < |toc| ==> toc[i].offset >= offset
    ensures Walked(toc, offset, w) == w.(minitoc := w.minitoc + toc[..RunAbove(toc, AnchorLevel(w.current))])
  {
    if |toc| > 0 && toc[0].level > AnchorLevel(w.current) {
      var n := RunAbove(toc[1..], AnchorLevel(w.current));
      WalkAfter(toc[1..], offset, w.(minitoc := w.minitoc + [toc[0]]));
      assert toc[..n + 1] == [toc[0]] + toc[1..][..n];
    }
  }

  /** Before the marker, the loop only moves the current heading along. */
  lemma {:induction false} WalkBefore(toc: seq<Heading>, offset: nat, w: Walk, k: nat)
    requires k <= |toc| && forall i :: 0 <= i < k ==> toc[i].offset < offset
    ensures Walked(toc, offset, w) == Walked(toc[k..], offset, if k == 0 then w else w.(current := Some(toc[k - 1])))
  {
    if k > 0 {
      WalkBefore(toc[1..], offset, w.(current := Some(toc[0])), k - 1);
      assert toc[1..][k - 1..] == toc[k..];
      if k > 1 {
        assert toc[1..][k - 2] == toc[k - 1];
      }
    }
  }

  /**
   * The selection for `m` has as anchor the heading before index `k`, if
   * any, and as list the leading run of headings from `k` on that are
   * deeper than the anchor.
   */
  predicate MiniTocAt(toc: seq<Heading>, m: Marker, k: nat)
    requires k <= |toc|
  {
    var anchor := if k == 0 then None else Some(toc[k - 1]);
    var n := RunAbove(toc[k..], AnchorLevel(anchor));
    Select(toc, m) == Selection(toc[k..k + n], MiniToc, anchor)
  }

  /**
   * On an outline with increasing offsets, a `[MINITOC]` marker gets the
   * last heading before it as anchor and the maximal run of headings after
   * it that are deeper than the anchor; without an anchor, the run of
   * headings whose level is not 0.
   */
  lemma MiniTocSlice(toc: seq<Heading>, m: Marker)
    requires Increasing(toc) && m.kind == MiniToc
    ensures MiniTocAt(toc, m, Preceding(toc, m.offset))
  {
    var k := Preceding(toc, m.offset);
    PastMarker(toc, k, m.offset);
    MiniTocWalk(toc, m, k);
  }

  /** `MiniTocSlice`, from the headings past the marker rather than from the whole outline's order. */
  lemma MiniTocWalk(toc: seq<Heading>, m: Marker, k: nat)
    requires m.kind == MiniToc && k == Preceding(toc, m.offset)
    requires forall i :: 0 <= i < |toc[k..]| ==> toc[k..][i].offset >= m.offset
    ensures MiniTocAt(toc, m, k)
  {
    var anchor := if k == 0 then None else Some(toc[k - 1]);
    var n := RunAbove(toc[k..], AnchorLevel(anchor));
    WalkedToMarker(toc, m.offset, k, anchor, n);
    SelectWalked(toc, m);
  }

  /** The loop over the whole outline: the anchor before the marker, then the run after it. */
  lemma WalkedToMarker(toc: seq<Heading>, offset: nat, k: nat, anchor: Option<Heading>, n: nat)
    requires k <= |toc| && forall i :: 0 <= i < k ==> toc[i].offset < offset
    requires forall i :: 0 <= i < |toc[k..]| ==> toc[k..][i].offset >= offset
    requires anchor == (if k == 0 then None else Some(toc[k - 1])) && n == RunAbove(toc[k..], AnchorLevel(anchor))
    ensures Walked(toc, offset, Walk(None, [])) == Walk(anchor, toc[k..k + n])
  {
    var w0 := Walk(None, []);
    WalkBefore(toc, offset, w0, k);
    var w := Walk(anchor, []);
    assert w == if k == 0 then w0 else w0.(current := Some(toc[k - 1]));
    WalkAfter(toc[k..], offset, w);
    TakeOfDrop(toc, k, n);
  }

  lemma SelectWalked(toc: seq<Heading>, m: Marker)
    requires m.kind == MiniToc
    ensures var w := Walked(toc, m.offset, Walk(None, [])); Select(toc, m) == Selection(w.minitoc, MiniToc, w.current)
  {
  }

  lemma TakeOfDrop<T>(s: seq<T>, k: nat, n: nat)
    requires k + n <= |s|
    ensures [] + s[k..][..n] == s[k..k + n]
  {
  }

  /** In an outline with increasing offsets, everything from the first heading at or after `offset` on is there too. */
  lemma PastMarker(toc: seq<Heading>, k: nat, offset: nat)
    requires Increasing(toc) && k <= |toc| && (k < |toc| ==> toc[k].offset >= offset)
    ensures forall i :: 0 <= i < |toc[k..]| ==> toc[k..][i].offset >= offset
  {
    forall i | 0 <= i < |toc[k..]| ensures toc[k..][i].offset >= offset {
      assert toc[k..][i] == toc[k + i];
      assert toc[k].offset <= toc[k + i].offset;
    }
  }

  /** Every heading of `list` lies at or after `offset` and is deeper than `base`. */
  predicate Deeper(list: seq<Heading>, offset: nat, base: nat) {
    forall i :: 0 <= i < |list| ==> list[i].offset >= offset && list[i].level > base
  }

  /**
   * The slice a `[MINITOC]` marker gets: the headings right after the
   * marker, all of them deeper than the anchor, up to the first one that is
   * not; the anchor is the last heading before the marker.
   */
  lemma MiniTocSliceBounds(toc: seq<Heading>, m: Marker)
    requires Increasing(toc) && m.kind == MiniToc
    ensures SliceShape(toc, Preceding(toc, m.offset), m.offset, Select(toc, m))
  {
    var k := Preceding(toc, m.offset);
    PastMarker(toc, k, m.offset);
    SliceBoundsPast(toc, m, k);
  }

  /** `MiniTocSliceBounds`, from the headings past the marker rather than from the whole outline's order. */
  lemma SliceBoundsPast(toc: seq<Heading>, m: Marker, k: nat)
    requires m.kind == MiniToc && k == Preceding(toc, m.offset)
    requires forall i :: 0 <= i < |toc[k..]| ==> toc[k..][i].offset >= m.offset
    ensures SliceShape(toc, k, m.offset, Select(toc, m))
  {
    var anchor := if k == 0 then None else Some(toc[k - 1]);
    var n := RunBounds(toc, k, AnchorLevel(anchor), m.offset);
    var sel := Select(toc, m);
    MiniTocWalk(toc, m, k);
    assert sel == Selection(toc[k..k + n], MiniToc, anchor);
    SliceBounds(toc, k, n, m.offset, sel);
  }

  lemma SliceBounds(toc: seq<Heading>, k: nat, n: nat, offset: nat, sel: Selection)
    requires k + n <= |toc| && sel.list == toc[k..k + n] && sel.heading == (if k == 0 then None else Some(toc[k - 1]))
    requires Deeper(toc[k..k + n], offset, AnchorLevel(sel.heading))
    requires k + n < |toc| ==> toc[k + n].level <= AnchorLevel(sel.heading)
    requires k > 0 ==> toc[k - 1].offset < offset
    ensures SliceShape(toc, k, offset, sel)
  {
  }

  /**
   * `sel` holds the headings of `toc` from index `k` on, all at or after
   * `offset` and deeper than the anchor, up to the first heading that is
   * not; the anchor is the heading before index `k`, before `offset`, when
   * there is one.
   */
  predicate SliceShape(toc: seq<Heading>, k: nat, offset: nat, sel: Selection) {
    && k + |sel.list| <= |toc| && sel.list == toc[k..k + |sel.list|]
    && Deeper(sel.list, offset, AnchorLevel(sel.heading))
    && (k + |sel.list| < |toc| ==> toc[k + |sel.list|].level <= AnchorLevel(sel.heading))
    && (sel.heading.Some? <==> k > 0)
    && (sel.heading.Some? ==> sel.heading.value.offset < offset)
  }

  /** The leading run of deeper headings from `k` on, in an outline whose offsets from `k` on are past `offset`. */
  lemma RunBounds(toc: seq<Heading>, k: nat, base: nat, offset: nat) returns (n: nat)
    requires k <= |toc| && forall i :: 0 <= i < |toc[k..]| ==> toc[k..][i].offset >= offset
    ensures n == RunAbove(toc[k..], base) && k + n <= |toc|
    ensures Deeper(toc[k..k + n], offset, base)
    ensures k + n < |toc| ==> toc[k + n].level <= base
  {
    var t := toc[k..];
    n := RunAbove(t, base);
    RunAboveSpec(t, base);
    assert t[..n] == toc[k..k + n];
    forall j | k <= j < k + n ensures toc[j].offset >= offset && toc[j].level > base {
      assert toc[j] == t[..n][j - k] == t[j - k];
    }
    if k + n < |toc| {
      assert t[n] == toc[k + n];
    }
  }

  /** A `[TOC]` marker gets the whole outline and no anchor. */
  lemma TocSelectsAll(toc: seq<Heading>, m: Marker)
    requires m.kind == Toc
    ensures Select(toc, m) == Selection(toc, Toc, None)
  {
  }

  /** One rendering per marker, each from that marker's selection. */
  function Renderings(toc: seq<Heading>, ms: seq<Marker>, render: Selection -> string): (reps: seq<string>)
    ensures |reps| == |ms|
    ensures forall i :: 0 <= i < |ms| ==> reps[i] == render(Select(toc, ms[i]))
  {
    seq(|ms|, i requires 0 <= i < |ms| => render(Select(toc, ms[i])))
  }

  /**
   * The final `preg_replace_callback` from `from`: the `i`-th marker becomes
   * `$replacements[$i]`, and a marker past the last rendering becomes the
   * empty string (the missing entry reads as null).
   */
  function Spliced(s: string, ms: seq<Marker>, reps: seq<string>, from: nat): string
    requires from <= |s| && Apart(ms, from, |s|)
    decreases |ms|
  {
    if |ms| == 0 then s[from..]
    else
      var m := ms[0];
      assert Apart(ms[1..], m.end, |s|) by {
        assert forall i :: 0 <= i < |ms[1..]| ==> ms[1..][i] == ms[i + 1];
      }
      var rep := if |reps| > 0 then reps[0] else "";
      s[from..m.offset] + rep + Spliced(s, ms[1..], if |reps| > 0 then reps[1..] else [], m.end)
  }

  /** The rendering the `i`-th marker gets. */
  function RepAt(reps: seq<string>, i: nat): string {
    if i < |reps| then reps[i] else ""
  }

  /** `preg_replace_callback` with the `static $i` counter of the callback, starting at 0. */
  method ReplacePlaceholders(s: string, reps: seq<string>) returns (result: string)
    ensures result == Spliced(s, Markers(s), reps, 0)
  {
    var matches := Markers(s);
    result := SpliceMarkers(s, matches, reps);
  }

  /** The replacement loop: the text before each marker, then the marker's rendering, then the rest. */
  method SpliceMarkers(s: string, ms: seq<Marker>, reps: seq<string>) returns (result: string)
    requires Apart(ms, 0, |s|)
    ensures result == Spliced(s, ms, reps, 0)
  {
    ghost var total := Spliced(s, ms, reps, 0);
    result := "";
    var pos: nat := 0;
    var i := 0;
    assert ms[0..] == ms && Drop(reps, 0) == reps;
    while i < |ms|
      invariant 0 <= i <= |ms| && pos <= |s| && Apart(ms[i..], pos, |s|)
      invariant result + Spliced(s, ms[i..], Drop(reps, i), pos) == total
    {
      var m := ms[i];
      SpliceStep(s, ms, reps, i, pos);
      var rep := RepAt(reps, i);
      ghost var rest := Spliced(s, ms[i + 1..], Drop(reps, i + 1), m.end);
      Regroup(result, s[pos..m.offset], rep, rest);
      result := result + s[pos..m.offset] + rep;
      pos := m.end;
      i := i + 1;
    }
    assert ms[i..] == [];
    assert Spliced(s, ms[i..], Drop(reps, i), pos) == s[pos..];
    result := result + s[pos..];
  }

  /** The renderings left once `i` markers are replaced. */
  function Drop(reps: seq<string>, i: nat): seq<string> {
    if i < |reps| then reps[i..] else []
  }

  lemma SpliceStep(s: string, ms: seq<Marker>, reps: seq<string>, i: nat, pos: nat)
    requires i < |ms| && pos <= |s| && Apart(ms[i..], pos, |s|)
    ensures pos <= ms[i].offset < ms[i].end <= |s| && Apart(ms[i + 1..], ms[i].end, |s|)
    ensures Spliced(s, ms[i..], Drop(reps, i), pos)
      == s[pos..ms[i].offset] + RepAt(reps, i) + Spliced(s, ms[i + 1..], Drop(reps, i + 1), ms[i].end)
  {
    assert ms[i..][0] == ms[i] && ms[i..][1..] == ms[i + 1..];
    if i < |reps| {
      assert Drop(reps, i)[1..] == Drop(reps, i + 1);
    }
  }

  /** The text before the first marker is kept, the first marker becomes the first rendering, and the splice resumes after it. */
  lemma {:induction false} SplicedPieces(s: string, ms: seq<Marker>, reps: seq<string>, from: nat)
    requires from <= |s| && Apart(ms, from, |s|) && |ms| > 0
    ensures Spliced(s, ms, reps, from) == s[from..ms[0].offset] + RepAt(reps, 0) + Spliced(s, ms[1..], Drop(reps, 1), ms[0].end)
  {
    if |reps| > 0 {
      assert reps[1..] == Drop(reps, 1);
    }
  }

  /** What `process` returns; `render` stands for the template engine. */
  function Processed(content: string, o: Options, host: Host, render: Selection -> string): string {
    var ms := Markers(content);
    var reps := if |ms| == 0 then [] else Renderings(TocOf(content, host), ms, render);
    var tocified := Tocified(content, o, host);
    Spliced(tocified, Markers(tocified), reps, 0)
  }

  /**
   * `process`: the markers of the content, the outline and one rendering
   * per marker when there is any, then `tocify`, then the replacement.
   */
  method Process(content: string, o: Options, host: Host, render: Selection -> string) returns (result: string)
    ensures result == Processed(content, o, host, render)
  {
    var matches := Markers(content);
    var replacements: seq<string> := [];
    if |matches| > 0 {
      var toc := CreateToc(content, host);
      for i := 0 to |matches|
        invariant replacements == Renderings(toc, matches[..i], render)
      {
        var sel := SelectFor(toc, matches[i]);
        RenderingsSnoc(toc, matches, i, render);
        replacements := replacements + [render(sel)];
      }
      assert matches[..|matches|] == matches;
    }
    var tocified := Tocify(content, o, host);
    result := ReplacePlaceholders(tocified, replacements);
  }

  lemma RenderingsSnoc(toc: seq<Heading>, ms: seq<Marker>, i: nat, render: Selection -> string)
    requires i < |ms|
    ensures Renderings(toc, ms[..i + 1], render) == Renderings(toc, ms[..i], render) + [render(Select(toc, ms[i]))]
  {
    assert ms[..i + 1][..i] == ms[..i];
  }

  /**
   * Content without placeholders is only tocified: with a hexadecimal
   * digest, `tocify` adds no keyword, so its result holds no marker either.
   */
  lemma NoPlaceholders(content: string, o: Options, host: Host, render: Selection -> string)
    requires NoIOccurrence(content, "[TOC]") && NoIOccurrence(content, "[MINITOC]") && HexDigest(host)
    ensures Processed(content, o, host, render) == Tocified(content, o, host)
  {
    NoKeywordNoMarker(content, 0);
    TocifiedUnmarked(content, o, host);
    NoKeywordNoMarker(Tocified(content, o, host), 0);
  }

  /** The outline's offsets increase, so a `[MINITOC]` marker of the content gets the slice `MiniTocSlice` describes. */
  lemma OutlineIncreasing(content: string, host: Host)
    ensures Increasing(TocOf(content, host))
  {
    OutlineEntries(content, host);
  }
}
