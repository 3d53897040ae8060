/**
 * The outline: `createToc` (classes/Toc.php:65-115) turns the heading
 * matches of the content into records, and `mapTree` (classes/Toc.php:270-304)
 * flattens them into a tree by assigning indents. The `static $indent`
 * counter of `mapTree`, raised on entry and lowered on exit, is the depth
 * parameter: the depth of a call is the counter's value within it.
 */
module Outline {
  import opened Wrappers
  import opened Text
  import opened Markers
  import opened Attributes
  import opened Scanner
  import opened Ids

  /** One entry of the outline, keyed in PHP by `offset`. */
  datatype Heading = Heading(offset: nat, tag: string, level: nat, indent: int, text: string, id: string)

  /** `min` of the levels. */
  function MinLevel(list: seq<Heading>): nat
    requires |list| > 0
  {
    if |list| == 1 then list[0].level
    else
      var m := MinLevel(list[1..]);
      if list[0].level <= m then list[0].level else m
  }

  /** `min` is a lower bound that some heading attains. */
  lemma {:induction false} MinLevelSpec(list: seq<Heading>)
    requires |list| > 0
    ensures AtLeast(list, MinLevel(list)) && HasLevel(list, MinLevel(list))
  {
    if |list| > 1 {
      MinLevelSpec(list[1..]);
      assert forall i :: 1 <= i < |list| ==> list[i] == list[1..][i - 1];
      var k :| 0 <= k < |list[1..]| && list[1..][k].level == MinLevel(list[1..]);
      assert list[k + 1] == list[1..][k];
    }
  }

  lemma MinLevelBelow(list: seq<Heading>, i: nat)
    requires i < |list|
    ensures MinLevel(list) <= list[i].level
  {
    MinLevelSpec(list);
  }

  predicate AtLeast(list: seq<Heading>, base: nat) {
    forall i :: 0 <= i < |list| ==> list[i].level >= base
  }

  predicate AllAbove(list: seq<Heading>, base: nat) {
    forall i :: 0 <= i < |list| ==> list[i].level > base
  }

  predicate HasLevel(list: seq<Heading>, base: nat) {
    exists i :: 0 <= i < |list| && list[i].level == base
  }

  /** Length of the leading run of headings deeper than `base`. */
  function RunAbove(list: seq<Heading>, base: nat): (n: nat)
    ensures n <= |list|
  {
    if |list| == 0 || list[0].level <= base then 0 else RunAbove(list[1..], base) + 1
  }

  /** The run is deeper than `base` throughout and ends at a heading that is not. */
  lemma {:induction false} RunAboveSpec(list: seq<Heading>, base: nat)
    ensures AllAbove(list[..RunAbove(list, base)], base)
    ensures RunAbove(list, base) < |list| ==> list[RunAbove(list, base)].level <= base
    ensures RunAbove(list, base) == |list| ==> !HasLevel(list, base)
  {
    if |list| > 0 && list[0].level > base {
      var n := RunAbove(list[1..], base);
      RunAboveSpec(list[1..], base);
      assert list[..n + 1] == [list[0]] + list[1..][..n];
      if n + 1 == |list| {
        assert list[..n + 1] == list;
      }
    }
  }

  /**
   * `mapTree` at depth `depth`: the headings at the minimum level get that
   * depth as indent, each run of deeper headings between them is
   * flattened one level deeper, in place.
   */
  function Flat(list: seq<Heading>, depth: nat): seq<Heading>
    decreases |list|, 1
  {
    if |list| == 0 then []
    else
      MinLevelSpec(list);
      Chunks(list, MinLevel(list), depth)
  }

  /**
   * The loop of `mapTree` over `list` with base level `base`. A heading
   * below the base level matches neither branch of the loop and is passed
   * over; under `min` there is none.
   */
  function Chunks(list: seq<Heading>, base: nat, depth: nat): seq<Heading>
    decreases |list|, if HasLevel(list, base) then 0 else 2
  {
    if |list| == 0 then []
    else if list[0].level == base then [list[0].(indent := depth)] + Chunks(list[1..], base, depth)
    else if list[0].level < base then Chunks(list[1..], base, depth)
    else
      var n := RunAbove(list, base);
      RunAboveSpec(list, base);
      Flat(list[..n], depth + 1) + Chunks(list[n..], base, depth)
  }

  /** `mapTree`: a loop that collects deeper headings and flattens them recursively. */
  method MapTree(list: seq<Heading>, depth: nat) returns (toc: seq<Heading>)
    ensures toc == Flat(list, depth)
    decreases |list|
  {
    if |list| == 0 {
      return [];
    }
    var baselevel := MinLevel(list);
    toc := [];
    var subtoc: seq<Heading> := [];
    ghost var j := 0;
    for i := 0 to |list|
      invariant j <= i && subtoc == list[j..i]
      invariant RunAbove(list[j..], baselevel) >= i - j
      invariant toc + Chunks(list[j..], baselevel, depth) == Chunks(list, baselevel, depth)
    {
      var heading := list[i];
      if heading.level == baselevel {
        if |subtoc| > 0 {
          var sub := MapTree(subtoc, depth + 1);
          RunStep(list, baselevel, depth, j, i, toc, toc + sub);
          toc := toc + sub;
          subtoc := [];
        }
        ghost var toc0 := toc;
        toc := toc + [heading.(indent := depth)];
        j := i + 1;
        BaseStep(list, baselevel, depth, i, j, toc0, toc);
        SliceNone(list, j);
      } else if heading.level > baselevel {
        DeeperStep(list, baselevel, j, i);
        subtoc := subtoc + [heading];
      } else {
        MinLevelBelow(list, i);
        assert false;
      }
    }
    if |subtoc| > 0 {
      MinLevelSpec(list);
      RunStopsAtMin(list, baselevel, j);
      LastRun(list, baselevel, depth, j);
      var sub := MapTree(subtoc, depth + 1);
      toc := toc + sub;
    } else {
      SliceEmpty(list, j);
    }
  }

  /** The loop meets a heading at the base level after a run of deeper ones: the run is flattened. */
  lemma RunStep(list: seq<Heading>, base: nat, depth: nat, j: nat, i: nat, toc: seq<Heading>, toc': seq<Heading>)
    requires j < i < |list| && list[i].level == base
    requires RunAbove(list[j..], base) >= i - j
    requires toc + Chunks(list[j..], base, depth) == Chunks(list, base, depth)
    requires toc' == toc + Flat(list[j..i], depth + 1)
    ensures toc' + Chunks(list[i..], base, depth) == Chunks(list, base, depth)
  {
    RunPrefix(list, base, j, i);
    SliceSplit(list, j, i);
    ChunksSplit(list[j..i], list[i..], base, depth);
    assert toc + (Flat(list[j..i], depth + 1) + Chunks(list[i..], base, depth)) == toc' + Chunks(list[i..], base, depth);
  }

  /** The heading at the base level gets the depth as its indent. */
  lemma BaseStep(list: seq<Heading>, base: nat, depth: nat, i: nat, j: nat, toc: seq<Heading>, toc': seq<Heading>)
    requires i < |list| && list[i].level == base && j == i + 1
    requires toc + Chunks(list[i..], base, depth) == Chunks(list, base, depth)
    requires toc' == toc + [list[i].(indent := depth)]
    ensures toc' + Chunks(list[j..], base, depth) == Chunks(list, base, depth)
  {
    SliceSplit(list, i, i);
    assert toc + ([list[i].(indent := depth)] + Chunks(list[j..], base, depth)) == toc' + Chunks(list[j..], base, depth);
  }

  /** After the loop, the last pending run is flattened on its own. */
  lemma LastRun(list: seq<Heading>, base: nat, depth: nat, j: nat)
    requires j < |list| && RunAbove(list[j..], base) >= |list| - j
    ensures Chunks(list[j..], base, depth) == Flat(list[j..|list|], depth + 1)
  {
    RunPrefix(list, base, j, |list|);
    SliceSplit(list, j, |list|);
    ChunksSplit(list[j..|list|], [], base, depth);
  }

  /** The loop meets a deeper heading: the pending run, `list[j..i]`, grows by one. */
  lemma DeeperStep(list: seq<Heading>, base: nat, j: nat, i: nat)
    requires j <= i < |list| && list[i].level > base && RunAbove(list[j..], base) >= i - j
    ensures RunAbove(list[j..], base) >= i + 1 - j
    ensures list[j..i] + [list[i]] == list[j..i + 1]
  {
    RunGrows(list[j..], base, i - j);
  }

  lemma {:induction false} RunGrows(l: seq<Heading>, base: nat, n: nat)
    requires n < |l| && l[n].level > base && RunAbove(l, base) >= n
    ensures RunAbove(l, base) >= n + 1
  {
    if n > 0 {
      RunGrows(l[1..], base, n - 1);
    }
  }

  /** The first `i - j` headings of `list[j..]` are deeper than `base`. */
  lemma RunPrefix(list: seq<Heading>, base: nat, j: nat, i: nat)
    requires j <= i <= |list| && RunAbove(list[j..], base) >= i - j
    ensures AllAbove(list[j..i], base)
  {
    var l := list[j..];
    RunAboveSpec(l, base);
    assert forall k :: 0 <= k < i - j ==> list[j..i][k] == l[..RunAbove(l, base)][k];
  }

  /** A run deeper than the minimum never spans the whole list. */
  lemma RunStopsAtMin(list: seq<Heading>, base: nat, j: nat)
    requires j <= |list| && HasLevel(list, base) && RunAbove(list[j..], base) >= |list| - j
    ensures j > 0
  {
    if j == 0 {
      assert list[j..] == list;
      RunAboveSpec(list, base);
    }
  }

  lemma SliceNone(list: seq<Heading>, j: nat)
    requires j <= |list|
    ensures list[j..j] == []
  {
  }

  lemma SliceSplit(list: seq<Heading>, j: nat, i: nat)
    requires j <= i <= |list|
    ensures list[j..] == list[j..i] + list[i..]
    ensures i < |list| ==> list[i..][0] == list[i] && list[i..][1..] == list[i + 1..]
    ensures i == |list| ==> list[i..] == []
  {
  }

  lemma SliceEmpty(list: seq<Heading>, j: nat)
    requires j == |list|
    ensures list[j..] == []
  {
  }

  /** A run of deeper headings followed by one at the base level or less is flattened on its own. */
  lemma ChunksSplit(run: seq<Heading>, rest: seq<Heading>, base: nat, depth: nat)
    requires |run| > 0 && AllAbove(run, base)
    requires |rest| == 0 || rest[0].level <= base
    ensures Chunks(run + rest, base, depth) == Flat(run, depth + 1) + Chunks(rest, base, depth)
  {
    var l := run + rest;
    var n := RunAbove(l, base);
    RunAboveSpec(l, base);
    assert forall k :: 0 <= k < |run| ==> l[k] == run[k];
    if |rest| > 0 {
      assert l[|run|] == rest[0];
    }
    assert n == |run|;
    assert l[..n] == run && l[n..] == rest;
  }

  /** The heading with its indent cleared: everything `mapTree` must not change. */
  function Unindented(list: seq<Heading>): (r: seq<Heading>)
    ensures |r| == |list|
  {
    seq(|list|, i requires 0 <= i < |list| => list[i].(indent := 0))
  }

  /** `mapTree` keeps every heading, in order, with every field but the indent. */
  lemma {:induction false} FlatKeeps(list: seq<Heading>, depth: nat)
    ensures Unindented(Flat(list, depth)) == Unindented(list)
    decreases |list|, 1
  {
    if |list| > 0 {
      MinLevelSpec(list);
      ChunksKeeps(list, MinLevel(list), depth);
    }
  }

  lemma {:induction false} ChunksKeeps(list: seq<Heading>, base: nat, depth: nat)
    requires AtLeast(list, base)
    ensures Unindented(Chunks(list, base, depth)) == Unindented(list)
    decreases |list|, if HasLevel(list, base) then 0 else 2
  {
    if |list| == 0 {
    } else if list[0].level == base {
      ChunksKeeps(list[1..], base, depth);
      UnindentedConcat([list[0].(indent := depth)], Chunks(list[1..], base, depth));
      UnindentedConcat([list[0]], list[1..]);
      assert [list[0]] + list[1..] == list;
    } else {
      var n := ChunksRun(list, base, depth);
      FlatKeeps(list[..n], depth + 1);
      ChunksKeeps(list[n..], base, depth);
      UnindentedConcat(Flat(list[..n], depth + 1), Chunks(list[n..], base, depth));
      UnindentedConcat(list[..n], list[n..]);
      assert list[..n] + list[n..] == list;
    }
  }

  /** Past a heading deeper than the base, the loop flattens the run it starts. */
  lemma ChunksRun(list: seq<Heading>, base: nat, depth: nat) returns (n: nat)
    requires AtLeast(list, base) && |list| > 0 && list[0].level != base
    ensures 0 < n <= |list| && n == RunAbove(list, base) && AtLeast(list[n..], base)
    ensures n == |list| ==> !HasLevel(list, base)
    ensures Chunks(list, base, depth) == Flat(list[..n], depth + 1) + Chunks(list[n..], base, depth)
  {
    n := RunAbove(list, base);
    RunAboveSpec(list, base);
  }

  lemma UnindentedConcat(a: seq<Heading>, b: seq<Heading>)
    ensures Unindented(a + b) == Unindented(a) + Unindented(b)
  {
  }

  /** The same heading, whatever its indent. */
  lemma SameButIndent(list: seq<Heading>, out: seq<Heading>, i: nat)
    requires Unindented(out) == Unindented(list) && i < |list|
    ensures out[i].offset == list[i].offset && out[i].tag == list[i].tag && out[i].level == list[i].level
    ensures out[i].text == list[i].text && out[i].id == list[i].id
  {
    assert Unindented(out)[i] == Unindented(list)[i];
  }

  /**
   * Indents at depth `depth`: at least the depth, equal to it exactly for
   * the headings at the minimum level, and never more above the depth than
   * the level is above the minimum.
   */
  predicate IndentsFrom(out: seq<Heading>, base: nat, depth: nat) {
    forall i :: 0 <= i < |out| ==>
      && out[i].level >= base
      && depth <= out[i].indent <= depth + (out[i].level - base)
      && (out[i].indent == depth <==> out[i].level == base)
  }

  lemma {:induction false} FlatIndents(list: seq<Heading>, depth: nat)
    requires |list| > 0
    ensures IndentsFrom(Flat(list, depth), MinLevel(list), depth)
    decreases |list|, 1
  {
    MinLevelSpec(list);
    ChunksIndents(list, MinLevel(list), depth);
  }

  lemma {:induction false} ChunksIndents(list: seq<Heading>, base: nat, depth: nat)
    requires AtLeast(list, base)
    ensures IndentsFrom(Chunks(list, base, depth), base, depth)
    decreases |list|, if HasLevel(list, base) then 0 else 2
  {
    if |list| == 0 {
    } else if list[0].level == base {
      ChunksIndents(list[1..], base, depth);
      IndentsConcat([list[0].(indent := depth)], Chunks(list[1..], base, depth), base, depth);
    } else {
      var n := RunAbove(list, base);
      RunAboveSpec(list, base);
      var run := list[..n];
      FlatIndents(run, depth + 1);
      RunDeeper(run, base);
      DeeperIndents(Flat(run, depth + 1), MinLevel(run), base, depth);
      ChunksIndents(list[n..], base, depth);
      IndentsConcat(Flat(run, depth + 1), Chunks(list[n..], base, depth), base, depth);
    }
  }

  /** A non-empty run of deeper headings has a deeper minimum. */
  lemma RunDeeper(run: seq<Heading>, base: nat)
    requires |run| > 0 && AllAbove(run, base)
    ensures MinLevel(run) > base
  {
    MinLevelSpec(run);
  }

  lemma DeeperIndents(out: seq<Heading>, m: nat, base: nat, depth: nat)
    requires IndentsFrom(out, m, depth + 1) && m > base
    ensures IndentsFrom(out, base, depth)
  {
  }

  lemma IndentsConcat(a: seq<Heading>, b: seq<Heading>, base: nat, depth: nat)
    requires IndentsFrom(a, base, depth) && IndentsFrom(b, base, depth)
    ensures IndentsFrom(a + b, base, depth)
  {
    var c := a + b;
    assert forall i :: |a| <= i < |c| ==> c[i] == b[i - |a|];
  }

  /** Two headings whose indents compare as their levels do. */
  predicate InStep(x: Heading, y: Heading) {
    (x.level < y.level <==> x.indent < y.indent) && (x.level == y.level <==> x.indent == y.indent)
  }

  /** Adjacent entries of the outline: a deeper level is a deeper indent, the same level the same indent. */
  predicate TreeShaped(out: seq<Heading>) {
    forall i :: 0 <= i < |out| - 1 ==> InStep(out[i], out[i + 1])
  }

  lemma {:induction false} FlatTreeShaped(list: seq<Heading>, depth: nat)
    ensures TreeShaped(Flat(list, depth))
    decreases |list|, 1
  {
    if |list| > 0 {
      MinLevelSpec(list);
      ChunksTreeShaped(list, MinLevel(list), depth);
    }
  }

  lemma {:induction false} ChunksTreeShaped(list: seq<Heading>, base: nat, depth: nat)
    requires AtLeast(list, base)
    ensures TreeShaped(Chunks(list, base, depth))
    decreases |list|, if HasLevel(list, base) then 0 else 2
  {
    if |list| == 0 {
    } else if list[0].level == base {
      var rest := Chunks(list[1..], base, depth);
      ChunksTreeShaped(list[1..], base, depth);
      ChunksIndents(list[1..], base, depth);
      ShapedConcat([list[0].(indent := depth)], rest, base, depth);
    } else {
      var n := RunAbove(list, base);
      RunAboveSpec(list, base);
      var run := list[..n];
      var rest := Chunks(list[n..], base, depth);
      FlatTreeShaped(run, depth + 1);
      FlatIndents(run, depth + 1);
      RunDeeper(run, base);
      DeeperIndents(Flat(run, depth + 1), MinLevel(run), base, depth);
      ChunksTreeShaped(list[n..], base, depth);
      ChunksIndents(list[n..], base, depth);
      FirstAtBase(list[n..], base, depth);
      ShapedConcat(Flat(run, depth + 1), rest, base, depth);
    }
  }

  /** After a run of deeper headings, the loop resumes at a heading of the base level. */
  lemma FirstAtBase(list: seq<Heading>, base: nat, depth: nat)
    requires AtLeast(list, base) && (|list| == 0 || list[0].level <= base)
    ensures var out := Chunks(list, base, depth); |out| > 0 ==> out[0].level == base
  {
  }

  /**
   * Joining two tree-shaped pieces at the same depth keeps the shape when
   * the seam is in step: both pieces hold indents as `IndentsFrom` says, and
   * the second starts at the base level unless the first is one heading at it.
   */
  lemma ShapedConcat(a: seq<Heading>, b: seq<Heading>, base: nat, depth: nat)
    requires TreeShaped(a) && TreeShaped(b)
    requires IndentsFrom(a, base, depth) && IndentsFrom(b, base, depth)
    requires |a| > 0 && |b| > 0 ==> a[|a| - 1].level == base || b[0].level == base
    ensures TreeShaped(a + b)
  {
    var c := a + b;
    assert forall i :: 0 <= i < |a| ==> c[i] == a[i];
    assert forall i :: |a| <= i < |c| ==> c[i] == b[i - |a|];
  }

  /** `mapTree` at the top level, as `createToc` calls it: the minimum level gets indent 0. */
  lemma TopLevelIndents(list: seq<Heading>, i: nat)
    requires i < |list|
    ensures var out := Flat(list, 0);
      |out| == |list| && 0 <= out[i].indent <= list[i].level - MinLevel(list)
      && (out[i].indent == 0 <==> list[i].level == MinLevel(list))
  {
    FlatKeeps(list, 0);
    FlatIndents(list, 0);
    SameButIndent(list, Flat(list, 0), i);
  }

  /** The lowercased tag starts with `h` (`$tag{0} === 'h'`). */
  predicate IsHeading(m: Match) {
    |m.tag| > 0 && LowerChar(m.tag[0]) == 'h'
  }

  /** The heading matches, in order. */
  function Headings(ms: seq<Match>): (hs: seq<Match>)
    ensures forall m :: m in hs ==> m in ms && IsHeading(m)
    ensures forall m :: m in ms && IsHeading(m) ==> m in hs
    ensures |hs| <= |ms|
  {
    if |ms| == 0 then []
    else
      var p := Headings(ms[..|ms| - 1]);
      assert forall m :: m in ms[..|ms| - 1] ==> m in ms;
      assert forall m :: m in ms ==> m in ms[..|ms| - 1] || m == ms[|ms| - 1];
      if IsHeading(ms[|ms| - 1]) then p + [ms[|ms| - 1]] else p
  }

  /** Keeping some of the matches keeps them in order and apart. */
  lemma {:induction false} HeadingsOrdered(ms: seq<Match>, p: nat, size: nat)
    requires Ordered(ms, p, size)
    ensures Ordered(Headings(ms), p, size)
  {
    if |ms| > 0 {
      var q, last := ms[..|ms| - 1], ms[|ms| - 1];
      OrderedInit(ms, p, size);
      HeadingsOrdered(q, p, size);
      var hs := Headings(q);
      if IsHeading(last) {
        forall i | 0 <= i < |hs| ensures hs[i].end <= last.offset {
          EndsBeforeLast(ms, p, size, hs[i]);
        }
        OrderedSnoc(hs, last, p, size);
        assert Headings(ms) == hs + [last];
      } else {
        assert Headings(ms) == hs;
      }
    }
  }

  /** Dropping the last match keeps the rest ordered; the last one lies within bounds. */
  lemma OrderedInit(ms: seq<Match>, p: nat, size: nat)
    requires |ms| > 0 && Ordered(ms, p, size)
    ensures Ordered(ms[..|ms| - 1], p, size)
    ensures p <= ms[|ms| - 1].offset < ms[|ms| - 1].end <= size
  {
  }

  /** Every match before the last one ends before the last one starts. */
  lemma EndsBeforeLast(ms: seq<Match>, p: nat, size: nat, x: Match)
    requires |ms| > 0 && Ordered(ms, p, size) && x in ms[..|ms| - 1]
    ensures x.end <= ms[|ms| - 1].offset
  {
    var q := ms[..|ms| - 1];
    var j :| 0 <= j < |q| && q[j] == x;
    assert ms[j] == x;
  }

  /** A match after all of an ordered list extends it. */
  lemma OrderedSnoc(hs: seq<Match>, last: Match, p: nat, size: nat)
    requires Ordered(hs, p, size) && p <= last.offset < last.end <= size
    requires forall i :: 0 <= i < |hs| ==> hs[i].end <= last.offset
    ensures Ordered(hs + [last], p, size)
  {
  }

  /** `(int) $s`: the value of the leading digits, 0 when there are none. */
  function LeadingValue(s: string): nat {
    DigitsValue(s[..LeadingDigits(s)])
  }

  /** On a run of digits, the cast reads the whole run. */
  lemma LeadingValueOfDigits(s: string)
    requires forall i :: 0 <= i < |s| ==> IsDigit(s[i])
    ensures LeadingValue(s) == DigitsValue(s)
  {
    assert LeadingDigits(s) == |s|;
    assert s[..|s|] == s;
  }

  function LeadingDigits(s: string): (n: nat)
    ensures n <= |s| && (forall i :: 0 <= i < n ==> IsDigit(s[i])) && (n < |s| ==> !IsDigit(s[n]))
  {
    if |s| == 0 || !IsDigit(s[0]) then 0 else 1 + LeadingDigits(s[1..])
  }

  /** `(int) mb_substr($tag, 1)`. */
  function LevelOf(tag: string): nat {
    if |tag| == 0 then 0 else LeadingValue(tag[1..])
  }

  /** The base id of a heading match: attributes parsed, text trimmed. */
  function Base(m: Match, host: Host): string {
    BaseId(Parsed(m.attr), PhpTrim(m.text), host)
  }

  function Bases(hs: seq<Match>, host: Host): (bs: seq<string>)
    ensures |bs| == |hs| && forall i :: 0 <= i < |hs| ==> bs[i] == Base(hs[i], host)
  {
    seq(|hs|, i requires 0 <= i < |hs| => Base(hs[i], host))
  }

  /** The record `createToc` stores for a heading match with id `id`. */
  function Record(m: Match, id: string): Heading {
    var tag := Lower(m.tag);
    var level := LevelOf(tag);
    Heading(m.offset, tag, level, level - 1, EscapeMarkers(PhpTrim(m.text)), id)
  }

  /** The records of the heading matches, before `mapTree`. */
  function Records(hs: seq<Match>, host: Host): (r: seq<Heading>)
    ensures |r| == |hs|
    ensures forall i :: 0 <= i < |hs| ==> r[i] == Record(hs[i], Disambiguated(Bases(hs, host), i))
  {
    seq(|hs|, i requires 0 <= i < |hs| => Record(hs[i], Disambiguated(Bases(hs, host), i)))
  }

  /** The outline built from the matches of a scan. */
  function OutlineOf(ms: seq<Match>, host: Host): seq<Heading> {
    Flat(Records(Headings(ms), host), 0)
  }

  /** What `createToc` returns for `content`. */
  function TocOf(content: string, host: Host): seq<Heading> {
    OutlineOf(Scan(content, OutlineTags), host)
  }

  /** `createToc`: the scan, then the outline of its matches. */
  method CreateToc(content: string, host: Host) returns (toc: seq<Heading>)
    ensures toc == TocOf(content, host)
  {
    var matches := Scan(content, OutlineTags);
    toc := BuildOutline(matches, host);
  }

  /** The body of `createToc` after the scan: one record per heading match, the counter updated in place, then `mapTree`. */
  method BuildOutline(matches: seq<Match>, host: Host) returns (toc: seq<Heading>)
    ensures toc == OutlineOf(matches, host)
  {
    var list: seq<Heading> := [];
    var counter: map<string, nat> := map[];
    for i := 0 to |matches|
      invariant list == Records(Headings(matches[..i]), host)
      invariant Tracks(counter, Bases(Headings(matches[..i]), host))
    {
      var m := matches[i];
      var tag := Lower(m.tag);
      if |tag| == 0 || tag[0] != 'h' {
        SkipStep(matches, i, host);
        continue;
      }
      var level := LevelOf(tag);
      var text := PhpTrim(m.text);
      var attributes := ParseAttributes(m.attr);
      var id := BaseId(attributes, text, host);
      ghost var list0, counter0, base := list, counter, id;
      if id in counter {
        var k := counter[id];
        counter := counter[id := k + 1];
        id := id + "-" + NatToString(k);
      } else {
        counter := counter[id := 1];
      }
      text := EscapeMarkers(text);
      RecordFields(m, tag, level, text, id);
      list := list + [Heading(m.offset, tag, level, level as int - 1, text, id)];
      RecordStep(matches, i, host, list0, counter0, base, list, counter, id);
    }
    assert matches[..|matches|] == matches;
    toc := MapTree(list, 0);
  }

  /** The entry `createToc` builds field by field is the record of the match. */
  lemma RecordFields(m: Match, tag: string, level: nat, text: string, id: string)
    requires tag == Lower(m.tag) && level == LevelOf(tag) && text == EscapeMarkers(PhpTrim(m.text))
    ensures Heading(m.offset, tag, level, level as int - 1, text, id) == Record(m, id)
  {
  }

  /** A match that is not a heading changes neither the records nor the counter. */
  lemma SkipStep(ms: seq<Match>, i: nat, host: Host)
    requires i < |ms| && (|Lower(ms[i].tag)| == 0 || Lower(ms[i].tag)[0] != 'h')
    ensures Headings(ms[..i + 1]) == Headings(ms[..i])
  {
    HeadingsSnoc(ms, i);
  }

  /** A heading match adds its record with the counter's id, and the counter stays in step. */
  lemma RecordStep(ms: seq<Match>, i: nat, host: Host, list: seq<Heading>, counter: map<string, nat>, base: string,
                   list': seq<Heading>, counter': map<string, nat>, id: string)
    requires i < |ms| && |Lower(ms[i].tag)| > 0 && Lower(ms[i].tag)[0] == 'h'
    requires list == Records(Headings(ms[..i]), host)
    requires Tracks(counter, Bases(Headings(ms[..i]), host))
    requires base == BaseId(Parsed(ms[i].attr), PhpTrim(ms[i].text), host)
    requires counter' == if base in counter then counter[base := counter[base] + 1] else counter[base := 1]
    requires id == if base in counter then base + "-" + NatToString(counter[base]) else base
    requires list' == list + [Record(ms[i], id)]
    ensures list' == Records(Headings(ms[..i + 1]), host)
    ensures Tracks(counter', Bases(Headings(ms[..i + 1]), host))
  {
    var hs := Headings(ms[..i]);
    HeadingsSnoc(ms, i);
    assert IsHeading(ms[i]);
    CounterStep(hs, ms[i], host, counter, base, counter', id);
    RecordsSnoc(hs, ms[i], host);
  }

  /** The counter's id is the closed-form one, and the bumped counter tracks one more base id. */
  lemma CounterStep(hs: seq<Match>, m: Match, host: Host, counter: map<string, nat>, base: string,
                    counter': map<string, nat>, id: string)
    requires Tracks(counter, Bases(hs, host))
    requires base == Base(m, host)
    requires counter' == if base in counter then counter[base := counter[base] + 1] else counter[base := 1]
    requires id == if base in counter then base + "-" + NatToString(counter[base]) else base
    ensures Bases(hs + [m], host) == Bases(hs, host) + [base]
    ensures id == Disambiguated(Bases(hs, host) + [base], |hs|)
    ensures Tracks(counter', Bases(hs + [m], host))
  {
    BasesSnoc(hs, m, host);
    StepAgrees(counter, Bases(hs, host), base);
    assert id == NextId(counter, base);
    assert counter' == Bump(counter, base);
  }

  lemma BasesSnoc(hs: seq<Match>, m: Match, host: Host)
    ensures |Bases(hs, host)| == |hs|
    ensures Bases(hs + [m], host) == Bases(hs, host) + [Base(m, host)]
  {
  }

  lemma RecordsSnoc(hs: seq<Match>, m: Match, host: Host)
    ensures Bases(hs + [m], host) == Bases(hs, host) + [Base(m, host)]
    ensures Records(hs + [m], host) == Records(hs, host) + [Record(m, Disambiguated(Bases(hs, host) + [Base(m, host)], |hs|))]
  {
    BasesSnoc(hs, m, host);
    var r := Records(hs + [m], host);
    var r0 := Records(hs, host);
    forall i | 0 <= i < |hs| ensures r[i] == r0[i] {
      RecordKept(hs, m, host, i);
    }
    SnocOf(r, r0);
  }

  /** Appending a heading leaves the records of the earlier ones as they were. */
  lemma RecordKept(hs: seq<Match>, m: Match, host: Host, i: nat)
    requires i < |hs|
    ensures Records(hs + [m], host)[i] == Records(hs, host)[i]
  {
    var bs, bs0 := Bases(hs + [m], host), Bases(hs, host);
    BasesSnoc(hs, m, host);
    assert bs[..i] == bs0[..i];
    assert (hs + [m])[i] == hs[i];
  }

  lemma SnocOf<T>(r: seq<T>, r0: seq<T>)
    requires |r| == |r0| + 1 && forall i :: 0 <= i < |r0| ==> r[i] == r0[i]
    ensures r == r0 + [r[|r0|]]
  {
  }

  lemma HeadingsSnoc(ms: seq<Match>, i: nat)
    requires i < |ms|
    ensures Headings(ms[..i + 1]) == Headings(ms[..i]) + (if IsHeading(ms[i]) then [ms[i]] else [])
  {
    assert ms[..i + 1][..i] == ms[..i];
  }

  /**
   * The outline `out` has one entry per heading match of `ms`, in order and
   * with increasing offsets; the entry keeps the match's offset, the
   * lowercased tag, the level read from the tag and the disambiguated id,
   * and its text holds no placeholder.
   */
  predicate Entries(ms: seq<Match>, out: seq<Heading>, host: Host) {
    var hs := Headings(ms);
    && |out| == |hs|
    && (forall i :: 0 <= i < |out| ==>
          && out[i].offset == hs[i].offset
          && out[i].tag == Lower(hs[i].tag) && |out[i].tag| > 0 && out[i].tag[0] == 'h'
          && out[i].level == LevelOf(out[i].tag)
          && out[i].id == Disambiguated(Bases(hs, host), i)
          && NoIOccurrence(out[i].text, TocMarker) && NoIOccurrence(out[i].text, MiniTocMarker))
    && (forall i, j :: 0 <= i < j < |out| ==> out[i].offset < out[j].offset)
  }

  lemma MatchEntries(ms: seq<Match>, size: nat, host: Host)
    requires Ordered(ms, 0, size)
    ensures Entries(ms, OutlineOf(ms, host), host)
  {
    var hs := Headings(ms);
    var recs := Records(hs, host);
    var out := Flat(recs, 0);
    FlatKeeps(recs, 0);
    HeadingsOrdered(ms, 0, size);
    forall i | 0 <= i < |out|
      ensures out[i].offset == hs[i].offset
      ensures out[i].tag == Lower(hs[i].tag) && |out[i].tag| > 0 && out[i].tag[0] == 'h'
      ensures out[i].level == LevelOf(out[i].tag)
      ensures out[i].id == Disambiguated(Bases(hs, host), i)
      ensures NoIOccurrence(out[i].text, TocMarker) && NoIOccurrence(out[i].text, MiniTocMarker)
    {
      SameButIndent(recs, out, i);
      assert hs[i] in hs;
      EscapedHasNoMarker(PhpTrim(hs[i].text));
    }
  }

  /** The outline of a content is built from its heading matches as `Entries` describes. */
  lemma OutlineEntries(content: string, host: Host)
    ensures Entries(Scan(content, OutlineTags), TocOf(content, host), host)
  {
    MatchEntries(Scan(content, OutlineTags), |content|, host);
  }

  /**
   * Headings inside a `pre`, `code`, `blockquote`, `q` or `cite` element
   * are not in the outline: no entry starts inside a match of the scan
   * other than its own.
   */
  lemma SkippedInsideBlocks(content: string, host: Host, m: Match, e: Heading)
    requires m in Scan(content, OutlineTags) && !IsHeading(m)
    requires e in TocOf(content, host)
    ensures !(m.offset <= e.offset < m.end)
  {
    SkippedInsideMatch(Scan(content, OutlineTags), |content|, host, m, e);
  }

  lemma SkippedInsideMatch(ms: seq<Match>, size: nat, host: Host, m: Match, e: Heading)
    requires Ordered(ms, 0, size) && m in ms && !IsHeading(m)
    requires e in OutlineOf(ms, host)
    ensures !(m.offset <= e.offset < m.end)
  {
    var hs := Headings(ms);
    var out := OutlineOf(ms, host);
    OutlineOffsets(ms, host);
    var i :| 0 <= i < |out| && out[i] == e;
    var h := hs[i];
    assert h in hs;
    var a :| 0 <= a < |ms| && ms[a] == h;
    var b :| 0 <= b < |ms| && ms[b] == m;
    assert a != b;
  }

  /** The outline's offsets are those of the heading matches. */
  lemma OutlineOffsets(ms: seq<Match>, host: Host)
    ensures var hs := Headings(ms); var out := OutlineOf(ms, host);
      |out| == |hs| && forall i :: 0 <= i < |out| ==> out[i].offset == hs[i].offset
  {
    var hs := Headings(ms);
    var recs := Records(hs, host);
    FlatKeeps(recs, 0);
    forall i | 0 <= i < |recs| ensures Flat(recs, 0)[i].offset == hs[i].offset {
      SameButIndent(recs, Flat(recs, 0), i);
    }
  }
}
