/**
 * The block scanner shared by `createToc` and `tocify` (classes/Toc.php:43-47,
 * 70, 129-132): the case-insensitive pattern
 * `<(tag)\s*(attr)>(text)</tag>` with `tag` one of a list of names or `h`
 * followed by digits, `attr` everything up to the first `>` and `text` the
 * shortest run up to the matching closing tag. Matches are found left to
 * right, the search resuming after each one, so a heading inside a `pre`
 * block is swallowed by the block's match.
 */
module Scanner {
  import opened Wrappers
  import opened Text

  /** The names `createToc` lists before `h\d+`. */
  const OutlineTags: seq<string> := ["pre", "code", "blockquote", "q", "cite"]

  /** The names left after `tocify` removes `blockquote|q|cite|` from the pattern. */
  const RewriteTags: seq<string> := ["pre", "code"]

  /**
   * One match: where it starts, the tag as written, the attribute text, the
   * text, where the text starts, where the closing tag starts, and where
   * the match ends.
   */
  datatype Match = Match(offset: nat, tag: string, attr: string, text: string, inner: nat, close: nat, end: nat)

  function CloseTag(tag: string): string { "</" + tag + ">" }

  /** `h` followed by one or more digits, in either case. */
  predicate IsHTag(t: string) {
    |t| >= 2 && LowerChar(t[0]) == 'h' && forall i :: 1 <= i < |t| ==> IsDigit(t[i])
  }


  /** First index at or after `i` that is not whitespace. */
  function SpaceEnd(s: string, i: nat): (r: nat)
    requires i <= |s|
    ensures i <= r <= |s|
    decreases |s| - i
  {
    if i == |s| || !IsSpace(s[i]) then i else SpaceEnd(s, i + 1)
  }

  /** First index at or after `i` that is not a digit. */
  function DigitEnd(s: string, i: nat): (r: nat)
    requires i <= |s|
    ensures i <= r <= |s|
    decreases |s| - i
  {
    if i == |s| || !IsDigit(s[i]) then i else DigitEnd(s, i + 1)
  }

  lemma {:induction false} DigitEndSpec(s: string, i: nat)
    requires i <= |s|
    ensures forall k :: i <= k < DigitEnd(s, i) ==> IsDigit(s[k])
    ensures DigitEnd(s, i) < |s| ==> !IsDigit(s[DigitEnd(s, i)])
    decreases |s| - i
  {
    if i < |s| && IsDigit(s[i]) {
      DigitEndSpec(s, i + 1);
    }
  }

  /** First index at or after `i` holding `c`. */
  function FindChar(s: string, i: nat, c: char): (r: Option<nat>)
    requires i <= |s|
    ensures r.Some? ==> i <= r.value < |s|
    decreases |s| - i
  {
    if i == |s| then None else if s[i] == c then Some(i) else FindChar(s, i + 1, c)
  }

  lemma {:induction false} FindCharSpec(s: string, i: nat, c: char)
    requires i <= |s|
    ensures var r := FindChar(s, i, c);
      (r.Some? ==> s[r.value] == c && forall k :: i <= k < r.value ==> s[k] != c)
      && (r.None? ==> forall k :: i <= k < |s| ==> s[k] != c)
    decreases |s| - i
  {
    if i < |s| && s[i] != c {
      FindCharSpec(s, i + 1, c);
    }
  }

  /** First position at or after `i` where `w` occurs, ignoring case: the lazy `.*?` stops there. */
  function FindFrom(s: string, i: nat, w: string): (r: Option<nat>)
    requires i <= |s|
    ensures r.Some? ==> i <= r.value && r.value + |w| <= |s|
    decreases |s| - i
  {
    if IOccursAt(s, w, i) then Some(i)
    else if i == |s| then None
    else FindFrom(s, i + 1, w)
  }

  lemma {:induction false} FindFromSpec(s: string, i: nat, w: string)
    requires i <= |s|
    ensures var r := FindFrom(s, i, w);
      (r.Some? ==> IOccursAt(s, w, r.value) && forall k :: i <= k < r.value ==> !IOccursAt(s, w, k))
      && (r.None? ==> forall k :: i <= k <= |s| ==> !IOccursAt(s, w, k))
    decreases |s| - i
  {
    if !IOccursAt(s, w, i) && i < |s| {
      FindFromSpec(s, i + 1, w);
    }
  }

  /** The shape every match has: the tag after `<`, the attribute text up to the first `>`, the shortest text. */
  predicate Lazy(s: string, m: Match) {
    && m.offset < |s| && s[m.offset] == '<'
    && m.offset + 1 + |m.tag| <= |s| && m.tag == s[m.offset + 1..m.offset + 1 + |m.tag|]
    && m.offset + 1 + |m.tag| < m.inner <= m.close <= m.end <= |s|
    && s[m.inner - 1] == '>'
    && SpaceEnd(s, m.offset + 1 + |m.tag|) < m.inner
    && m.attr == s[SpaceEnd(s, m.offset + 1 + |m.tag|)..m.inner - 1]
    && (forall k :: 0 <= k < |m.attr| ==> m.attr[k] != '>')
    && m.text == s[m.inner..m.close]
    && IOccursAt(s, CloseTag(m.tag), m.close)
    && m.end == m.close + |CloseTag(m.tag)|
    && (forall k :: m.inner <= k < m.close ==> !IOccursAt(s, CloseTag(m.tag), k))
  }

  /** The rest of the pattern once the tag is taken to be the `len` characters after `<`. */
  function TryTag(s: string, p: nat, len: nat): (r: Option<Match>)
    requires p < |s| && s[p] == '<' && p + 1 + len <= |s|
    ensures r.Some? ==> r.value.offset == p < r.value.end <= |s|
  {
    var w := SpaceEnd(s, p + 1 + len);
    var c := FindChar(s, w, '>');
    if c.None? then None
    else
      var j := FindFrom(s, c.value + 1, CloseTag(s[p + 1..p + 1 + len]));
      if j.None? then None else Some(Pieces(s, p, len, w, c.value, j.value))
  }

  /**
   * The match made of the tag after `<`, the attribute text from `w` to the
   * `>` at `c`, and the text from there to the closing tag at `j`.
   */
  function Pieces(s: string, p: nat, len: nat, w: nat, c: nat, j: nat): Match
    requires p + 1 + len <= |s| && w <= c < j <= |s|
  {
    var tag := s[p + 1..p + 1 + len];
    Match(p, tag, s[w..c], s[c + 1..j], c + 1, j, j + |CloseTag(tag)|)
  }

  /** A match of the rest of the pattern has the shape of the pattern, with the tag tried. */
  lemma TryTagShape(s: string, p: nat, len: nat)
    requires p < |s| && s[p] == '<' && p + 1 + len <= |s| && TryTag(s, p, len).Some?
    ensures var m := TryTag(s, p, len).value; Lazy(s, m) && m.offset == p && |m.tag| == len
  {
    var w, c, j := TryTagPieces(s, p, len);
    LazyPieces(s, p, len, w, c, j);
  }

  /** A match the rest of the pattern makes is put together from the positions it found. */
  lemma TryTagPieces(s: string, p: nat, len: nat) returns (w: nat, c: nat, j: nat)
    requires p < |s| && s[p] == '<' && p + 1 + len <= |s| && TryTag(s, p, len).Some?
    ensures w == SpaceEnd(s, p + 1 + len)
    ensures FindChar(s, w, '>') == Some(c) && FindFrom(s, c + 1, CloseTag(s[p + 1..p + 1 + len])) == Some(j)
    ensures w <= c < j <= |s| && TryTag(s, p, len) == Some(Pieces(s, p, len, w, c, j))
  {
    w := SpaceEnd(s, p + 1 + len);
    c := FindChar(s, w, '>').value;
    j := FindFrom(s, c + 1, CloseTag(s[p + 1..p + 1 + len])).value;
  }

  /** The pieces the rest of the pattern finds make a match of the pattern's shape. */
  lemma LazyPieces(s: string, p: nat, len: nat, w: nat, c: nat, j: nat)
    requires p < |s| && s[p] == '<' && p + 1 + len <= |s| && w == SpaceEnd(s, p + 1 + len)
    requires FindChar(s, w, '>') == Some(c) && FindFrom(s, c + 1, CloseTag(s[p + 1..p + 1 + len])) == Some(j)
    ensures Lazy(s, Pieces(s, p, len, w, c, j)) && |Pieces(s, p, len, w, c, j).tag| == len
  {
    AttrStops(s, w, c);
    CloseFound(s, c + 1, CloseTag(s[p + 1..p + 1 + len]), j);
  }

  /** The attribute text runs up to the first `>` and holds none. */
  lemma AttrStops(s: string, w: nat, c: nat)
    requires w <= |s| && FindChar(s, w, '>') == Some(c)
    ensures s[c] == '>' && forall k :: 0 <= k < |s[w..c]| ==> s[w..c][k] != '>'
  {
    FindCharSpec(s, w, '>');
    assert forall k :: 0 <= k < |s[w..c]| ==> s[w..c][k] == s[w + k];
  }

  lemma CloseFound(s: string, i: nat, w: string, j: nat)
    requires i <= |s| && FindFrom(s, i, w) == Some(j)
    ensures IOccursAt(s, w, j) && forall k :: i <= k < j ==> !IOccursAt(s, w, k)
  {
    FindFromSpec(s, i, w);
  }

  /** One of `names` occurs, ignoring case, as the `len` characters after `<`. */
  predicate ListedAt(s: string, names: seq<string>, p: nat, len: nat) {
    exists i :: 0 <= i < |names| && |names[i]| == len && IOccursAt(s, names[i], p + 1)
  }

  /** Lengths of the listed names found after `<`, in the order of the alternation. */
  function ListedLens(s: string, names: seq<string>, p: nat): (r: seq<nat>)
    requires p < |s|
    ensures forall k :: 0 <= k < |r| ==> p + 1 + r[k] <= |s|
  {
    if |names| == 0 then []
    else
      var rest := ListedLens(s, names[1..], p);
      if IOccursAt(s, names[0], p + 1) then [|names[0]|] + rest else rest
  }

  /** The listed lengths are those of the names that occur after `<`. */
  lemma {:induction false} ListedLensSpec(s: string, names: seq<string>, p: nat)
    requires p < |s|
    ensures forall k :: 0 <= k < |ListedLens(s, names, p)| ==> ListedAt(s, names, p, ListedLens(s, names, p)[k])
    ensures forall i :: 0 <= i < |names| && IOccursAt(s, names[i], p + 1) ==> |names[i]| in ListedLens(s, names, p)
  {
    if |names| > 0 {
      var r, rest, tail := ListedLens(s, names, p), ListedLens(s, names[1..], p), names[1..];
      ListedLensSpec(s, tail, p);
      var skip := if IOccursAt(s, names[0], p + 1) then 1 else 0;
      assert r[skip..] == rest;
      forall k | 0 <= k < |r|
        ensures ListedAt(s, names, p, r[k])
      {
        if k < skip {
          assert |names[0]| == r[k];
        } else {
          assert r[k] == rest[k - skip];
          var i :| 0 <= i < |tail| && |tail[i]| == r[k] && IOccursAt(s, tail[i], p + 1);
          assert names[i + 1] == tail[i];
        }
      }
      forall i | 0 <= i < |names| && IOccursAt(s, names[i], p + 1)
        ensures |names[i]| in r
      {
        if i > 0 {
          assert names[i] == tail[i - 1];
        }
      }
    }
  }

  /** `h` and digits as the `len` characters after `<`. */
  predicate HTagAt(s: string, p: nat, len: nat) {
    p + 1 + len <= |s| && len >= 2 && LowerChar(s[p + 1]) == 'h'
    && forall k :: p + 2 <= k < p + 1 + len ==> IsDigit(s[k])
  }

  /** The alternation of `names` and `h\d+` accepts the `len` characters after `<` as the tag. */
  predicate Accepted(s: string, names: seq<string>, p: nat, len: nat) {
    ListedAt(s, names, p, len) || HTagAt(s, p, len)
  }

  lemma HTagAtIsHTag(s: string, p: nat, len: nat)
    requires HTagAt(s, p, len)
    ensures IsHTag(s[p + 1..p + 1 + len])
  {
    var t := s[p + 1..p + 1 + len];
    assert forall i :: 1 <= i < |t| ==> t[i] == s[p + 1 + i];
  }

  /** `1 + k` for `k` from `d` down to 1: `h\d+` gives back digits one at a time. */
  function Descending(d: nat): (r: seq<nat>)
    ensures forall k :: 0 <= k < |r| ==> 2 <= r[k] <= d + 1
  {
    if d == 0 then [] else [1 + d] + Descending(d - 1)
  }

  lemma {:induction false} DescendingComplete(d: nat)
    ensures forall k :: 2 <= k <= d + 1 ==> k in Descending(d)
  {
    if d > 0 {
      DescendingComplete(d - 1);
    }
  }

  /** Lengths of the `h\d+` candidates after `<`, longest first. */
  function HLens(s: string, p: nat): (r: seq<nat>)
    requires p < |s|
    ensures forall k :: 0 <= k < |r| ==> p + 1 + r[k] <= |s|
  {
    if p + 1 < |s| && LowerChar(s[p + 1]) == 'h' then Descending(DigitEnd(s, p + 2) - (p + 2)) else []
  }

  /** Every accepted tag after `<` is tried. */
  lemma CandidatesComplete(s: string, names: seq<string>, p: nat, len: nat)
    requires p < |s| && p + 1 + len <= |s| && Accepted(s, names, p, len)
    ensures len in ListedLens(s, names, p) + HLens(s, p)
  {
    if ListedAt(s, names, p, len) {
      ListedLensSpec(s, names, p);
    } else {
      var d := DigitEnd(s, p + 2) - (p + 2);
      DigitEndSpec(s, p + 2);
      assert len - 1 <= d;
      DescendingComplete(d);
    }
  }

  lemma TriedTagsAccepted(s: string, names: seq<string>, p: nat, k: nat)
    requires p < |s| && k < |ListedLens(s, names, p) + HLens(s, p)|
    ensures var len := (ListedLens(s, names, p) + HLens(s, p))[k];
      p + 1 + len <= |s| && Accepted(s, names, p, len)
  {
    var listed := ListedLens(s, names, p);
    if k < |listed| {
      ListedLensSpec(s, names, p);
    } else {
      var len := HLens(s, p)[k - |listed|];
      DigitEndSpec(s, p + 2);
      assert HTagAt(s, p, len);
    }
  }

  /** The first candidate for which the rest of the pattern matches. */
  function FirstTry(s: string, p: nat, lens: seq<nat>): (r: Option<Match>)
    requires p < |s| && s[p] == '<'
    requires forall k :: 0 <= k < |lens| ==> p + 1 + lens[k] <= |s|
    ensures r.Some? ==> r.value.offset == p < r.value.end <= |s|
  {
    if |lens| == 0 then None
    else match TryTag(s, p, lens[0])
      case Some(m) => Some(m)
      case None => FirstTry(s, p, lens[1..])
  }

  /** The first try is one of the candidates' tries, and when there is none every candidate fails. */
  lemma {:induction false} FirstTrySpec(s: string, p: nat, lens: seq<nat>)
    requires p < |s| && s[p] == '<'
    requires forall k :: 0 <= k < |lens| ==> p + 1 + lens[k] <= |s|
    ensures var r := FirstTry(s, p, lens);
      (r.Some? ==> exists k :: 0 <= k < |lens| && TryTag(s, p, lens[k]) == r)
      && (r.None? ==> forall k :: 0 <= k < |lens| ==> TryTag(s, p, lens[k]).None?)
  {
    if |lens| > 0 && TryTag(s, p, lens[0]).None? {
      FirstTrySpec(s, p, lens[1..]);
      assert forall k :: 1 <= k < |lens| ==> lens[k] == lens[1..][k - 1];
      var r := FirstTry(s, p, lens[1..]);
      if r.Some? {
        var k :| 0 <= k < |lens[1..]| && TryTag(s, p, lens[1..][k]) == r;
        assert TryTag(s, p, lens[k + 1]) == r;
      }
    }
  }

  /** The match starting at `p`, if any: the first tag candidate for which the rest of the pattern matches. */
  function MatchAt(s: string, names: seq<string>, p: nat): (r: Option<Match>)
    requires p < |s|
    ensures r.Some? ==> r.value.offset == p < r.value.end <= |s|
  {
    if s[p] != '<' then None
    else FirstTry(s, p, ListedLens(s, names, p) + HLens(s, p))
  }

  /** A match has the shape of the pattern, with a tag the alternation accepts. */
  lemma MatchShape(s: string, names: seq<string>, p: nat)
    requires p < |s| && MatchAt(s, names, p).Some?
    ensures var m := MatchAt(s, names, p).value;
      Lazy(s, m) && m.offset == p && Accepted(s, names, p, |m.tag|)
  {
    var lens := ListedLens(s, names, p) + HLens(s, p);
    FirstTrySpec(s, p, lens);
    var k :| 0 <= k < |lens| && TryTag(s, p, lens[k]) == MatchAt(s, names, p);
    TriedTagsAccepted(s, names, p, k);
    TryTagShape(s, p, lens[k]);
  }

  /** Where there is no match at a `<`, no accepted tag there completes the pattern. */
  lemma MatchComplete(s: string, names: seq<string>, p: nat, len: nat)
    requires p < |s| && s[p] == '<' && MatchAt(s, names, p).None?
    requires p + 1 + len <= |s| && Accepted(s, names, p, len)
    ensures TryTag(s, p, len).None?
  {
    CandidatesComplete(s, names, p, len);
    FirstTrySpec(s, p, ListedLens(s, names, p) + HLens(s, p));
  }

  /** Matches lie at or after `p`, within `size`, in order and without overlap. */
  predicate Ordered(ms: seq<Match>, p: nat, size: nat) {
    && (forall i :: 0 <= i < |ms| ==> p <= ms[i].offset < ms[i].end <= size)
    && (forall i, j :: 0 <= i < j < |ms| ==> ms[i].end <= ms[j].offset)
  }

  /**
   * What the pattern gives at each position: the match starting there, if
   * any. Scanning depends on the pattern only through this table.
   */
  function Table(s: string, names: seq<string>): (t: seq<Option<Match>>)
    ensures |t| == |s|
  {
    seq(|s|, q requires 0 <= q < |s| => MatchAt(s, names, q))
  }

  /** Each entry of a table starts where it is listed and ends after that, within the table. */
  predicate Proper(t: seq<Option<Match>>) {
    forall q :: 0 <= q < |t| && t[q].Some? ==> t[q].value.offset == q < t[q].value.end <= |t|
  }

  lemma TableProper(s: string, names: seq<string>)
    ensures Proper(Table(s, names))
  {
  }

  /** `preg_match_all` from position `p`: try each position, resume after every match. */
  function ScanFrom(t: seq<Option<Match>>, p: nat): (ms: seq<Match>)
    requires Proper(t) && p <= |t|
    ensures Ordered(ms, p, |t|)
    decreases |t| - p
  {
    if p == |t| then []
    else match t[p]
      case Some(m) =>
        var rest := ScanFrom(t, m.end);
        ConsOrdered(m, rest, p, |t|);
        [m] + rest
      case None => ScanFrom(t, p + 1)
  }

  lemma ConsOrdered(m: Match, rest: seq<Match>, p: nat, size: nat)
    requires p == m.offset < m.end <= size && Ordered(rest, m.end, size)
    ensures Ordered([m] + rest, p, size)
  {
    var ms := [m] + rest;
    assert forall i :: 1 <= i < |ms| ==> ms[i] == rest[i - 1];
  }

  /** The matches of the pattern in `s`, left to right. */
  function Scan(s: string, names: seq<string>): (ms: seq<Match>)
    ensures Ordered(ms, 0, |s|)
  {
    TableProper(s, names);
    ScanFrom(Table(s, names), 0)
  }

  /** Each match is the table's entry at its own offset. */
  predicate Listed(t: seq<Option<Match>>, ms: seq<Match>) {
    forall i :: 0 <= i < |ms| ==> ms[i].offset < |t| && t[ms[i].offset] == Some(ms[i])
  }

  lemma {:induction false} ScanListed(t: seq<Option<Match>>, p: nat)
    requires Proper(t) && p <= |t|
    ensures Listed(t, ScanFrom(t, p))
    decreases |t| - p
  {
    if p < |t| {
      match t[p]
      case Some(m) =>
        ScanListed(t, m.end);
        var rest := ScanFrom(t, m.end);
        var ms := [m] + rest;
        assert ScanFrom(t, p) == ms;
        assert forall i :: 1 <= i < |ms| ==> ms[i] == rest[i - 1];
      case None =>
        ScanListed(t, p + 1);
    }
  }

  /** Each match is the match of the pattern at its own offset. */
  predicate AllMatch(s: string, names: seq<string>, ms: seq<Match>) {
    forall i :: 0 <= i < |ms| ==> ms[i].offset < |s| && MatchAt(s, names, ms[i].offset) == Some(ms[i])
  }

  /** Every match of the scan is the match of the pattern at its own offset. */
  lemma ScanMatches(s: string, names: seq<string>)
    ensures AllMatch(s, names, Scan(s, names))
  {
    TableProper(s, names);
    var t := Table(s, names);
    ScanListed(t, 0);
    var ms := Scan(s, names);
    forall i | 0 <= i < |ms|
      ensures ms[i].offset < |s| && MatchAt(s, names, ms[i].offset) == Some(ms[i])
    {
      assert t[ms[i].offset] == Some(ms[i]);
    }
  }

  /** Position `q` lies inside one of the matches. */
  predicate Covered(ms: seq<Match>, q: nat) {
    exists i :: 0 <= i < |ms| && ms[i].offset <= q < ms[i].end
  }

  /** The scan misses nothing: every position outside the matches has no entry. */
  lemma {:induction false} ScanFromIsLeftmost(t: seq<Option<Match>>, p: nat, q: nat)
    requires Proper(t) && p <= q < |t| && !Covered(ScanFrom(t, p), q)
    ensures t[q].None?
    decreases |t| - p
  {
    match t[p]
    case Some(m) =>
      var rest := ScanFrom(t, m.end);
      assert ScanFrom(t, p) == [m] + rest;
      NotCoveredTail(m, rest, q);
      ScanFromIsLeftmost(t, m.end, q);
    case None =>
      if q > p {
        ScanFromIsLeftmost(t, p + 1, q);
      }
  }

  /** No match of the pattern starts at a position outside every match of the scan. */
  lemma ScanIsLeftmost(s: string, names: seq<string>, q: nat)
    requires q < |s| && !Covered(Scan(s, names), q)
    ensures MatchAt(s, names, q).None?
  {
    TableProper(s, names);
    ScanFromIsLeftmost(Table(s, names), 0, q);
  }

  lemma NotCoveredTail(m: Match, rest: seq<Match>, q: nat)
    requires !Covered([m] + rest, q)
    ensures !(m.offset <= q < m.end) && !Covered(rest, q)
  {
    var ms := [m] + rest;
    assert ms[0] == m;
    assert forall i :: 0 <= i < |rest| ==> ms[i + 1] == rest[i];
  }

  /** The offsets of the scan, strictly increasing. */
  lemma OffsetsIncrease(ms: seq<Match>, p: nat, size: nat)
    requires Ordered(ms, p, size)
    ensures forall i, j :: 0 <= i < j < |ms| ==> ms[i].offset < ms[j].offset
  {
  }
}
