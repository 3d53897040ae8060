/**
 * `tocify` (classes/Toc.php:126-184): the content is scanned with the
 * heading pattern less `blockquote|q|cite`, and `preg_replace_callback`
 * rewrites every heading with non-empty text into a tag carrying its id,
 * an optional permalink anchor and escaped placeholders. Everything else,
 * `pre` and `code` elements and empty headings included, is kept byte for byte.
 */
module Rewrite {
  import opened Wrappers
  import opened Text
  import opened Markers
  import opened Attributes
  import opened Scanner
  import opened Ids
  import opened Outline
  import Slug

  /** The two options the callback reads; an unset `anchorlink` follows `permalink`. */
  datatype Options = Options(permalink: bool, anchorlink: Option<bool>)

  /** `$options->get('anchorlink', $options->get('permalink'))`. */
  function LinkOn(o: Options): bool {
    match o.anchorlink
    case Some(b) => b
    case None => o.permalink
  }

  /** The callback rewrites a match when its lowercased tag starts with `h` and its trimmed text is not empty. */
  predicate Eligible(m: Match) {
    IsHeading(m) && |PhpTrim(m.text)| > 0
  }

  /** The matches the callback rewrites, in order. */
  function Eligibles(ms: seq<Match>): (es: seq<Match>)
    ensures |es| <= |ms|
  {
    if |ms| == 0 then []
    else Eligibles(ms[..|ms| - 1]) + (if Eligible(ms[|ms| - 1]) then [ms[|ms| - 1]] else [])
  }

  /**
   * The id the callback gives the `i`-th match when it rewrites it: the
   * rule of `createToc`, applied to the rewritten matches up to this one.
   */
  function IdAt(ms: seq<Match>, i: nat, host: Host): string
    requires i < |ms|
  {
    var before := Eligibles(ms[..i]);
    Disambiguated(Bases(before + [ms[i]], host), |before|)
  }

  /** The permalink `sprintf` builds from the id and the text. */
  function Anchor(id: string, text: string): string {
    "<a class=\"headeranchor-link\" aria-hidden=\"true\" href=\"#" + id + "\" name=\"" + id
      + "\" title=\"Permanent link: " + text + "\">" + text + "</a>"
  }

  /** The element's new content: the trimmed text, inside a permalink when asked for, placeholders escaped. */
  function Inner(text: string, id: string, o: Options): string {
    EscapeMarkers(if o.permalink then Anchor(id, text) else text)
  }

  /** `$attributes += $link ? ['id' => $id] : []`: the union adds the key only when it is missing; a key holding null is there. */
  function WithId(attrs: AttrMap, id: string, link: bool): AttrMap {
    if link && Find(attrs, "id").None? then attrs + [Attr("id", Some(id))] else attrs
  }

  /** What the callback returns for a match it rewrites with id `id`. */
  function Rewritten(m: Match, id: string, o: Options): string {
    var tag := Lower(m.tag);
    "<" + tag + Serialized(WithId(Parsed(m.attr), id, LinkOn(o))) + ">" + Inner(PhpTrim(m.text), id, o) + "</" + tag + ">"
  }

  /** The callback's result for each match; `None` where it returns `$match[0]`. */
  function Replacements(ms: seq<Match>, o: Options, host: Host): (reps: seq<Option<string>>)
    ensures |reps| == |ms|
  {
    seq(|ms|, i requires 0 <= i < |ms| => if Eligible(ms[i]) then Some(Rewritten(ms[i], IdAt(ms, i, host), o)) else None)
  }

  /**
   * `preg_replace_callback` from position `from`: the text between matches
   * kept, each match replaced by its result, or kept when there is none.
   */
  function Weave(s: string, ms: seq<Match>, reps: seq<Option<string>>, from: nat): string
    requires |reps| == |ms| && from <= |s| && Ordered(ms, from, |s|)
    decreases |ms|
  {
    if |ms| == 0 then s[from..]
    else
      var m := ms[0];
      OrderedTail(ms, from, |s|);
      s[from..m.offset] + reps[0].GetOr(s[m.offset..m.end]) + Weave(s, ms[1..], reps[1..], m.end)
  }

  lemma OrderedTail(ms: seq<Match>, p: nat, size: nat)
    requires |ms| > 0 && Ordered(ms, p, size)
    ensures Ordered(ms[1..], ms[0].end, size)
  {
    assert forall i :: 0 <= i < |ms[1..]| ==> ms[1..][i] == ms[i + 1];
  }

  /** The content after the callback has run over the matches `ms` of `s`. */
  function RewriteAll(s: string, ms: seq<Match>, o: Options, host: Host): string
    requires Ordered(ms, 0, |s|)
  {
    Weave(s, ms, Replacements(ms, o, host), 0)
  }

  /** What `tocify` returns. */
  function Tocified(content: string, o: Options, host: Host): string {
    RewriteAll(content, Scan(content, RewriteTags), o, host)
  }

  /** `tocify`: the scan, then the replacement. */
  method Tocify(content: string, o: Options, host: Host) returns (result: string)
    ensures result == Tocified(content, o, host)
  {
    var matches := Scan(content, RewriteTags);
    result := ReplaceMatches(content, matches, o, host);
  }

  /**
   * The replacement loop of `preg_replace_callback`: the text before each
   * match, then what the callback returns for it, then the rest.
   */
  method ReplaceMatches(s: string, matches: seq<Match>, o: Options, host: Host) returns (result: string)
    requires Ordered(matches, 0, |s|)
    ensures result == RewriteAll(s, matches, o, host)
  {
    ghost var reps := Replacements(matches, o, host);
    ghost var total := RewriteAll(s, matches, o, host);
    result := "";
    var pos: nat := 0;
    var counter: map<string, nat> := map[];
    assert matches[0..] == matches && reps[0..] == reps;
    for i := 0 to |matches|
      invariant pos <= |s| && Ordered(matches[i..], pos, |s|)
      invariant result + Weave(s, matches[i..], reps[i..], pos) == total
      invariant Tracks(counter, Bases(Eligibles(matches[..i]), host))
    {
      var m := matches[i];
      WeaveStep(s, matches, reps, i, pos);
      var rep;
      rep, counter := Callback(m, o, host, counter, Eligibles(matches[..i]));
      ReplacementAt(matches, i, o, host);
      assert rep == reps[i];
      var piece := if rep.Some? then rep.value else s[m.offset..m.end];
      Regroup(result, s[pos..m.offset], piece, Weave(s, matches[i + 1..], reps[i + 1..], m.end));
      result := result + s[pos..m.offset] + piece;
      pos := m.end;
    }
    result := result + s[pos..];
  }

  /**
   * The callback, with the counter it shares by reference passed in and
   * out; `before` are the matches it rewrote so far. `None` stands for
   * returning `$match[0]`.
   */
  method Callback(m: Match, o: Options, host: Host, counter: map<string, nat>, ghost before: seq<Match>)
    returns (rep: Option<string>, counter': map<string, nat>)
    requires Tracks(counter, Bases(before, host))
    ensures rep == if Eligible(m) then Some(Rewritten(m, Disambiguated(Bases(before + [m], host), |before|), o)) else None
    ensures Tracks(counter', Bases(before + (if Eligible(m) then [m] else []), host))
  {
    var tag := Lower(m.tag);
    var text := PhpTrim(m.text);
    EligibleTest(m);
    if !(|tag| > 0 && tag[0] == 'h' && |text| > 0) {
      assert before + [] == before;
      return None, counter;
    }
    var attributes := ParseAttributes(m.attr);
    var base := BaseId(attributes, text, host);
    assert base == Base(m, host);
    var id;
    id, counter' := Register(counter, base);
    CounterStep(before, m, host, counter, base, counter', id);
    var piece := Render(m, tag, text, attributes, id, o);
    rep := Some(piece);
  }

  /** `isset($counter[$id])`: a repeated base id gets the count so far as suffix, and the count goes up. */
  method Register(counter: map<string, nat>, base: string) returns (id: string, counter': map<string, nat>)
    ensures id == NextId(counter, base) && counter' == Bump(counter, base)
  {
    if base in counter {
      var k := counter[base];
      counter' := counter[base := k + 1];
      id := base + "-" + NatToString(k);
    } else {
      counter' := counter[base := 1];
      id := base;
    }
  }

  /** The rest of the callback: permalink, id attribute, escaping, attributes, and the tag. */
  method Render(m: Match, tag: string, text: string, attrs: AttrMap, id: string, o: Options) returns (piece: string)
    requires tag == Lower(m.tag) && text == PhpTrim(m.text) && attrs == Parsed(m.attr)
    ensures piece == Rewritten(m, id, o)
  {
    var shown := text;
    if o.permalink {
      shown := Anchor(id, text);
    }
    var attributes := attrs;
    var link := LinkOn(o);
    if link && Find(attributes, "id").None? {
      attributes := attributes + [Attr("id", Some(id))];
    }
    shown := EscapeMarkers(shown);
    var html := HtmlAttributes(attributes);
    piece := "<" + tag + html + ">" + shown + "</" + tag + ">";
    PieceIsRewritten(m, id, o, tag, attributes, shown, piece);
  }

  /** The tag the callback assembles piece by piece is `Rewritten`. */
  lemma PieceIsRewritten(m: Match, id: string, o: Options, tag: string, attrs: AttrMap, shown: string, piece: string)
    requires tag == Lower(m.tag) && attrs == WithId(Parsed(m.attr), id, LinkOn(o))
    requires shown == Inner(PhpTrim(m.text), id, o)
    requires piece == "<" + tag + Serialized(attrs) + ">" + shown + "</" + tag + ">"
    ensures piece == Rewritten(m, id, o)
  {
  }

  /** One step of the weave: the gap before the match, its result, and the rest after it. */
  lemma WeaveStep(s: string, ms: seq<Match>, reps: seq<Option<string>>, i: nat, pos: nat)
    requires i < |ms| == |reps| && pos <= |s| && Ordered(ms[i..], pos, |s|)
    ensures Ordered(ms[i + 1..], ms[i].end, |s|) && pos <= ms[i].offset < ms[i].end <= |s|
    ensures Weave(s, ms[i..], reps[i..], pos)
      == s[pos..ms[i].offset] + reps[i].GetOr(s[ms[i].offset..ms[i].end]) + Weave(s, ms[i + 1..], reps[i + 1..], ms[i].end)
  {
    assert ms[i..][0] == ms[i] && reps[i..][0] == reps[i];
    assert ms[i..][1..] == ms[i + 1..] && reps[i..][1..] == reps[i + 1..];
    OrderedTail(ms[i..], pos, |s|);
  }

  lemma EligiblesSnoc(ms: seq<Match>, i: nat)
    requires i < |ms|
    ensures Eligibles(ms[..i + 1]) == Eligibles(ms[..i]) + (if Eligible(ms[i]) then [ms[i]] else [])
  {
    assert ms[..i + 1][..i] == ms[..i];
  }

  /** The callback's test is `Eligible`. */
  lemma EligibleTest(m: Match)
    ensures (|Lower(m.tag)| > 0 && Lower(m.tag)[0] == 'h' && |PhpTrim(m.text)| > 0) == Eligible(m)
  {
  }

  /** The `i`-th replacement is the callback's result given the matches rewritten before it. */
  lemma ReplacementAt(ms: seq<Match>, i: nat, o: Options, host: Host)
    requires i < |ms|
    ensures Replacements(ms, o, host)[i]
      == if Eligible(ms[i]) then Some(Rewritten(ms[i], Disambiguated(Bases(Eligibles(ms[..i]) + [ms[i]], host), |Eligibles(ms[..i])|), o)) else None
    ensures Eligibles(ms[..i + 1]) == Eligibles(ms[..i]) + (if Eligible(ms[i]) then [ms[i]] else [])
  {
    EligiblesSnoc(ms, i);
  }

  /** Where the callback returns every match unchanged, the weave gives back the text. */
  lemma {:induction false} WeaveKeeps(s: string, ms: seq<Match>, reps: seq<Option<string>>, from: nat)
    requires |reps| == |ms| && from <= |s| && Ordered(ms, from, |s|)
    requires forall k :: 0 <= k < |reps| ==> reps[k].None?
    ensures Weave(s, ms, reps, from) == s[from..]
    decreases |ms|
  {
    if |ms| > 0 {
      var m := ms[0];
      OrderedTail(ms, from, |s|);
      assert forall k :: 0 <= k < |reps[1..]| ==> reps[1..][k] == reps[k + 1];
      WeaveKeeps(s, ms[1..], reps[1..], m.end);
      assert s[from..m.offset] + s[m.offset..m.end] + s[m.end..] == s[from..];
    }
  }

  /** Content none of whose matches is a heading with text comes back unchanged. */
  lemma NothingToRewrite(s: string, ms: seq<Match>, o: Options, host: Host)
    requires Ordered(ms, 0, |s|)
    requires forall i :: 0 <= i < |ms| ==> !Eligible(ms[i])
    ensures RewriteAll(s, ms, o, host) == s
  {
    var reps := Replacements(ms, o, host);
    assert forall k :: 0 <= k < |reps| ==> reps[k].None?;
    WeaveKeeps(s, ms, reps, 0);
  }

  /** `tocify` leaves content alone when its scan finds no heading with text. */
  lemma TocifyKeepsPlainContent(content: string, o: Options, host: Host)
    requires forall i :: 0 <= i < |Scan(content, RewriteTags)| ==> !Eligible(Scan(content, RewriteTags)[i])
    ensures Tocified(content, o, host) == content
  {
    NothingToRewrite(content, Scan(content, RewriteTags), o, host);
  }

  /**
   * The id attribute of a rewritten tag: added with the counter's id when
   * links are on and the tag had no id key, the tag's own otherwise; no
   * other attribute changes, and names stay distinct.
   */
  lemma IdAttribute(attrs: AttrMap, id: string, link: bool)
    requires DistinctNames(attrs)
    ensures DistinctNames(WithId(attrs, id, link))
    ensures Lookup(WithId(attrs, id, link), "id")
      == if link && Lookup(attrs, "id").None? then Some(Some(id)) else Lookup(attrs, "id")
    ensures forall n :: n != "id" ==> Lookup(WithId(attrs, id, link), n) == Lookup(attrs, n)
  {
    if link && Find(attrs, "id").None? {
      assert WithId(attrs, id, link) == Put(attrs, Attr("id", Some(id)));
    }
  }

  /** The new content of a rewritten heading holds neither placeholder. */
  lemma InnerHasNoMarker(text: string, id: string, o: Options)
    ensures NoIOccurrence(Inner(text, id, o), TocMarker) && NoIOccurrence(Inner(text, id, o), MiniTocMarker)
  {
    EscapedHasNoMarker(if o.permalink then Anchor(id, text) else text);
  }

  /** The rewritten matches up to any point come first among all of them. */
  lemma {:induction false} EligiblesPrefix(ms: seq<Match>, n: nat)
    requires n <= |ms|
    ensures Eligibles(ms[..n]) <= Eligibles(ms)
  {
    if n < |ms| {
      var p := ms[..|ms| - 1];
      assert p[..n] == ms[..n];
      EligiblesPrefix(p, n);
    } else {
      assert ms[..n] == ms;
    }
  }

  lemma BasesPrefix(hs: seq<Match>, es: seq<Match>, host: Host)
    requires hs <= es
    ensures Bases(hs, host) == Bases(es, host)[..|hs|]
  {
  }

  /** An id depends only on the base ids up to its own. */
  lemma DisambiguatedPrefix(bs: seq<string>, k: nat, n: nat)
    requires k < n <= |bs|
    ensures Disambiguated(bs[..n], k) == Disambiguated(bs, k)
  {
    assert bs[..n][..k] == bs[..k];
  }

  /** The rewritten matches up to and including an eligible one end with it, and lead all of them. */
  lemma EligibleIndex(ms: seq<Match>, i: nat)
    requires i < |ms| && Eligible(ms[i])
    ensures var es := Eligibles(ms); var a := |Eligibles(ms[..i])|;
      a < |es| && es[a] == ms[i] && Eligibles(ms[..i]) + [ms[i]] <= es
  {
    EligiblesSnoc(ms, i);
    EligiblesPrefix(ms, i + 1);
    var pre := Eligibles(ms[..i]) + [ms[i]];
    assert pre[|pre| - 1] == ms[i];
  }

  /**
   * `tocify` gives the rewritten headings the ids `createToc`'s rule gives
   * them: disambiguated over the base ids of all rewritten headings, by position.
   */
  lemma IdAtIsDisambiguated(ms: seq<Match>, i: nat, host: Host)
    requires i < |ms| && Eligible(ms[i])
    ensures |Eligibles(ms[..i])| < |Eligibles(ms)|
    ensures IdAt(ms, i, host) == Disambiguated(Bases(Eligibles(ms), host), |Eligibles(ms[..i])|)
  {
    var before := Eligibles(ms[..i]);
    var es := Eligibles(ms);
    EligibleIndex(ms, i);
    var bs := Bases(es, host);
    BasesPrefix(before + [ms[i]], es, host);
    assert Bases(before + [ms[i]], host) == bs[..|before| + 1];
    DisambiguatedPrefix(bs, |before|, |before| + 1);
  }

  /** An eligible match before another counts among the rewritten matches before it. */
  lemma EligibleOrder(ms: seq<Match>, i: nat, j: nat)
    requires i < j < |ms| && Eligible(ms[i])
    ensures |Eligibles(ms[..i])| < |Eligibles(ms[..j])|
  {
    var p := ms[..j];
    assert p[..i] == ms[..i];
    assert p[i] == ms[i];
    EligibleIndex(p, i);
  }

  /** Two rewritten headings with the same base id get different ids. */
  lemma RewrittenIdsDiffer(ms: seq<Match>, i: nat, j: nat, host: Host)
    requires i < j < |ms| && Eligible(ms[i]) && Eligible(ms[j]) && Base(ms[i], host) == Base(ms[j], host)
    ensures IdAt(ms, i, host) != IdAt(ms, j, host)
  {
    var es := Eligibles(ms);
    var a := |Eligibles(ms[..i])|;
    var b := |Eligibles(ms[..j])|;
    IdAtIsDisambiguated(ms, i, host);
    IdAtIsDisambiguated(ms, j, host);
    EligibleIndex(ms, i);
    EligibleIndex(ms, j);
    EligibleOrder(ms, i, j);
    var bs := Bases(es, host);
    assert bs[a] == Base(ms[i], host) && bs[b] == Base(ms[j], host);
    RepeatsDiffer(bs, a, b);
  }

  /** Every name and every value of the map is free of placeholders. */
  predicate AttrsUnmarked(m: AttrMap) {
    forall i :: 0 <= i < |m| ==> Unmarked(m[i].name) && (m[i].value.Some? ==> Unmarked(m[i].value.value))
  }

  /** The names and values scanned from attribute text are pieces of it. */
  lemma {:induction false} ScanUnmarked(x: string)
    requires Unmarked(x)
    ensures AttrsUnmarked(AttrScan(x))
    decreases |x|
  {
    if |x| > 0 {
      match AttrAt(x)
      case Some(t) =>
        CapturedUnmarked(x, t);
        UnmarkedSlice(x, t.len, |x|);
        assert x[t.len..|x|] == x[t.len..];
        ScanUnmarked(x[t.len..]);
        ConsUnmarked(Captured(t), AttrScan(x[t.len..]));
      case None =>
        UnmarkedSlice(x, 1, |x|);
        assert x[1..|x|] == x[1..];
        ScanUnmarked(x[1..]);
    }
  }

  lemma CapturedUnmarked(x: string, t: Token)
    requires Unmarked(x) && AttrAt(x) == Some(t)
    ensures Unmarked(Captured(t).name) && (Captured(t).value.Some? ==> Unmarked(Captured(t).value.value))
  {
    UnmarkedSlice(x, 0, |t.name|);
    assert x[0..|t.name|] == t.name;
    if t.value.Some? {
      var v := t.value.value;
      UnmarkedSlice(x, |t.name| + 1, t.len);
      var i, j := TrimCutsOnlyListed(v, Quotes);
      UnmarkedSlice(v, i, j);
    }
  }

  lemma ConsUnmarked(a: Attr, m: AttrMap)
    requires Unmarked(a.name) && (a.value.Some? ==> Unmarked(a.value.value)) && AttrsUnmarked(m)
    ensures AttrsUnmarked([a] + m)
  {
    assert forall i :: 0 < i < |m| + 1 ==> ([a] + m)[i] == m[i - 1];
  }

  /** Filling the array only keeps entries it was given. */
  lemma {:induction false} CollectUnmarked(xs: seq<Attr>)
    requires AttrsUnmarked(xs)
    ensures AttrsUnmarked(Collect(xs))
  {
    if |xs| > 0 {
      var p := xs[..|xs| - 1];
      assert AttrsUnmarked(p);
      CollectUnmarked(p);
      PutUnmarked(Collect(p), xs[|xs| - 1]);
    }
  }

  /** Putting an entry without placeholders into an array without them keeps it so. */
  lemma PutUnmarked(m: AttrMap, a: Attr)
    requires DistinctNames(m) && AttrsUnmarked(m)
    requires Unmarked(a.name) && (a.value.Some? ==> Unmarked(a.value.value))
    ensures AttrsUnmarked(Put(m, a))
  {
    var r := Put(m, a);
    if exists i :: 0 <= i < |m| && m[i].name == a.name {
      assert forall i :: 0 <= i < |r| ==> r[i] == if m[i].name == a.name then a else m[i];
    } else {
      assert r == m + [a];
    }
  }

  /** The attributes of text without placeholders have none. */
  lemma ParsedUnmarked(x: string)
    requires Unmarked(x)
    ensures AttrsUnmarked(Parsed(x))
  {
    ScanUnmarked(x);
    CollectUnmarked(AttrScan(x));
  }

  lemma LiteralUnmarked()
    ensures Unmarked("<") && Unmarked(">") && Unmarked("</") && Unmarked("=\"") && Unmarked("\"")
    ensures Unmarked(" ") && Unmarked("-") && Unmarked("id") && Unmarked("")
    ensures IsStop('<') && IsStop('>') && IsStop('/') && IsStop('=') && IsStop('"')
    ensures IsStop(' ') && IsStop('-') && IsStop('&') && IsStop(';')
  {
    NoBracketUnmarked("<");
    NoBracketUnmarked(">");
    NoBracketUnmarked("</");
    NoBracketUnmarked("=\"");
    NoBracketUnmarked("\"");
    NoBracketUnmarked(" ");
    NoBracketUnmarked("-");
    NoBracketUnmarked("id");
    NoBracketUnmarked("");
    NonLetterStops('<');
    NonLetterStops('>');
    NonLetterStops('/');
    NonLetterStops('=');
    NonLetterStops('"');
    NonLetterStops(' ');
    NonLetterStops('-');
    NonLetterStops('&');
    NonLetterStops(';');
  }

  /**
   * Escaping creates no placeholder: every character it adds stands in an
   * entity that starts with `&` and ends with `;`.
   */
  lemma {:induction false} EscapeUnmarked(a: string, v: string)
    requires Unmarked(a + v)
    ensures Unmarked(a + Escape(v))
    decreases |v|
  {
    if |v| == 0 {
      assert Escape(v) == v;
    } else if IsSpecial(v[0]) {
      EscapedCharUnmarked(a, v);
      EscapeUnmarked([], v[1..]);
      EscapeSpecialStep(a, v);
    } else {
      assert (a + [v[0]]) + v[1..] == a + v;
      EscapeUnmarked(a + [v[0]], v[1..]);
      EscapePlainStep(a, v);
    }
  }

  lemma EscapeSpecialStep(a: string, v: string)
    requires |v| > 0 && IsSpecial(v[0])
    requires Unmarked(a + EscapeChar(v[0])) && Unmarked([] + Escape(v[1..]))
    ensures Unmarked(a + Escape(v))
  {
    var e, tail := EscapeChar(v[0]), Escape(v[1..]);
    assert [] + tail == tail;
    EntityShape(v[0]);
    JoinEntity(a, e, tail);
    EscapeSplits(a, v);
  }

  lemma EscapePlainStep(a: string, v: string)
    requires |v| > 0 && !IsSpecial(v[0])
    requires Unmarked((a + [v[0]]) + Escape(v[1..]))
    ensures Unmarked(a + Escape(v))
  {
    EscapeSplits(a, v);
    assert EscapeChar(v[0]) == [v[0]];
    assert a + [v[0]] + Escape(v[1..]) == (a + [v[0]]) + Escape(v[1..]);
  }

  lemma JoinEntity(a: string, e: string, tail: string)
    requires Unmarked(a + e) && |e| > 0 && e[|e| - 1] == ';' && Unmarked(tail)
    ensures Unmarked(a + e + tail)
  {
    assert (a + e)[|a + e| - 1] == ';';
    LiteralUnmarked();
    UnmarkedConcat(a + e, tail);
  }

  /** The entity of a special character runs from `&` to `;` and holds no `[`. */
  lemma EntityShape(c: char)
    requires IsSpecial(c)
    ensures var e := EscapeChar(c);
      |e| > 0 && e[0] == '&' && e[|e| - 1] == ';' && forall i :: 0 <= i < |e| ==> e[i] != '['
  {
  }

  lemma EscapedCharUnmarked(a: string, v: string)
    requires |v| > 0 && IsSpecial(v[0]) && Unmarked(a + v)
    ensures Unmarked(a + EscapeChar(v[0])) && Unmarked([] + v[1..])
  {
    var e := EscapeChar(v[0]);
    assert (a + v)[..|a|] == a && (a + v)[|a| + 1..] == v[1..] && [] + v[1..] == v[1..];
    UnmarkedSlice(a + v, 0, |a|);
    UnmarkedSlice(a + v, |a| + 1, |a + v|);
    assert (a + v)[0..|a|] == a && (a + v)[|a| + 1..|a + v|] == v[1..];
    EntityShape(v[0]);
    NoBracketUnmarked(e);
    LiteralUnmarked();
    UnmarkedConcat(a, e);
  }

  /** The serialized attributes of a map without placeholders have none, and start with a space. */
  lemma {:induction false} SerializedUnmarked(m: AttrMap)
    requires AttrsUnmarked(m)
    ensures Unmarked(Serialized(m)) && (|Serialized(m)| > 0 ==> Serialized(m)[0] == ' ')
  {
    LiteralUnmarked();
    if |m| > 0 {
      var e := Entry(m[0]);
      EntryUnmarked(m[0]);
      assert AttrsUnmarked(m[1..]);
      SerializedUnmarked(m[1..]);
      UnmarkedConcat(" ", e);
      assert (" " + e)[|" " + e| - 1] == e[|e| - 1];
      UnmarkedConcat(" " + e, Serialized(m[1..]));
    }
  }

  lemma EntryUnmarked(a: Attr)
    requires Unmarked(a.name) && (a.value.Some? ==> Unmarked(a.value.value))
    ensures Unmarked(Entry(a)) && |Entry(a)| > 0 && Entry(a)[|Entry(a)| - 1] == '"'
  {
    LiteralUnmarked();
    var v := a.value.GetOr("");
    assert [] + v == v;
    EscapeUnmarked([], v);
    assert [] + Escape(v) == Escape(v);
    var x := a.name + "=\"";
    UnmarkedConcat(a.name, "=\"");
    UnmarkedConcat(x, Escape(v));
    UnmarkedConcat(x + Escape(v), "\"");
  }

  /** With a hexadecimal digest, the base id of a heading whose attribute text has no placeholder has none. */
  lemma BaseUnmarked(m: Match, host: Host)
    requires HexDigest(host) && Unmarked(m.attr)
    ensures Unmarked(Base(m, host))
  {
    var attrs := Parsed(m.attr);
    var text := PhpTrim(m.text);
    var id := Base(m, host);
    ParsedUnmarked(m.attr);
    match ExplicitId(attrs)
    case Some(v) =>
      var i := Find(attrs, "id").value;
      assert Unmarked(v);
      if |v| == 0 {
        DigestUnmarked(host, text);
      }
    case None =>
      GeneratedIdIsSlug(attrs, text, host);
      NoBracketUnmarked(id);
  }

  lemma DigestUnmarked(host: Host, text: string)
    requires HexDigest(host)
    ensures Unmarked(Prefix(host.md5(text), 6))
  {
    var d := host.md5(text);
    var p := Prefix(d, 6);
    assert forall i :: 0 <= i < |p| ==> p[i] == d[i];
    NoBracketUnmarked(p);
  }

  /** The counter's suffix adds no placeholder. */
  lemma DisambiguatedUnmarked(bs: seq<string>, i: nat)
    requires i < |bs| && Unmarked(bs[i])
    ensures Unmarked(Disambiguated(bs, i))
  {
    var k := Count(bs[..i], bs[i]);
    if k > 0 {
      LiteralUnmarked();
      NoBracketUnmarked(NatToString(k));
      UnmarkedConcat(bs[i], "-");
      UnmarkedConcat(bs[i] + "-", NatToString(k));
    }
  }

  /** A rewritten heading has no placeholder when its tag, attribute text and id have none; it is a tag, from `<` to `>`. */
  lemma RewrittenUnmarked(m: Match, id: string, o: Options)
    requires Unmarked(m.tag) && Unmarked(m.attr) && Unmarked(id)
    ensures var r := Rewritten(m, id, o); Unmarked(r) && |r| > 0 && r[0] == '<' && r[|r| - 1] == '>'
  {
    var tag := Lower(m.tag);
    var attrs := WithId(Parsed(m.attr), id, LinkOn(o));
    var ser := Serialized(attrs);
    var inner := Inner(PhpTrim(m.text), id, o);
    LiteralUnmarked();
    UnmarkedLower(m.tag);
    ParsedUnmarked(m.attr);
    if attrs != Parsed(m.attr) {
      assert attrs == Parsed(m.attr) + [Attr("id", Some(id))];
    }
    assert AttrsUnmarked(attrs);
    SerializedUnmarked(attrs);
    InnerHasNoMarker(PhpTrim(m.text), id, o);
    TagUnmarked(tag, ser, inner);
  }

  lemma TagUnmarked(tag: string, ser: string, inner: string)
    requires Unmarked(tag) && Unmarked(ser) && (|ser| > 0 ==> ser[0] == ' ') && Unmarked(inner)
    ensures var r := "<" + tag + ser + ">" + inner + "</" + tag + ">";
      Unmarked(r) && |r| > 0 && r[0] == '<' && r[|r| - 1] == '>'
  {
    LiteralUnmarked();
    var a1 := "<" + tag;
    UnmarkedConcat("<", tag);
    var a2 := a1 + ser;
    UnmarkedConcat(a1, ser);
    var a3 := a2 + ">";
    UnmarkedConcat(a2, ">");
    var a4 := a3 + inner;
    UnmarkedConcat(a3, inner);
    var a5 := a4 + "</";
    UnmarkedConcat(a4, "</");
    var a6 := a5 + tag;
    UnmarkedConcat(a5, tag);
    UnmarkedConcat(a6, ">");
  }

  /** The results the callback gives are placeholder-free tags, from `<` to `>`. */
  predicate TagsUnmarked(reps: seq<Option<string>>) {
    forall i :: 0 <= i < |reps| && reps[i].Some? ==>
      var r := reps[i].value; Unmarked(r) && |r| > 0 && r[0] == '<' && r[|r| - 1] == '>'
  }

  /**
   * Replacing matches of text without placeholders by such tags creates
   * none: `k` is where the text kept unchanged so far begins.
   */
  lemma {:induction false} WeaveUnmarked(s: string, ms: seq<Match>, reps: seq<Option<string>>, from: nat, k: nat)
    requires |reps| == |ms| && k <= from <= |s| && Ordered(ms, from, |s|)
    requires Unmarked(s) && TagsUnmarked(reps)
    ensures Unmarked(s[k..from] + Weave(s, ms, reps, from))
    decreases |ms|
  {
    if |ms| == 0 {
      assert s[k..from] + s[from..] == s[k..|s|];
      UnmarkedSlice(s, k, |s|);
    } else {
      var m := ms[0];
      WeaveFirst(s, ms, reps, from);
      var rest := Weave(s, ms[1..], reps[1..], m.end);
      assert TagsUnmarked(reps[1..]) by {
        assert forall i :: 0 <= i < |reps| - 1 ==> reps[1..][i] == reps[i + 1];
      }
      if reps[0].None? {
        WeaveUnmarked(s, ms[1..], reps[1..], m.end, k);
        WeaveKept(s, k, from, m.offset, m.end, rest);
      } else {
        WeaveUnmarked(s, ms[1..], reps[1..], m.end, m.end);
        WeaveTagged(s, k, from, m.offset, m.end, reps[0].value, rest);
      }
    }
  }

  /** A match the callback leaves alone joins the text kept before it. */
  lemma WeaveKept(s: string, k: nat, from: nat, offset: nat, end: nat, rest: string)
    requires k <= from <= offset <= end <= |s| && Unmarked(s[k..end] + rest)
    ensures Unmarked(s[k..from] + (s[from..offset] + s[offset..end] + rest))
  {
    Regroup(s[k..from], s[from..offset], s[offset..end], rest);
    assert s[k..from] + s[from..offset] + s[offset..end] == s[k..end];
  }

  /** A tag put in place of a match lies between text without placeholders. */
  lemma WeaveTagged(s: string, k: nat, from: nat, offset: nat, end: nat, piece: string, rest: string)
    requires k <= from <= offset <= end <= |s| && Unmarked(s) && Unmarked(s[end..end] + rest)
    requires Unmarked(piece) && |piece| > 0 && piece[0] == '<' && piece[|piece| - 1] == '>'
    ensures Unmarked(s[k..from] + (s[from..offset] + piece + rest))
  {
    assert s[end..end] + rest == rest;
    UnmarkedSlice(s, k, offset);
    JoinTag(s[k..offset], piece, rest);
    Regroup(s[k..from], s[from..offset], piece, rest);
    assert s[k..from] + s[from..offset] == s[k..offset];
  }

  /** The weave's first step: the gap, the first match's result, then the rest. */
  lemma WeaveFirst(s: string, ms: seq<Match>, reps: seq<Option<string>>, from: nat)
    requires |reps| == |ms| > 0 && from <= |s| && Ordered(ms, from, |s|)
    ensures Ordered(ms[1..], ms[0].end, |s|) && from <= ms[0].offset < ms[0].end <= |s|
    ensures Weave(s, ms, reps, from)
      == s[from..ms[0].offset] + reps[0].GetOr(s[ms[0].offset..ms[0].end]) + Weave(s, ms[1..], reps[1..], ms[0].end)
  {
    OrderedTail(ms, from, |s|);
  }

  /** A tag between two texts without placeholders creates none: it starts and ends with a stop. */
  lemma JoinTag(pre: string, r: string, rest: string)
    requires Unmarked(pre) && Unmarked(r) && |r| > 0 && r[0] == '<' && r[|r| - 1] == '>' && Unmarked(rest)
    ensures Unmarked(pre + r + rest)
  {
    LiteralUnmarked();
    UnmarkedConcat(pre, r);
    assert (pre + r)[|pre + r| - 1] == '>';
    UnmarkedConcat(pre + r, rest);
  }

  /** The callback's results on the scan of content without placeholders are placeholder-free tags. */
  lemma ReplacementsUnmarked(content: string, o: Options, host: Host)
    requires Unmarked(content) && HexDigest(host)
    ensures TagsUnmarked(Replacements(Scan(content, RewriteTags), o, host))
  {
    var ms := Scan(content, RewriteTags);
    ScanMatches(content, RewriteTags);
    forall i | 0 <= i < |ms| && Eligible(ms[i])
      ensures var r := Rewritten(ms[i], IdAt(ms, i, host), o);
        Unmarked(r) && |r| > 0 && r[0] == '<' && r[|r| - 1] == '>'
    {
      MatchUnmarked(content, ms[i]);
      var before := Eligibles(ms[..i]);
      var bs := Bases(before + [ms[i]], host);
      assert bs[|before|] == Base(ms[i], host);
      BaseUnmarked(ms[i], host);
      DisambiguatedUnmarked(bs, |before|);
      RewrittenUnmarked(ms[i], IdAt(ms, i, host), o);
    }
  }

  /** The tag and attribute text of a match are pieces of the text it was found in. */
  lemma MatchUnmarked(s: string, m: Match)
    requires Unmarked(s) && m.offset < |s| && MatchAt(s, RewriteTags, m.offset) == Some(m)
    ensures Unmarked(m.tag) && Unmarked(m.attr)
  {
    MatchShape(s, RewriteTags, m.offset);
    LazyUnmarked(s, m);
  }

  lemma LazyUnmarked(s: string, m: Match)
    requires Unmarked(s) && Lazy(s, m)
    ensures Unmarked(m.tag) && Unmarked(m.attr)
  {
    var t := m.offset + 1 + |m.tag|;
    UnmarkedSlice(s, m.offset + 1, t);
    UnmarkedSlice(s, SpaceEnd(s, t), m.inner - 1);
  }

  /**
   * With a hexadecimal digest, `tocify` creates no placeholder: every
   * keyword in its result was already in the content.
   */
  lemma TocifiedUnmarked(content: string, o: Options, host: Host)
    requires Unmarked(content) && HexDigest(host)
    ensures Unmarked(Tocified(content, o, host))
  {
    var ms := Scan(content, RewriteTags);
    ReplacementsUnmarked(content, o, host);
    WeaveUnmarked(content, ms, Replacements(ms, o, host), 0, 0);
    assert content[0..0] + Tocified(content, o, host) == Tocified(content, o, host);
  }
}
