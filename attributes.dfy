/**
 * Tag attributes (classes/Toc.php:314-351): `parseAttributes` reads the
 * attribute text of a tag into an ordered map from names to values (a bare
 * name maps to null), and `htmlAttributes` writes such a map back as
 * ` name="escaped"` pairs.
 */
module Attributes {
  import opened Wrappers
  import opened Text
  import Slug

  /** One entry of the PHP array: a name and a value, `None` standing for null. */
  datatype Attr = Attr(name: string, value: Option<string>)

  /** A PHP array keyed by attribute name: entries in insertion order, names distinct. */
  type AttrMap = seq<Attr>

  predicate DistinctNames(m: AttrMap) {
    forall i, j :: 0 <= i < j < |m| ==> m[i].name != m[j].name
  }

  /** `[a-zA-Z0-9-:]`, the characters after the first of a name. */
  predicate IsNameChar(c: char) { IsAlpha(c) || IsDigit(c) || c == '-' || c == ':' }

  /** A name of the grammar `[a-zA-Z][a-zA-Z0-9-:]*`. */
  predicate IsName(n: string) {
    |n| > 0 && IsAlpha(n[0]) && forall i :: 0 <= i < |n| ==> IsNameChar(n[i])
  }

  function NameRun(s: string): (n: nat)
    ensures n <= |s|
    ensures forall i :: 0 <= i < n ==> IsNameChar(s[i])
    ensures n < |s| ==> !IsNameChar(s[n])
  {
    if |s| == 0 || !IsNameChar(s[0]) then 0 else 1 + NameRun(s[1..])
  }

  function IndexOf(s: string, c: char): (r: Option<nat>)
    ensures r.Some? ==> r.value < |s| && s[r.value] == c && c !in s[..r.value]
    ensures r.None? ==> c !in s
  {
    if |s| == 0 then None
    else if s[0] == c then Some(0)
    else match IndexOf(s[1..], c)
      case None => None
      case Some(j) => assert s[..j + 1] == [s[0]] + s[1..][..j]; Some(j + 1)
  }

  /** Length of a match of `q[^q]+q` at the start of `t`. */
  function QuotedLen(t: string, q: char): (r: Option<nat>)
    ensures r.Some? ==> 3 <= r.value <= |t|
  {
    if |t| == 0 || t[0] != q then None
    else match IndexOf(t[1..], q)
      case Some(j) => if j >= 1 then Some(j + 2) else None
      case None => None
  }

  /** Length of a match of `[^\s>]+` at the start of `t`. */
  function BareLen(t: string): (r: Option<nat>)
    ensures r.Some? ==> 1 <= r.value <= |t|
  {
    if |t| == 0 || IsSpace(t[0]) || t[0] == '>' then None
    else Some(1 + BareLen(t[1..]).GetOr(0))
  }

  /** The value alternatives, tried in the order of the pattern: double-quoted, single-quoted, bare. */
  function ValueLen(t: string): (r: Option<nat>)
    ensures r.Some? ==> 1 <= r.value <= |t|
  {
    match QuotedLen(t, '"')
    case Some(n) => Some(n)
    case None =>
      match QuotedLen(t, '\'')
      case Some(n) => Some(n)
      case None => BareLen(t)
  }

  /** `trim($v, '\'"')`. */
  function TrimQuotes(v: string): string { Trim(v, {'\'', '"'}) }

  /** One match of the pattern: the `n` group, the `v` group when it took part, and the match length. */
  datatype Token = Token(name: string, value: Option<string>, len: nat)

  /** The array entry a match makes: `trim($match['v'], '\'"')` when `v` is set, null otherwise. */
  function Captured(t: Token): Attr {
    match t.value
    case Some(v) => Attr(t.name, Some(TrimQuotes(v)))
    case None => Attr(t.name, None)
  }

  /** Length of the name matched at the start of `s`: greedy, so the whole run of name characters. */
  function NameLen(s: string): (n: nat)
    requires |s| > 0 && IsAlpha(s[0])
    ensures 0 < n <= |s| && IsName(s[..n])
    ensures n < |s| ==> !IsNameChar(s[n])
  {
    var n := 1 + NameRun(s[1..]);
    assert forall i :: 1 <= i < n ==> s[..n][i] == s[1..][i - 1];
    n
  }

  /** The match after a name of length `n`: with a value when `=` and a value follow, bare otherwise. */
  function TokenAfterName(s: string, n: nat): (t: Token)
    requires 0 < n <= |s|
    ensures n <= t.len <= |s| && t.name == s[..n]
  {
    if n < |s| && s[n] == '=' && ValueLen(s[n + 1..]).Some? then
      var v := ValueLen(s[n + 1..]).value;
      Token(s[..n], Some(s[n + 1..n + 1 + v]), n + 1 + v)
    else Token(s[..n], None, n)
  }

  /**
   * A match of `(?<n>name)(=(?<v>value))?` at the start of `s`: the name is
   * the longest run of name characters, the value is taken exactly when `=`
   * and a value follow it, and the match ends after the value or the name.
   */
  function AttrAt(s: string): (r: Option<Token>)
    ensures r.Some? <==> |s| > 0 && IsAlpha(s[0])
    ensures r.Some? ==> 0 < |r.value.name| <= r.value.len <= |s| && IsName(r.value.name)
    ensures r.Some? ==> var n := |r.value.name|;
      && r.value.name == s[..n]
      && (n < |s| ==> !IsNameChar(s[n]))
      && (r.value.value.Some? <==> n < |s| && s[n] == '=' && ValueLen(s[n + 1..]).Some?)
      && (r.value.value.Some? ==>
            r.value.len == n + 1 + ValueLen(s[n + 1..]).value && r.value.value.value == s[n + 1..r.value.len])
      && (r.value.value.None? ==> r.value.len == n)
  {
    if |s| == 0 || !IsAlpha(s[0]) then None
    else Some(TokenAfterName(s, NameLen(s)))
  }

  /** `preg_match_all` of the attribute pattern: matches in order, resuming after each. */
  function AttrScan(s: string): seq<Attr>
    decreases |s|
  {
    if |s| == 0 then []
    else match AttrAt(s)
      case Some(t) => [Captured(t)] + AttrScan(s[t.len..])
      case None => AttrScan(s[1..])
  }

  /** Where `name` sits in the map, if it is there. */
  function Find(m: AttrMap, name: string): (r: Option<nat>)
    ensures r.Some? ==> r.value < |m| && m[r.value].name == name
    ensures r.None? ==> forall i :: 0 <= i < |m| ==> m[i].name != name
  {
    if |m| == 0 then None
    else if m[|m| - 1].name == name then Some(|m| - 1)
    else Find(m[..|m| - 1], name)
  }

  /** `$m[$name]`: `None` when the key is absent, `Some(value)` otherwise. */
  function Lookup(m: AttrMap, name: string): Option<Option<string>> {
    match Find(m, name)
    case Some(i) => Some(m[i].value)
    case None => None
  }

  /** With distinct names, the index of a name is the one `Find` reports. */
  lemma FindUnique(m: AttrMap, n: string, i: nat)
    requires DistinctNames(m) && i < |m| && m[i].name == n
    ensures Find(m, n) == Some(i)
  {
    match Find(m, n)
    case Some(j) => assert i == j;
    case None =>
  }

  /** `$m[$a.name] = $a.value`: an existing key keeps its place, a new one goes last. */
  function Put(m: AttrMap, a: Attr): (r: AttrMap)
    requires DistinctNames(m)
    ensures DistinctNames(r)
    ensures Lookup(r, a.name) == Some(a.value)
    ensures forall n :: n != a.name ==> Lookup(r, n) == Lookup(m, n)
    ensures (forall i :: 0 <= i < |m| ==> m[i].name != a.name) ==> r == m + [a]
    ensures (exists i :: 0 <= i < |m| && m[i].name == a.name) ==>
      |r| == |m| && forall i :: 0 <= i < |m| ==> r[i] == if m[i].name == a.name then a else m[i]
  {
    match Find(m, a.name)
    case Some(i) =>
      var r := m[i := a];
      PutInPlace(m, a, i);
      assert forall k :: 0 <= k < |m| && k != i ==> m[k].name != a.name;
      r
    case None =>
      var r := m + [a];
      assert r[..|r| - 1] == m;
      r
  }

  lemma PutInPlace(m: AttrMap, a: Attr, i: nat)
    requires DistinctNames(m) && i < |m| && m[i].name == a.name
    ensures DistinctNames(m[i := a])
    ensures Lookup(m[i := a], a.name) == Some(a.value)
    ensures forall n :: n != a.name ==> Lookup(m[i := a], n) == Lookup(m, n)
  {
    var r := m[i := a];
    FindUnique(r, a.name, i);
    forall n | n != a.name ensures Lookup(r, n) == Lookup(m, n) {
      match Find(m, n)
      case Some(j) => FindUnique(r, n, j);
      case None =>
        assert Find(r, n).None? by {
          if Find(r, n).Some? {
            FindUnique(m, n, Find(r, n).value);
          }
        }
    }
  }

  /** Filling the array match by match, a later duplicate overwriting an earlier one. */
  function Collect(xs: seq<Attr>): (m: AttrMap)
    ensures DistinctNames(m)
  {
    if |xs| == 0 then [] else Put(Collect(xs[..|xs| - 1]), xs[|xs| - 1])
  }

  /** The value of the last occurrence of `name` in `xs`. */
  function LastValue(xs: seq<Attr>, name: string): Option<Option<string>> {
    if |xs| == 0 then None
    else if xs[|xs| - 1].name == name then Some(xs[|xs| - 1].value)
    else LastValue(xs[..|xs| - 1], name)
  }

  /** What `parseAttributes` returns for an attribute text. */
  function Parsed(text: string): AttrMap {
    Collect(AttrScan(text))
  }

  /** `parseAttributes`: one assignment per match of the attribute pattern. */
  method ParseAttributes(text: string) returns (attributes: AttrMap)
    ensures attributes == Parsed(text)
  {
    var matches := AttrScan(text);
    attributes := [];
    for i := 0 to |matches|
      invariant attributes == Collect(matches[..i])
    {
      CollectStep(matches, i);
      attributes := Put(attributes, matches[i]);
    }
    assert matches[..|matches|] == matches;
  }

  /** Collecting one more match puts it into what the earlier ones collected. */
  lemma CollectStep(xs: seq<Attr>, i: nat)
    requires i < |xs|
    ensures Collect(xs[..i + 1]) == Put(Collect(xs[..i]), xs[i])
  {
    assert xs[..i + 1][..i] == xs[..i];
  }

  /**
   * Every name matched in the text is a key, nothing else is, and its value
   * is the one of its last occurrence: a later duplicate overwrites.
   */
  lemma {:induction false} CollectKeepsLastValue(xs: seq<Attr>, name: string)
    ensures Lookup(Collect(xs), name) == LastValue(xs, name)
  {
    if |xs| > 0 {
      CollectKeepsLastValue(xs[..|xs| - 1], name);
    }
  }

  /**
   * A name that neither a name character nor `=` with a value follows is a
   * match on its own and maps to null; the scan resumes right after it.
   */
  lemma BareNameIsNull(n: string, u: string)
    requires IsName(n)
    requires |u| == 0 || (!IsNameChar(u[0]) && !(u[0] == '=' && ValueLen(u[1..]).Some?))
    ensures AttrScan(n + u) == [Attr(n, None)] + AttrScan(u)
    ensures |u| == 0 ==> Parsed(n + u) == [Attr(n, None)]
  {
    NameThen(n, u);
    assert AttrAt(n + u) == Some(Token(n, None, |n|));
    ScanAt(n + u, Token(n, None, |n|));
    if |u| == 0 {
      CollectDistinct([Attr(n, None)]);
    }
  }

  /** A name followed by a character that cannot continue it. */
  lemma NameThen(name: string, u: string)
    requires IsName(name) && (|u| == 0 || !IsNameChar(u[0]))
    ensures NameLen(name + u) == |name|
    ensures (name + u)[..|name|] == name && (name + u)[|name|..] == u
  {
    assert (name + u)[1..] == name[1..] + u;
    NameRunStops(name[1..], u);
  }

  /** A name followed by `=` and a value is one match with that value, trimmed of quotes. */
  lemma AttrAtValue(name: string, u: string, v: nat)
    requires IsName(name) && |u| > 0 && u[0] == '=' && ValueLen(u[1..]) == Some(v)
    ensures AttrAt(name + u) == Some(Token(name, Some(u[1..1 + v]), |name| + 1 + v))
  {
    var s := name + u;
    var n := |name|;
    NameThen(name, u);
    assert s[n + 1..] == u[1..];
    assert s[n + 1..n + 1 + v] == u[1..1 + v];
  }

  /** The characters `trim($v, '\'"')` strips. */
  const Quotes: set<char> := {'\'', '"'}

  /**
   * A value in double or single quotes that does not hold its own quote is
   * matched by its quoted alternative, and loses exactly its quotes when its
   * ends are not quotes.
   */
  lemma QuotedValue(q: char, v: string, rest: string)
    requires q in Quotes && |v| > 0 && q !in v && v[0] !in Quotes && v[|v| - 1] !in Quotes
    ensures ValueLen([q] + v + [q] + rest) == Some(|v| + 2)
    ensures ([q] + v + [q] + rest)[..|v| + 2] == [q] + v + [q]
    ensures TrimQuotes([q] + v + [q]) == v
  {
    var t := [q] + v + [q] + rest;
    assert t[1..] == v + ([q] + rest);
    IndexAfterPlain(v, [q] + rest, q);
    assert QuotedLen(t, q) == Some(|v| + 2);
    TrimStripsEnds([q], v, [q], Quotes);
  }

  /**
   * A value that neither quoted alternative takes is the bare run up to a
   * space or `>`, and its quotes, at either end, are trimmed off.
   */
  lemma BareValue(name: string, w: string, rest: string)
    requires IsName(name) && |w| > 0
    requires QuotedLen(w + rest, '"').None? && QuotedLen(w + rest, '\'').None?
    requires forall i :: 0 <= i < |w| ==> !IsSpace(w[i]) && w[i] != '>'
    requires |rest| == 0 || IsSpace(rest[0]) || rest[0] == '>'
    ensures AttrScan(name + "=" + w + rest) == [Attr(name, Some(TrimQuotes(w)))] + AttrScan(rest)
  {
    BareRun(w, rest);
    assert ValueLen(w + rest) == Some(|w|);
    ValueThen(name, w, rest);
  }

  /** A name, `=` and a value of length `|w|` make one match, and the scan resumes after the value. */
  lemma ValueThen(name: string, w: string, rest: string)
    requires IsName(name) && ValueLen(w + rest) == Some(|w|)
    ensures AttrScan(name + "=" + w + rest) == [Attr(name, Some(TrimQuotes(w)))] + AttrScan(rest)
  {
    var s := name + "=" + w + rest;
    var t := ValueToken(name, w, rest);
    ScanAt(s, t);
    assert s[t.len..] == rest;
  }

  lemma ValueToken(name: string, w: string, rest: string) returns (t: Token)
    requires IsName(name) && ValueLen(w + rest) == Some(|w|)
    ensures t == Token(name, Some(w), |name| + 1 + |w|) && AttrAt(name + "=" + w + rest) == Some(t)
  {
    var u := "=" + w + rest;
    t := Token(name, Some(w), |name| + 1 + |w|);
    Regroup(name, "=", w, rest);
    assert u[1..] == w + rest;
    assert u[1..1 + |w|] == w;
    AttrAtValue(name, u, |w|);
  }

  /** A quote that is never closed is read as part of a bare value, and trimmed off it. */
  lemma UnclosedQuote(name: string, q: char, w: string, rest: string)
    requires IsName(name) && q in Quotes && q !in w + rest
    requires forall i :: 0 <= i < |w| ==> !IsSpace(w[i]) && w[i] != '>'
    requires |rest| == 0 || IsSpace(rest[0]) || rest[0] == '>'
    ensures AttrScan(name + "=" + ([q] + w) + rest) == [Attr(name, Some(TrimQuotes([q] + w)))] + AttrScan(rest)
    ensures |w| > 0 && w[0] !in Quotes && w[|w| - 1] !in Quotes ==> TrimQuotes([q] + w) == w
  {
    NeverClosed(q, w, rest);
    BareValue(name, [q] + w, rest);
    if |w| > 0 && w[0] !in Quotes && w[|w| - 1] !in Quotes {
      QuoteTrimmed(q, w);
    }
  }

  lemma QuoteTrimmed(q: char, w: string)
    requires q in Quotes && |w| > 0 && w[0] !in Quotes && w[|w| - 1] !in Quotes
    ensures TrimQuotes([q] + w) == w
  {
    TrimStripsEnds([q], w, [], Quotes);
    assert [q] + w + [] == [q] + w;
  }

  /** An opening quote that is never closed leaves a run that only the bare alternative can take. */
  lemma NeverClosed(q: char, w: string, rest: string)
    requires q in Quotes && q !in w + rest
    requires forall i :: 0 <= i < |w| ==> !IsSpace(w[i]) && w[i] != '>'
    ensures QuotedLen([q] + w + rest, '"').None? && QuotedLen([q] + w + rest, '\'').None?
    ensures forall i :: 0 <= i < |[q] + w| ==> !IsSpace(([q] + w)[i]) && ([q] + w)[i] != '>'
  {
    var x := [q] + w + rest;
    assert x[1..] == w + rest;
    assert forall i :: 1 <= i < |w| + 1 ==> ([q] + w)[i] == w[i - 1];
  }

  lemma {:induction false} BareRun(w: string, rest: string)
    requires |w| > 0 && forall i :: 0 <= i < |w| ==> !IsSpace(w[i]) && w[i] != '>'
    requires |rest| == 0 || IsSpace(rest[0]) || rest[0] == '>'
    ensures BareLen(w + rest) == Some(|w|)
  {
    assert (w + rest)[1..] == w[1..] + rest;
    if |w| > 1 {
      BareRun(w[1..], rest);
    }
  }

  /** One entry of the serialized form: `name="escaped"`, null rendered as the empty string. */
  function Entry(a: Attr): string {
    a.name + "=\"" + Escape(a.value.GetOr("")) + "\""
  }

  /** The characters `htmlspecialchars` with `ENT_QUOTES` replaces. */
  predicate IsSpecial(c: char) { c == '&' || c == '<' || c == '>' || c == '"' || c == '\'' }

  predicate Plain(s: string) { forall i :: 0 <= i < |s| ==> !IsSpecial(s[i]) }

  function EscapeChar(c: char): string {
    if c == '&' then "&amp;"
    else if c == '<' then "&lt;"
    else if c == '>' then "&gt;"
    else if c == '"' then "&quot;"
    else if c == '\'' then "&#039;"
    else [c]
  }

  /** `htmlspecialchars($s, ENT_QUOTES)`. */
  function Escape(s: string): (r: string)
    ensures forall i :: 0 <= i < |r| ==> r[i] != '<' && r[i] != '>' && r[i] != '"' && r[i] != '\''
    ensures Plain(s) ==> r == s
  {
    if |s| == 0 then [] else EscapeChar(s[0]) + Escape(s[1..])
  }

  /** Escaping works character by character from the front. */
  lemma EscapeCons(v: string)
    requires |v| > 0
    ensures Escape(v) == EscapeChar(v[0]) + Escape(v[1..])
  {
  }

  /** The same, after a prefix. */
  lemma EscapeSplits(a: string, v: string)
    requires |v| > 0
    ensures a + Escape(v) == a + EscapeChar(v[0]) + Escape(v[1..])
  {
    EscapeCons(v);
    Associative(a, EscapeChar(v[0]), Escape(v[1..]));
  }

  /** Decoding the four entities undoes the escaping of text without `'`. */
  lemma {:induction false} EscapeDecodes(s: string)
    requires '\'' !in s
    ensures Slug.DecodeEntities(Escape(s)) == s
  {
    if |s| > 0 {
      assert '\'' !in s[1..] by {
        assert forall i :: 0 <= i < |s| - 1 ==> s[1..][i] == s[i + 1];
      }
      EscapeDecodes(s[1..]);
      EscapeCharDecodes(s[0], Escape(s[1..]));
      assert [s[0]] + s[1..] == s;
    } else {
      assert Escape(s) == [];
    }
  }

  lemma EscapeCharDecodes(c: char, rest: string)
    requires c != '\''
    ensures Slug.DecodeEntities(EscapeChar(c) + rest) == [c] + Slug.DecodeEntities(rest)
  {
    if IsSpecial(c) {
      Slug.DecodesEntities([], EscapeChar(c), [c], rest);
      assert [] + EscapeChar(c) + rest == EscapeChar(c) + rest;
    } else {
      Slug.DecodeKeepsPlain([c], rest);
    }
  }

  /** What `htmlAttributes` returns. */
  function Serialized(m: AttrMap): string {
    if |m| == 0 then "" else " " + Entry(m[0]) + Serialized(m[1..])
  }

  /** `htmlAttributes`: each entry rewritten to `name="escaped"`, then joined. */
  method HtmlAttributes(attributes: AttrMap) returns (html: string)
    ensures html == Serialized(attributes)
  {
    var parts: seq<string> := [];
    for i := 0 to |attributes|
      invariant |parts| == i
      invariant forall k :: 0 <= k < i ==> parts[k] == Entry(attributes[k])
    {
      var data := attributes[i].value.GetOr("");
      parts := parts + [attributes[i].name + "=\"" + Escape(data) + "\""];
    }
    html := if |attributes| > 0 then " " + Join(parts, " ") else "";
    if |attributes| > 0 {
      JoinedEntries(attributes, parts);
    }
  }

  lemma {:induction false} JoinedEntries(m: AttrMap, parts: seq<string>)
    requires |m| > 0 && |parts| == |m|
    requires forall k :: 0 <= k < |m| ==> parts[k] == Entry(m[k])
    ensures " " + Join(parts, " ") == Serialized(m)
  {
    if |m| > 1 {
      JoinedEntries(m[1..], parts[1..]);
    }
  }

  /** Maps that serializing and parsing carry over unchanged. */
  predicate RoundTrips(m: AttrMap) {
    && DistinctNames(m)
    && forall i :: 0 <= i < |m| ==>
         IsName(m[i].name) && m[i].value.Some? && |m[i].value.value| > 0 && Plain(m[i].value.value)
  }

  /** Parsing the serialized form of a map with grammar names and plain non-empty values gives the map back. */
  lemma {:induction false} ParseSerialized(m: AttrMap)
    requires RoundTrips(m)
    ensures Parsed(Serialized(m)) == m
  {
    ScanSerialized(m);
    CollectDistinct(m);
  }

  lemma {:induction false} ScanSerialized(m: AttrMap)
    requires forall i :: 0 <= i < |m| ==>
      IsName(m[i].name) && m[i].value.Some? && |m[i].value.value| > 0 && Plain(m[i].value.value)
    ensures AttrScan(Serialized(m)) == m
  {
    if |m| > 0 {
      SerializedStep(m);
      assert forall i :: 0 <= i < |m| - 1 ==> m[1..][i] == m[i + 1];
      ScanSerialized(m[1..]);
      assert [m[0]] + m[1..] == m;
    }
  }

  /** The first entry scans back to itself; the scan goes on with the rest. */
  lemma SerializedStep(m: AttrMap)
    requires |m| > 0 && IsName(m[0].name) && m[0].value.Some? && |m[0].value.value| > 0 && Plain(m[0].value.value)
    ensures AttrScan(Serialized(m)) == [m[0]] + AttrScan(Serialized(m[1..]))
  {
    var rest := Serialized(m[1..]);
    SerializedHead(m);
    SpaceSkipped(Entry(m[0]) + rest);
    EntryScans(m[0], rest);
  }

  lemma SerializedHead(m: AttrMap)
    requires |m| > 0
    ensures Serialized(m) == " " + (Entry(m[0]) + Serialized(m[1..]))
  {
  }

  /** A leading space is no match: the scan moves past it. */
  lemma SpaceSkipped(x: string)
    ensures AttrScan(" " + x) == AttrScan(x)
  {
    assert (" " + x)[1..] == x;
  }

  /** One serialized entry is one match, and the scan resumes right after it. */
  lemma EntryScans(a: Attr, rest: string)
    requires IsName(a.name) && a.value.Some? && |a.value.value| > 0 && Plain(a.value.value)
    ensures AttrScan(Entry(a) + rest) == [a] + AttrScan(rest)
  {
    var v := a.value.value;
    var w := "\"" + v + "\"";
    DoubleQuoted(v, rest);
    ValueThen(a.name, w, rest);
    EntryText(a, rest);
  }

  /** Plain text in double quotes is taken by the double-quoted alternative and loses its quotes. */
  lemma DoubleQuoted(v: string, rest: string)
    requires |v| > 0 && Plain(v)
    ensures ValueLen("\"" + v + "\"" + rest) == Some(|v| + 2) && TrimQuotes("\"" + v + "\"") == v
  {
    assert '"' !in v by {
      assert forall i :: 0 <= i < |v| ==> v[i] != '"';
    }
    QuotedValue('"', v, rest);
    assert ['"'] + v + ['"'] == "\"" + v + "\"";
  }

  lemma EntryText(a: Attr, rest: string)
    requires a.value.Some? && Plain(a.value.value)
    ensures Entry(a) + rest == a.name + "=" + ("\"" + a.value.value + "\"") + rest
  {
    var v := a.value.value;
    assert Escape(v) == v;
    assert "=\"" == "=" + "\"";
  }

  lemma {:induction false} NameRunStops(a: string, b: string)
    requires forall i :: 0 <= i < |a| ==> IsNameChar(a[i])
    requires |b| == 0 || !IsNameChar(b[0])
    ensures NameRun(a + b) == |a|
  {
    if |a| > 0 {
      assert (a + b)[1..] == a[1..] + b;
      NameRunStops(a[1..], b);
    }
  }

  lemma {:induction false} IndexAfterPlain(v: string, b: string, c: char)
    requires c !in v && |b| > 0 && b[0] == c
    ensures IndexOf(v + b, c) == Some(|v|)
  {
    if |v| > 0 {
      assert (v + b)[1..] == v[1..] + b;
      IndexAfterPlain(v[1..], b, c);
    }
  }

  /** With distinct names, filling the array in order reproduces the sequence. */
  lemma {:induction false} CollectDistinct(xs: seq<Attr>)
    requires DistinctNames(xs)
    ensures Collect(xs) == xs
  {
    if |xs| > 0 {
      var p := xs[..|xs| - 1];
      LastIsFresh(xs);
      CollectDistinct(p);
      assert p + [xs[|xs| - 1]] == xs;
    }
  }

  lemma LastIsFresh(xs: seq<Attr>)
    requires DistinctNames(xs) && |xs| > 0
    ensures DistinctNames(xs[..|xs| - 1])
    ensures forall i :: 0 <= i < |xs| - 1 ==> xs[i].name != xs[|xs| - 1].name
  {
  }

  /**
   * Null does not survive the trip: a bare attribute is written as
   * `name=""`, which reads back as the empty string.
   */
  lemma NullReadsBackEmpty(n: string)
    requires IsName(n)
    ensures Serialized([Attr(n, None)]) == " " + n + "=\"\""
    ensures Parsed(Serialized([Attr(n, None)])) == [Attr(n, Some(""))]
  {
    var s := n + "=\"\"";
    SerializeNull(n);
    assert " " + n + "=\"\"" == " " + s;
    SkipSpace(s);
    EmptyValueScans(n);
    CollectDistinct([Attr(n, Some(""))]);
  }

  lemma EmptyValueScans(n: string)
    requires IsName(n)
    ensures AttrScan(n + "=\"\"") == [Attr(n, Some(""))]
  {
    var u := "=\"\"";
    var s := n + u;
    EmptyQuotesAreBare();
    assert u[1..] == "\"\"" && u[1..1 + 2] == "\"\"";
    AttrAtValue(n, u, 2);
    ScanAt(s, Token(n, Some("\"\""), |s|));
    assert s[|s|..] == [];
  }

  lemma SkipSpace(s: string)
    ensures AttrScan(" " + s) == AttrScan(s)
  {
    assert (" " + s)[1..] == s;
  }

  lemma ScanAt(s: string, t: Token)
    requires AttrAt(s) == Some(t)
    ensures AttrScan(s) == [Captured(t)] + AttrScan(s[t.len..])
  {
  }

  lemma SerializeNull(n: string)
    ensures Serialized([Attr(n, None)]) == " " + n + "=\"\""
  {
    assert Escape("") == "";
    assert Entry(Attr(n, None)) == n + "=\"\"";
    assert [Attr(n, None)][1..] == [];
  }

  /** `""` fails both quoted alternatives and is taken by the bare one, then trimmed to nothing. */
  lemma EmptyQuotesAreBare()
    ensures ValueLen("\"\"") == Some(2)
    ensures TrimQuotes("\"\"") == ""
  {
    var t := "\"\"";
    assert t[1..] == "\"";
    assert QuotedLen(t, '"') == None;
    assert BareLen("\"") == Some(1);
    assert BareLen(t) == Some(2);
  }
}
