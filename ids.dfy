/**
 * Heading ids (classes/Toc.php:86-97, 148-160): the base id of a heading
 * and its disambiguation by a counter of base ids seen so far in one scan.
 * `createToc` and `tocify` apply the same rule.
 */
module Ids {
  import opened Wrappers
  import opened Text
  import opened Slug
  import opened Attributes

  /**
   * The library calls the id rule makes: `iconv` transliteration to ASCII
   * and the hexadecimal `md5` digest.
   */
  datatype Host = Host(translit: string -> string, md5: string -> string)

  /** The digest is lowercase hexadecimal, as PHP's `md5` returns it. */
  ghost predicate HexDigest(host: Host) {
    forall t :: |host.md5(t)| == 32 && forall i :: 0 <= i < |host.md5(t)| ==> IsDigit(host.md5(t)[i]) || 'a' <= host.md5(t)[i] <= 'f'
  }

  /** `substr($s, 0, $n)`. */
  function Prefix(s: string, n: nat): (r: string)
    ensures |r| == if |s| <= n then |s| else n
    ensures r <= s
  {
    if |s| <= n then s else s[..n]
  }

  /** The id attribute, when it is set to a non-null value (`isset`). */
  function ExplicitId(attrs: AttrMap): Option<string> {
    match Lookup(attrs, "id")
    case Some(Some(v)) => Some(v)
    case _ => None
  }

  /**
   * The base id of a heading with trimmed text `text`: the id attribute,
   * else the slug of the transliterated text, and when that is empty the
   * first six digest characters.
   */
  function BaseId(attrs: AttrMap, text: string, host: Host): (id: string)
    ensures ExplicitId(attrs).Some? && |ExplicitId(attrs).value| > 0 ==> id == ExplicitId(attrs).value
    ensures ExplicitId(attrs).None? && |Hyphenize(host.translit(text))| > 0 ==> id == Hyphenize(host.translit(text))
    ensures (ExplicitId(attrs).Some? ==> |ExplicitId(attrs).value| == 0) && (ExplicitId(attrs).None? ==> |Hyphenize(host.translit(text))| == 0)
      ==> id == Prefix(host.md5(text), 6)
  {
    var id := match ExplicitId(attrs) case Some(v) => v case None => Hyphenize(host.translit(text));
    if |id| == 0 then Prefix(host.md5(text), 6) else id
  }

  /** Without an id attribute, and with a hexadecimal digest, the base id is a non-empty slug. */
  lemma GeneratedIdIsSlug(attrs: AttrMap, text: string, host: Host)
    requires HexDigest(host) && ExplicitId(attrs).None?
    ensures IsSlug(BaseId(attrs, text, host)) && |BaseId(attrs, text, host)| > 0
  {
    HyphenizeIsSlug(host.translit(text));
    if |Hyphenize(host.translit(text))| == 0 {
      var d := host.md5(text);
      var p := Prefix(d, 6);
      assert forall i :: 0 <= i < |p| ==> p[i] == d[i];
    }
  }

  /** How often `b` occurs in `bs`. */
  function Count(bs: seq<string>, b: string): (n: nat)
    ensures n <= |bs|
    ensures n == 0 <==> b !in bs
  {
    if |bs| == 0 then 0 else Count(bs[..|bs| - 1], b) + (if bs[|bs| - 1] == b then 1 else 0)
  }

  /**
   * The id of the `i`-th heading, given the base ids of all of them: the
   * first occurrence of a base keeps it, the `k`-th repeat becomes `base-k`.
   */
  function Disambiguated(bs: seq<string>, i: nat): string
    requires i < |bs|
  {
    var k := Count(bs[..i], bs[i]);
    if k == 0 then bs[i] else bs[i] + "-" + NatToString(k)
  }

  /** The counter holds, for every base id seen so far, how many times it was seen. */
  ghost predicate Tracks(counter: map<string, nat>, bs: seq<string>) {
    forall b :: (b in counter <==> b in bs) && (b in counter ==> counter[b] == Count(bs, b))
  }

  /** The id the counter gives a heading with base id `base` (`$id.'-'.$counter[$id]`, or `$id`). */
  function NextId(counter: map<string, nat>, base: string): string {
    if base in counter then base + "-" + NatToString(counter[base]) else base
  }

  /** The counter after that heading: its base counted once more, every other key as it was. */
  function Bump(counter: map<string, nat>, base: string): (c: map<string, nat>)
    ensures c.Keys == counter.Keys + {base}
    ensures forall b :: b in counter && b != base ==> c[b] == counter[b]
    ensures c[base] == if base in counter then counter[base] + 1 else 1
  {
    if base in counter then counter[base := counter[base] + 1] else counter[base := 1]
  }

  /** A counter one step along gives the closed-form id and stays in step. */
  lemma {:induction false} StepAgrees(counter: map<string, nat>, bs: seq<string>, base: string)
    requires Tracks(counter, bs)
    ensures NextId(counter, base) == Disambiguated(bs + [base], |bs|)
    ensures Tracks(Bump(counter, base), bs + [base])
  {
    var bs' := bs + [base];
    assert bs'[..|bs|] == bs;
    assert base in counter <==> Count(bs, base) > 0;
    forall b ensures Count(bs', b) == Count(bs, b) + (if b == base then 1 else 0) {
    }
  }

  lemma TracksEmpty()
    ensures Tracks(map[], [])
  {
  }

  /** Headings with the same base id get different ids. */
  lemma {:induction false} RepeatsDiffer(bs: seq<string>, i: nat, j: nat)
    requires i < j < |bs| && bs[i] == bs[j]
    ensures Disambiguated(bs, i) != Disambiguated(bs, j)
  {
    var b := bs[i];
    var ki := Count(bs[..i], b);
    var kj := Count(bs[..j], b);
    CountGrows(bs, i, j, b);
    if ki == 0 {
      assert |Disambiguated(bs, j)| > |b|;
    } else if Disambiguated(bs, i) == Disambiguated(bs, j) {
      var si := NatToString(ki);
      var sj := NatToString(kj);
      assert b + "-" + si == b + "-" + sj;
      assert si == (b + "-" + si)[|b| + 1..];
      assert sj == (b + "-" + sj)[|b| + 1..];
      NatToStringInjective(ki, kj);
      assert false;
    }
  }

  lemma {:induction false} CountGrows(bs: seq<string>, i: nat, j: nat, b: string)
    requires i < j <= |bs| && bs[i] == b
    ensures Count(bs[..j], b) > Count(bs[..i], b)
    decreases j - i
  {
    var p := bs[..j];
    assert p[..|p| - 1] == bs[..j - 1];
    if j - 1 > i {
      CountGrows(bs, i, j - 1, b);
    } else {
      assert p[|p| - 1] == b;
    }
  }

  /**
   * The counter registers only base ids, so a generated `a-1` can collide
   * with a heading whose own base id is `a-1`: the ids of a scan are not
   * always distinct.
   */
  lemma GeneratedIdCollides()
    ensures Disambiguated(["a", "a", "a-1"], 1) == Disambiguated(["a", "a", "a-1"], 2) == "a-1"
  {
    var bs := ["a", "a", "a-1"];
    assert bs[..1] == ["a"];
    assert Count(["a"], "a") == 1 by {
      assert ["a"][..0] == [];
    }
    assert bs[..2] == ["a", "a"];
    assert Count(bs[..2], "a-1") == 0;
    assert NatToString(1) == "1";
  }
}
