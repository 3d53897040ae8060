/** A value that may be absent (PHP's null, a failed match, a missing key). */
module Wrappers {
  datatype Option<+T> = None | Some(value: T) {
    function GetOr(default: T): T {
      match this
      case Some(v) => v
      case None => default
    }
  }
}

/**
 * Byte-string helpers shared by every component: the ASCII character
 * classes used in the plugin's regular expressions, PHP's `strtolower`,
 * `trim` and decimal rendering of integers. Characters stand for bytes;
 * the helpers only look at the ASCII range.
 */
module Text {

  predicate IsUpper(c: char) { 'A' <= c <= 'Z' }
  predicate IsLower(c: char) { 'a' <= c <= 'z' }
  predicate IsDigit(c: char) { '0' <= c <= '9' }
  predicate IsAlpha(c: char) { IsUpper(c) || IsLower(c) }

  /** PCRE's `\s` without Unicode support: space, tab, LF, VT, FF, CR. */
  predicate IsSpace(c: char) {
    c == ' ' || c == '\t' || c == '\n' || c == '\U{0B}' || c == '\U{0C}' || c == '\r'
  }

  /** `strtolower` on one byte: only A-Z change. */
  function LowerChar(c: char): (r: char)
    ensures IsUpper(c) ==> IsLower(r)
    ensures IsUpper(c) ==> r == "abcdefghijklmnopqrstuvwxyz"[c as int - 'A' as int]
    ensures !IsUpper(c) ==> r == c
    ensures !IsUpper(r)
  {
    if IsUpper(c) then (c as int + 32) as char else c
  }

  function Lower(s: string): (r: string)
    ensures |r| == |s|
    ensures forall i :: 0 <= i < |s| ==> r[i] == LowerChar(s[i])
  {
    seq(|s|, i requires 0 <= i < |s| => LowerChar(s[i]))
  }

  lemma LowerConcat(a: string, b: string)
    ensures Lower(a + b) == Lower(a) + Lower(b)
  {
  }

  /** Case-insensitive (ASCII) occurrence of `w` in `s` at position `p`. */
  predicate IOccursAt(s: string, w: string, p: int) {
    0 <= p && p + |w| <= |s| && Lower(s[p..p + |w|]) == Lower(w)
  }

  predicate NoIOccurrence(s: string, w: string) {
    forall p :: 0 <= p <= |s| ==> !IOccursAt(s, w, p)
  }

  /** Length of the leading run of `s` whose characters are in `cut`. */
  function LeadingRun(s: string, cut: set<char>): (n: nat)
    ensures n <= |s|
    ensures forall i :: 0 <= i < n ==> s[i] in cut
    ensures n < |s| ==> s[n] !in cut
  {
    if |s| == 0 || s[0] !in cut then 0 else 1 + LeadingRun(s[1..], cut)
  }

  /** Length of the trailing run of `s` whose characters are in `cut`. */
  function TrailingRun(s: string, cut: set<char>): (n: nat)
    ensures n <= |s|
    ensures forall i :: |s| - n <= i < |s| ==> s[i] in cut
    ensures n < |s| ==> s[|s| - n - 1] !in cut
  {
    if |s| == 0 || s[|s| - 1] !in cut then 0 else 1 + TrailingRun(s[..|s| - 1], cut)
  }

  /** PHP's `trim($s, $chars)`: strip characters of `cut` from both ends. */
  function Trim(s: string, cut: set<char>): (r: string)
    ensures |r| > 0 ==> r[0] !in cut && r[|r| - 1] !in cut
    ensures (|s| == 0 || (s[0] !in cut && s[|s| - 1] !in cut)) ==> r == s
  {
    var l := LeadingRun(s, cut);
    var t := s[l..];
    var n := TrailingRun(t, cut);
    assert |t| > 0 ==> t[0] !in cut;
    t[..|t| - n]
  }

  /** What `Trim` keeps is a slice of `s`, and everything it cuts off is in `cut`. */
  lemma TrimCutsOnlyListed(s: string, cut: set<char>) returns (i: nat, j: nat)
    ensures TrimmedAt(s, cut, i, j) && Trim(s, cut) == s[i..j]
  {
    var l := LeadingRun(s, cut);
    var t := s[l..];
    var n := TrailingRun(t, cut);
    assert t[..|t| - n] == s[l..l + (|t| - n)];
    assert forall k :: l + (|t| - n) <= k < |s| ==> s[k] == t[k - l];
    i, j := l, l + (|t| - n);
  }

  /** Text whose ends are kept, wrapped in characters that are all cut, trims back to itself. */
  lemma TrimStripsEnds(l: string, v: string, r: string, cut: set<char>)
    requires forall k :: 0 <= k < |l| ==> l[k] in cut
    requires forall k :: 0 <= k < |r| ==> r[k] in cut
    requires |v| > 0 && v[0] !in cut && v[|v| - 1] !in cut
    ensures Trim(l + v + r, cut) == v
  {
    var s := l + v + r;
    var a, b := |l|, |l| + |v|;
    var i, j := TrimCutsOnlyListed(s, cut);
    assert s[a] == v[0] && s[b - 1] == v[|v| - 1];
    assert forall k :: 0 <= k < a ==> s[k] in cut by {
      assert forall k :: 0 <= k < a ==> s[k] == l[k];
    }
    assert forall k :: b <= k < |s| ==> s[k] in cut by {
      assert forall k :: b <= k < |s| ==> s[k] == r[k - b];
    }
    TrimBounds(s, cut, i, j, a, b);
    assert s[a..b] == v;
  }

  /** The cut of a trim is pinned down by the first and last characters outside `cut`. */
  lemma TrimBounds(s: string, cut: set<char>, i: nat, j: nat, a: nat, b: nat)
    requires TrimmedAt(s, cut, i, j) && Trim(s, cut) == s[i..j]
    requires a < b <= |s| && s[a] !in cut && s[b - 1] !in cut
    requires forall k :: 0 <= k < a ==> s[k] in cut
    requires forall k :: b <= k < |s| ==> s[k] in cut
    ensures i == a && j == b
  {
    assert i <= a && b <= j;
    var t := Trim(s, cut);
    assert t[0] == s[i] && t[|t| - 1] == s[j - 1];
  }

  /** `s[i..j]` is what is left once the characters of `cut` before `i` and from `j` on are cut off. */
  predicate TrimmedAt(s: string, cut: set<char>, i: int, j: int) {
    && 0 <= i <= j <= |s|
    && (forall k :: 0 <= k < i ==> s[k] in cut)
    && (forall k :: j <= k < |s| ==> s[k] in cut)
  }

  /** A slice of a suffix is a slice of the whole. */
  lemma SliceOfSuffix(s: string, i: nat, a: nat, b: nat, c: nat, d: nat)
    requires i <= |s| && a <= b <= |s| - i && c == i + a && d == i + b
    ensures s[i..][a..b] == s[c..d]
  {
  }

  lemma DropOfSuffix(s: string, i: nat, a: nat, c: nat)
    requires i <= |s| && a <= |s| - i && c == i + a
    ensures s[i..][a..] == s[c..]
  {
  }

  lemma TakeOfSuffix(s: string, i: nat, a: nat, c: nat)
    requires i <= |s| && a <= |s| - i && c == i + a
    ensures s[i..][..a] == s[i..c]
  {
  }

  /** A slice is its first character followed by the rest. */
  lemma SliceCons(s: string, i: nat, j: nat)
    requires i < j <= |s|
    ensures s[i..j] == [s[i]] + s[i + 1..j]
  {
  }

  lemma SlicePair(s: string, k: nat, m: nat, l: nat)
    requires m == k + 1 && l == k + 2 <= |s|
    ensures s[k..l] == [s[k], s[m]]
  {
  }

  /** Concatenation is associative. */
  lemma Associative(a: string, b: string, c: string)
    ensures a + (b + c) == a + b + c
  {
  }

  /** Concatenation regrouped, for the replacement loops. */
  lemma Regroup(a: string, b: string, c: string, d: string)
    ensures a + (b + c + d) == a + b + c + d
  {
  }

  /** The default character list of PHP's `trim`: " \t\n\r\0\x0B". */
  const Whitespace: set<char> := {' ', '\t', '\n', '\r', '\0', '\U{0B}'}

  function PhpTrim(s: string): string { Trim(s, Whitespace) }

  function DigitChar(d: nat): (c: char)
    requires d < 10
    ensures IsDigit(c)
  {
    ('0' as int + d) as char
  }

  /** Decimal rendering of a non-negative integer, as PHP's string conversion. */
  function NatToString(n: nat): (r: string)
    ensures |r| > 0
    ensures forall i :: 0 <= i < |r| ==> IsDigit(r[i])
    decreases n
  {
    if n < 10 then [DigitChar(n)] else NatToString(n / 10) + [DigitChar(n % 10)]
  }

  /** The value of a run of decimal digits, `(int)` of a digit string. */
  function DigitsValue(s: string): nat
    requires forall i :: 0 <= i < |s| ==> IsDigit(s[i])
  {
    if |s| == 0 then 0
    else
      assert IsDigit(s[|s| - 1]);
      10 * DigitsValue(s[..|s| - 1]) + (s[|s| - 1] as int - '0' as int)
  }

  /** Reading back a rendered number gives the number: the two are inverse. */
  lemma {:induction false} DigitsValueOfNatToString(n: nat)
    ensures DigitsValue(NatToString(n)) == n
    decreases n
  {
    if n >= 10 {
      var s := NatToString(n);
      assert s[..|s| - 1] == NatToString(n / 10);
      DigitsValueOfNatToString(n / 10);
    }
  }

  lemma NatToStringInjective(a: nat, b: nat)
    requires NatToString(a) == NatToString(b)
    ensures a == b
  {
    DigitsValueOfNatToString(a);
    DigitsValueOfNatToString(b);
  }

  /** PHP's `implode($sep, $parts)`. */
  function Join(parts: seq<string>, sep: string): string {
    if |parts| == 0 then []
    else if |parts| == 1 then parts[0]
    else parts[0] + sep + Join(parts[1..], sep)
  }
}
