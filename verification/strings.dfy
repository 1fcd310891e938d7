/**
 * The handful of Python `str` operations the tracker relies on, restricted to ASCII:
 * `strip()`, `strip(chars)`, `lower()`, `replace`, `split(sep)`, `sep.join`, `startswith`
 * and the decimal rendering of a natural number.
 */
module Strings {

  /** Python's `str.isspace` on the ASCII range: space, \t, \n, \v, \f, \r and \x1c-\x1f. */
  predicate IsSpace(c: char) {
    c == ' ' || (9 <= c as int <= 13) || (28 <= c as int <= 31)
  }

  /** Drops the longest prefix whose characters all satisfy `p`. */
  function TrimStart(s: string, p: char -> bool): (r: string)
    ensures |r| <= |s|
  {
    if |s| > 0 && p(s[0]) then TrimStart(s[1..], p) else s
  }

  /** `TrimStart` removes exactly the longest prefix of `p`-characters. */
  lemma {:induction false} TrimStartSpec(s: string, p: char -> bool)
    ensures var r := TrimStart(s, p);
            && r == s[|s| - |r|..]
            && (forall i :: 0 <= i < |s| - |r| ==> p(s[i]))
            && (r == [] || !p(r[0]))
    decreases |s|
  {
    if |s| > 0 && p(s[0]) {
      TrimStartSpec(s[1..], p);
    }
  }

  /** Drops the longest suffix whose characters all satisfy `p`. */
  function TrimEnd(s: string, p: char -> bool): (r: string)
    ensures |r| <= |s|
  {
    if |s| > 0 && p(s[|s| - 1]) then TrimEnd(s[..|s| - 1], p) else s
  }

  /** `TrimEnd` removes exactly the longest suffix of `p`-characters. */
  lemma {:induction false} TrimEndSpec(s: string, p: char -> bool)
    ensures var r := TrimEnd(s, p);
            && r == s[..|r|]
            && (forall i :: |r| <= i < |s| ==> p(s[i]))
            && (r == [] || !p(r[|r| - 1]))
    decreases |s|
  {
    if |s| > 0 && p(s[|s| - 1]) {
      TrimEndSpec(s[..|s| - 1], p);
    }
  }

  /** Python `s.strip(chars)` where `p` tells the characters to strip. */
  function StripBy(s: string, p: char -> bool): (r: string)
    ensures |r| <= |s|
  {
    TrimEnd(TrimStart(s, p), p)
  }

  /** `s.strip(chars)` is the slice of `s` left after dropping `p`-characters at both ends. */
  lemma StripBySpec(s: string, p: char -> bool)
    ensures var r := StripBy(s, p);
            && (r == [] || (!p(r[0]) && !p(r[|r| - 1])))
            && (r == [] <==> forall i :: 0 <= i < |s| ==> p(s[i]))
            && (exists a: nat :: OccursAt(s, r, a))
  {
    var t := TrimStart(s, p);
    var r := TrimEnd(t, p);
    TrimStartSpec(s, p);
    TrimEndSpec(t, p);
    assert r != [] ==> r[0] == t[0];
    var a := |s| - |t|;
    assert r == s[a..a + |r|];
    assert OccursAt(s, r, a);
  }

  /** Python `s.strip()`. */
  function Strip(s: string): (r: string)
    ensures |r| <= |s|
  {
    StripBy(s, IsSpace)
  }

  /** `strip()` leaves no whitespace at either end, and leaves nothing exactly when the
      string is all whitespace. */
  lemma StripSpec(s: string)
    ensures var r := Strip(s);
            && (r == [] || (!IsSpace(r[0]) && !IsSpace(r[|r| - 1])))
            && (r == [] <==> forall i :: 0 <= i < |s| ==> IsSpace(s[i]))
  {
    StripBySpec(s, IsSpace);
  }

  /** A character of a stripped string occurs in the original. */
  lemma StripByChars(s: string, p: char -> bool, c: char)
    requires c in StripBy(s, p)
    ensures c in s
  {
    StripBySpec(s, p);
    var r := StripBy(s, p);
    var a: nat :| OccursAt(s, r, a);
    var i :| 0 <= i < |r| && r[i] == c;
    assert s[a + i] == c;
  }

  /** A string `strip()` leaves unchanged and that is not empty. */
  predicate IsTrimmed(s: string) {
    s != [] && !IsSpace(s[0]) && !IsSpace(s[|s| - 1])
  }

  lemma {:induction false} TrimStartSkips(w: string, x: string, p: char -> bool)
    requires forall i :: 0 <= i < |w| ==> p(w[i])
    requires x == [] || !p(x[0])
    ensures TrimStart(w + x, p) == x
    decreases |w|
  {
    if w == [] {
      assert w + x == x;
    } else {
      assert (w + x)[1..] == w[1..] + x;
      TrimStartSkips(w[1..], x, p);
    }
  }

  lemma {:induction false} TrimEndSkips(x: string, w: string, p: char -> bool)
    requires forall i :: 0 <= i < |w| ==> p(w[i])
    requires x == [] || !p(x[|x| - 1])
    ensures TrimEnd(x + w, p) == x
    decreases |w|
  {
    if w == [] {
      assert x + w == x;
    } else {
      assert (x + w)[..|x + w| - 1] == x + w[..|w| - 1];
      TrimEndSkips(x, w[..|w| - 1], p);
    }
  }

  /** Surrounding whitespace is exactly what `strip()` removes. */
  lemma StripPadded(w1: string, x: string, w2: string)
    requires forall i :: 0 <= i < |w1| ==> IsSpace(w1[i])
    requires forall i :: 0 <= i < |w2| ==> IsSpace(w2[i])
    requires IsTrimmed(x)
    ensures Strip(w1 + x + w2) == x
  {
    assert w1 + x + w2 == w1 + (x + w2);
    TrimStartSkips(w1, x + w2, IsSpace);
    TrimEndSkips(x, w2, IsSpace);
  }

  lemma StripTrimmed(x: string)
    requires IsTrimmed(x)
    ensures Strip(x) == x
  {
    StripPadded([], x, []);
    assert [] + x + [] == x;
  }

  function LowerChar(c: char): char {
    if 'A' <= c <= 'Z' then (c as int + 32) as char else c
  }

  /** Python `s.lower()` on ASCII letters. */
  function Lower(s: string): (r: string)
    ensures |r| == |s|
    ensures forall i :: 0 <= i < |s| ==> r[i] == LowerChar(s[i])
  {
    seq(|s|, i requires 0 <= i < |s| => LowerChar(s[i]))
  }

  /** No ASCII capital letter occurs. */
  predicate IsLowerCase(s: string) {
    forall i :: 0 <= i < |s| ==> !('A' <= s[i] <= 'Z')
  }

  lemma LowerIsLowerCase(s: string)
    ensures IsLowerCase(Lower(s))
  {
  }

  /** Stripping a lower-case string leaves it lower case. */
  lemma StripByKeepsLowerCase(s: string, p: char -> bool)
    requires IsLowerCase(s)
    ensures IsLowerCase(StripBy(s, p))
  {
    StripBySpec(s, p);
    var r := StripBy(s, p);
    var a: nat :| OccursAt(s, r, a);
    forall i | 0 <= i < |r| ensures !('A' <= r[i] <= 'Z') {
      assert r[i] == s[a + i];
    }
  }

  /** Python `s.replace(a, b)` for single characters. */
  function Replace(s: string, a: char, b: char): (r: string)
    ensures |r| == |s|
    ensures forall i :: 0 <= i < |s| ==> r[i] == (if s[i] == a then b else s[i])
  {
    seq(|s|, i requires 0 <= i < |s| => if s[i] == a then b else s[i])
  }

  /** Python `s.startswith(prefix)`. */
  predicate StartsWith(s: string, prefix: string) {
    |prefix| <= |s| && s[..|prefix|] == prefix
  }

  /** Python `sep.join(parts)`. */
  function Join(parts: seq<string>, sep: string): string {
    if |parts| == 0 then ""
    else if |parts| == 1 then parts[0]
    else parts[0] + sep + Join(parts[1..], sep)
  }

  lemma JoinCons(x: string, parts: seq<string>, sep: string)
    requires |parts| >= 1
    ensures Join([x] + parts, sep) == x + sep + Join(parts, sep)
  {
    assert ([x] + parts)[1..] == parts;
  }

  lemma JoinExtendHead(x: string, parts: seq<string>, sep: string)
    requires |parts| >= 1
    ensures Join([x + parts[0]] + parts[1..], sep) == x + Join(parts, sep)
  {
    var q := [x + parts[0]] + parts[1..];
    if |parts| > 1 {
      assert q[1..] == parts[1..];
    }
  }

  /** Python `s.split(c)` for a one-character separator. */
  function Split(s: string, c: char): (r: seq<string>)
    ensures |r| >= 1
    ensures forall i :: 0 <= i < |r| ==> c !in r[i]
    ensures Join(r, [c]) == s
  {
    if |s| == 0 then [""]
    else
      var rest := Split(s[1..], c);
      if s[0] == c then
        JoinCons("", rest, [c]);
        [""] + rest
      else
        JoinExtendHead([s[0]], rest, [c]);
        assert s == [s[0]] + s[1..];
        [[s[0]] + rest[0]] + rest[1..]
  }

  lemma {:induction false} SplitNoSeparator(s: string, c: char)
    requires c !in s
    ensures Split(s, c) == [s]
    decreases |s|
  {
    if |s| > 0 {
      assert c !in s[1..];
      SplitNoSeparator(s[1..], c);
    }
  }

  lemma {:induction false} SplitPiece(a: string, c: char, rest: string)
    requires c !in a
    ensures Split(a + [c] + rest, c) == [a] + Split(rest, c)
    decreases |a|
  {
    var s := a + [c] + rest;
    if a == [] {
      assert s[1..] == rest;
    } else {
      assert s[1..] == a[1..] + [c] + rest;
      assert c !in a[1..];
      SplitPiece(a[1..], c, rest);
      assert [a[0]] + a[1..] == a;
    }
  }

  /** `split` undoes `join` when no part contains the separator. */
  lemma {:induction false} SplitJoin(parts: seq<string>, c: char)
    requires |parts| >= 1
    requires forall i :: 0 <= i < |parts| ==> c !in parts[i]
    ensures Split(Join(parts, [c]), c) == parts
    decreases |parts|
  {
    if |parts| == 1 {
      SplitNoSeparator(parts[0], c);
    } else {
      SplitJoin(parts[1..], c);
      assert Join(parts, [c]) == parts[0] + [c] + Join(parts[1..], [c]);
      SplitPiece(parts[0], c, Join(parts[1..], [c]));
      assert [parts[0]] + parts[1..] == parts;
    }
  }

  /** `pat` occurs in `s` starting at position `k`. */
  predicate OccursAt(s: string, pat: string, k: nat) {
    k + |pat| <= |s| && s[k..k + |pat|] == pat
  }

  /** The first position at or after `i` where `pat` occurs, or `|s|` when there is none. */
  function Find(s: string, pat: string, i: nat): (j: nat)
    requires |pat| > 0 && i <= |s|
    ensures i <= j <= |s|
    ensures j < |s| ==> OccursAt(s, pat, j)
    ensures forall k: nat :: i <= k < j ==> !OccursAt(s, pat, k)
    decreases |s| - i
  {
    if i + |pat| > |s| then |s|
    else if s[i..i + |pat|] == pat then i
    else Find(s, pat, i + 1)
  }

  function DigitChar(d: nat): char
    requires d < 10
  {
    ('0' as int + d) as char
  }

  /** Python `str(n)` for a natural number. */
  function NatToString(n: nat): (r: string)
    ensures |r| >= 1
    ensures forall i :: 0 <= i < |r| ==> '0' <= r[i] <= '9'
  {
    if n < 10 then [DigitChar(n)] else NatToString(n / 10) + [DigitChar(n % 10)]
  }

  /** Different numbers have different decimal renderings. */
  lemma {:induction false} NatToStringInjective(n: nat, m: nat)
    requires NatToString(n) == NatToString(m)
    ensures n == m
    decreases n
  {
    var s := NatToString(n);
    if n >= 10 && m >= 10 {
      assert NatToString(n / 10) == s[..|s| - 1] == NatToString(m / 10);
      NatToStringInjective(n / 10, m / 10);
      assert n % 10 == m % 10 by {
        assert DigitChar(n % 10) == s[|s| - 1] == DigitChar(m % 10);
      }
    }
  }

  // ---------------------------------------------------------------------------------
  // Sequences of strings.

  /** No string occurs twice. */
  predicate NoDup(s: seq<string>) {
    forall i, j :: 0 <= i < j < |s| ==> s[i] != s[j]
  }

  /** The distinct elements in order of first appearance (the keys of a dict built from `s`). */
  function Distinct(s: seq<string>): (r: seq<string>)
    ensures forall x :: x in r <==> x in s
    ensures forall i, j :: 0 <= i < j < |r| ==> r[i] != r[j]
  {
    if |s| == 0 then []
    else
      var d := Distinct(s[..|s| - 1]);
      var x := s[|s| - 1];
      assert forall y :: y in s <==> y in s[..|s| - 1] || y == x;
      if x in d then d else d + [x]
  }
}
