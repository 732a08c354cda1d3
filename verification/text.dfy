/**
 * The Python string built-ins the scraper's field logic is written with:
 * `str.strip()`, `str.lower()`, `p in s`, `str.startswith`, `str.replace`,
 * `str.split`/`str.join` on one separator character, and `str(n)`.
 * Strings are sequences of Unicode code points, as in Python 3.
 */
module Text {
  import opened Wrappers

  /** `c.isspace()`: the characters Python treats as whitespace. */
  predicate IsSpace(c: char) {
    || c == ' '
    || ('\t' <= c <= '\r')
    || ('\U{1C}' <= c <= '\U{1F}')
    || c == '\U{85}' || c == '\U{A0}' || c == '\U{1680}'
    || ('\U{2000}' <= c <= '\U{200A}')
    || c == '\U{2028}' || c == '\U{2029}' || c == '\U{202F}' || c == '\U{205F}' || c == '\U{3000}'
  }

  predicate AllSpace(s: string) {
    forall k :: 0 <= k < |s| ==> IsSpace(s[k])
  }

  /** Neither end of `s` is whitespace: what `strip()` guarantees. */
  predicate NoOuterSpace(s: string) {
    s == [] || (!IsSpace(s[0]) && !IsSpace(s[|s| - 1]))
  }

  /** `s.lstrip()`: `r` is the suffix of `s` left after dropping leading whitespace. */
  function StripLeft(s: string): (r: string)
    ensures |r| <= |s| && r == s[|s| - |r|..]
    ensures AllSpace(s[..|s| - |r|])
    ensures r == [] || !IsSpace(r[0])
    decreases |s|
  {
    if |s| > 0 && IsSpace(s[0]) then
      var r := StripLeft(s[1..]);
      assert s[1..][..|s| - 1 - |r|] == s[1..|s| - |r|];
      assert s[..|s| - |r|] == [s[0]] + s[1..|s| - |r|];
      r
    else s
  }

  /** `s.rstrip()`: `r` is the prefix of `s` left after dropping trailing whitespace. */
  function StripRight(s: string): (r: string)
    ensures |r| <= |s| && r == s[..|r|]
    ensures AllSpace(s[|r|..])
    ensures r == [] || !IsSpace(r[|r| - 1])
    decreases |s|
  {
    if |s| > 0 && IsSpace(s[|s| - 1]) then
      var r := StripRight(s[..|s| - 1]);
      assert s[..|s| - 1][|r|..] == s[|r|..|s| - 1];
      assert s[|r|..] == s[|r|..|s| - 1] + [s[|s| - 1]];
      r
    else s
  }

  /** `r` is `s` with some whitespace, and nothing else, removed from its two ends. */
  ghost predicate IsTrimOf(r: string, s: string) {
    exists i :: 0 <= i <= |s| - |r| && r == s[i..i + |r|] && AllSpace(s[..i]) && AllSpace(s[i + |r|..])
  }

  /** `s.strip()`: whitespace removed at both ends. */
  function Strip(s: string): string {
    StripRight(StripLeft(s))
  }

  lemma StripLeavesNoOuterSpace(s: string)
    ensures NoOuterSpace(Strip(s))
  {
    var left := StripLeft(s);
    var r := StripRight(left);
    if r != [] {
      assert r[0] == left[0];
    }
  }

  lemma TrimAt(r: string, s: string, i: nat)
    requires i + |r| <= |s| && r == s[i..i + |r|] && AllSpace(s[..i]) && AllSpace(s[i + |r|..])
    ensures IsTrimOf(r, s)
  {
  }

  lemma StripIsTrim(s: string)
    ensures IsTrimOf(Strip(s), s)
  {
    var left := StripLeft(s);
    var i := |s| - |left|;
    var r := StripRight(left);
    assert r == s[i..i + |r|] by {
      assert left == s[i..] && r == left[..|r|];
      assert s[i..][..|r|] == s[i..i + |r|];
    }
    assert AllSpace(s[i + |r|..]) by {
      assert left == s[i..] && AllSpace(left[|r|..]);
      assert s[i..][|r|..] == s[i + |r|..];
    }
    TrimAt(r, s, i);
  }

  /** Nothing to strip on the left: `lstrip` changes nothing. */
  lemma StripLeftKeeps(s: string)
    requires s == [] || !IsSpace(s[0])
    ensures StripLeft(s) == s
  {
  }

  /** Nothing to strip on the right: `rstrip` changes nothing. */
  lemma StripRightKeeps(s: string)
    requires s == [] || !IsSpace(s[|s| - 1])
    ensures StripRight(s) == s
  {
  }

  lemma StripKeepsTrimmed(s: string)
    requires NoOuterSpace(s)
    ensures Strip(s) == s
  {
    StripLeftKeeps(s);
    StripRightKeeps(s);
  }

  /**
   * `strip()` removes whitespace, and nothing else, from the two ends of its
   * argument, leaves none at either end, and changes nothing when there is none.
   */
  lemma StripSpec(s: string)
    ensures NoOuterSpace(Strip(s))
    ensures IsTrimOf(Strip(s), s)
    ensures NoOuterSpace(s) ==> Strip(s) == s
  {
    StripLeavesNoOuterSpace(s);
    StripIsTrim(s);
    if NoOuterSpace(s) {
      StripKeepsTrimmed(s);
    }
  }

  lemma StripIdempotent(s: string)
    ensures Strip(Strip(s)) == Strip(s)
  {
    StripSpec(s);
    StripSpec(Strip(s));
  }

  /** `c.lower()` on ASCII letters; every other character is left alone. */
  function LowerChar(c: char): char {
    if 'A' <= c <= 'Z' then (c as int + 32) as char else c
  }

  /** `s.lower()`, with case mapping restricted to ASCII. */
  function Lower(s: string): (r: string)
    ensures |r| == |s|
    ensures forall k :: 0 <= k < |r| ==> !('A' <= r[k] <= 'Z')
    ensures forall k :: 0 <= k < |s| && !('A' <= s[k] <= 'Z') ==> r[k] == s[k]
    ensures forall k :: 0 <= k < |s| && 'A' <= s[k] <= 'Z' ==> r[k] == (s[k] as int + 32) as char
  {
    seq(|s|, k requires 0 <= k < |s| => LowerChar(s[k]))
  }

  lemma LowerIdempotent(s: string)
    ensures Lower(Lower(s)) == Lower(s)
  {
  }

  /** `p` occurs in `s` starting at index `i`. */
  predicate OccursAt(s: string, p: string, i: int) {
    0 <= i && i + |p| <= |s| && s[i..i + |p|] == p
  }

  /** `i` is where Python's `s.find(p)` / `s.split(p, 1)` cut `s`: the first occurrence. */
  predicate IsFirstOccurrence(s: string, p: string, i: int) {
    OccursAt(s, p, i) && forall j :: 0 <= j < i ==> !OccursAt(s, p, j)
  }

  /** The first occurrence of `p` in `s` at or after index `i`. */
  function FindFrom(s: string, p: string, i: nat): (r: Option<nat>)
    requires i <= |s|
    ensures r.Some? ==> i <= r.value && OccursAt(s, p, r.value)
    ensures r.Some? ==> forall j :: i <= j < r.value ==> !OccursAt(s, p, j)
    ensures r.None? ==> forall j :: i <= j ==> !OccursAt(s, p, j)
    decreases |s| - i
  {
    if OccursAt(s, p, i) then Some(i)
    else if i == |s| then None
    else FindFrom(s, p, i + 1)
  }

  /** `s.find(p)`, as an option. */
  function Find(s: string, p: string): (r: Option<nat>)
    ensures r.Some? ==> IsFirstOccurrence(s, p, r.value)
    ensures r.None? ==> forall j :: !OccursAt(s, p, j)
  {
    FindFrom(s, p, 0)
  }

  /** Python's `p in s` for strings. */
  predicate Contains(s: string, p: string) {
    Find(s, p).Some?
  }

  lemma ContainsAt(s: string, p: string, i: int)
    requires OccursAt(s, p, i)
    ensures Contains(s, p)
  {
  }

  /** What contains `a` contains everything `a` contains. */
  lemma ContainsTransitive(s: string, a: string, b: string)
    requires Contains(s, a) && Contains(a, b)
    ensures Contains(s, b)
  {
    var i := Find(s, a).value;
    var j := Find(a, b).value;
    assert s[i + j..i + j + |b|] == s[i..i + |a|][j..j + |b|];
    ContainsAt(s, b, i + j);
  }

  /** `s.startswith(p)`. */
  predicate StartsWith(s: string, p: string) {
    |p| <= |s| && s[..|p|] == p
  }

  /**
   * `s.replace(p, "")`: occurrences of `p` are found left to right, without
   * overlap, and deleted.
   */
  function RemoveAll(s: string, p: string): (r: string)
    requires p != ""
    ensures |r| <= |s|
    decreases |s|
  {
    if |s| < |p| then s
    else if s[..|p|] == p then RemoveAll(s[|p|..], p)
    else [s[0]] + RemoveAll(s[1..], p)
  }

  lemma {:induction false} RemoveAllAbsent(s: string, p: string)
    requires p != ""
    requires forall j :: !OccursAt(s, p, j)
    ensures RemoveAll(s, p) == s
    decreases |s|
  {
    if |s| >= |p| {
      assert !OccursAt(s, p, 0);
      forall j ensures !OccursAt(s[1..], p, j) {
        if OccursAt(s[1..], p, j) {
          assert s[1..][j..j + |p|] == s[j + 1..j + 1 + |p|];
          assert OccursAt(s, p, j + 1);
        }
      }
      RemoveAllAbsent(s[1..], p);
    }
  }

  /** `s.replace(" ", "%20")`: every space becomes `%20`. */
  function EncodeSpaces(s: string): (r: string)
    ensures ' ' !in r
    ensures ' ' !in s ==> r == s
    ensures |r| >= |s|
  {
    if s == [] then [] else (if s[0] == ' ' then "%20" else [s[0]]) + EncodeSpaces(s[1..])
  }

  /** Reads `%20` back as a space, left to right. */
  function DecodeSpaces(s: string): string
    decreases |s|
  {
    if s == [] then []
    else if |s| >= 3 && s[..3] == "%20" then " " + DecodeSpaces(s[3..])
    else [s[0]] + DecodeSpaces(s[1..])
  }

  lemma DecodePercent20(t: string)
    ensures DecodeSpaces("%20" + t) == " " + DecodeSpaces(t)
  {
    assert ("%20" + t)[..3] == "%20" && ("%20" + t)[3..] == t;
  }

  lemma DecodePlain(c: char, t: string)
    requires c != '%'
    ensures DecodeSpaces([c] + t) == [c] + DecodeSpaces(t)
  {
    var u := [c] + t;
    assert u[0] == c && u[1..] == t;
    assert |u| >= 3 ==> u[..3] != "%20" by {
      if |u| >= 3 {
        assert u[..3][0] == c;
      }
    }
  }

  /** For text without `%`, the encoded subject decodes back to the text. */
  lemma {:induction false} EncodeSpacesRoundTrip(s: string)
    requires '%' !in s
    ensures DecodeSpaces(EncodeSpaces(s)) == s
    decreases |s|
  {
    if s != [] {
      var t := EncodeSpaces(s[1..]);
      assert s[0] in s;
      assert forall c :: c in s[1..] ==> c in s;
      EncodeSpacesRoundTrip(s[1..]);
      if s[0] == ' ' {
        assert EncodeSpaces(s) == "%20" + t;
        DecodePercent20(t);
      } else {
        assert EncodeSpaces(s) == [s[0]] + t;
        DecodePlain(s[0], t);
      }
      assert s == [s[0]] + s[1..];
    }
  }

  /** `s.split(c)` for a one-character separator `c`. */
  function SplitOn(s: string, c: char): (parts: seq<string>)
    ensures |parts| >= 1
    ensures forall k :: 0 <= k < |parts| ==> c !in parts[k]
    decreases |s|
  {
    if s == [] then [""]
    else
      var rest := SplitOn(s[1..], c);
      if s[0] == c then [""] + rest else [[s[0]] + rest[0]] + rest[1..]
  }

  /** `c.join(parts)`. */
  function JoinWith(parts: seq<string>, c: char): string
    decreases |parts|
  {
    if parts == [] then ""
    else if |parts| == 1 then parts[0]
    else parts[0] + [c] + JoinWith(parts[1..], c)
  }

  /** Splitting and joining on the same character gives the string back. */
  lemma {:induction false} JoinSplit(s: string, c: char)
    ensures JoinWith(SplitOn(s, c), c) == s
    decreases |s|
  {
    if s != [] {
      var rest := SplitOn(s[1..], c);
      JoinSplit(s[1..], c);
      if s[0] == c {
        assert ([""] + rest)[1..] == rest;
      } else if |rest| == 1 {
      } else {
        var parts := [[s[0]] + rest[0]] + rest[1..];
        assert parts[1..] == rest[1..];
        assert JoinWith(rest, c) == rest[0] + [c] + JoinWith(rest[1..], c);
      }
      assert s == [s[0]] + s[1..];
    }
  }

  /** A string without the separator is one part. */
  lemma {:induction false} SplitOnWithout(w: string, c: char)
    requires c !in w
    ensures SplitOn(w, c) == [w]
    decreases |w|
  {
    if w != [] {
      SplitOnWithout(w[1..], c);
      assert w == [w[0]] + w[1..];
    }
  }

  /** The text before the first separator is the first part; the rest is split on its own. */
  lemma {:induction false} SplitOnPrefix(w: string, rest: string, c: char)
    requires c !in w
    ensures SplitOn(w + [c] + rest, c) == [w] + SplitOn(rest, c)
    decreases |w|
  {
    var s := w + [c] + rest;
    if w == [] {
      assert s[0] == c && s[1..] == rest;
    } else {
      SplitOnPrefix(w[1..], rest, c);
      assert s[0] == w[0] && s[1..] == w[1..] + [c] + rest;
      assert [w[0]] + w[1..] == w;
    }
  }

  /** Joining the first `k` parts gives a prefix of joining them all. */
  lemma {:induction false} JoinPrefix(parts: seq<string>, c: char, k: nat)
    requires 1 <= k <= |parts|
    ensures JoinWith(parts[..k], c) <= JoinWith(parts, c)
    decreases k
  {
    if k > 1 {
      JoinPrefix(parts[1..], c, k - 1);
      assert parts[..k][1..] == parts[1..][..k - 1];
      var a := JoinWith(parts[1..][..k - 1], c);
      var b := JoinWith(parts[1..], c);
      assert parts[0] + [c] + a <= parts[0] + [c] + b by {
        assert (parts[0] + [c] + b)[..|parts[0]| + 1 + |a|] == parts[0] + [c] + a;
      }
    } else if |parts| > 1 {
      assert JoinWith(parts, c) == parts[0] + [c] + JoinWith(parts[1..], c);
    }
  }

  predicate IsDigit(c: char) {
    '0' <= c <= '9'
  }

  predicate AllDigits(s: string) {
    forall k :: 0 <= k < |s| ==> IsDigit(s[k])
  }

  function DigitValue(c: char): nat
    requires IsDigit(c)
  {
    c as int - '0' as int
  }

  function DigitChar(d: nat): (c: char)
    requires d < 10
    ensures IsDigit(c) && DigitValue(c) == d
  {
    ('0' as int + d) as char
  }

  /** `str(n)` for a natural number: decimal digits, no leading zero. */
  function NatToDecimal(n: nat): (r: string)
    ensures |r| >= 1 && AllDigits(r)
    decreases n
  {
    if n < 10 then [DigitChar(n)] else NatToDecimal(n / 10) + [DigitChar(n % 10)]
  }

  /** `int(s)` for a string of ASCII digits. */
  function DecimalValue(s: string): nat
    requires AllDigits(s)
    decreases |s|
  {
    if s == [] then 0 else DecimalValue(s[..|s| - 1]) * 10 + DigitValue(s[|s| - 1])
  }

  lemma {:induction false} DecimalRoundTrip(n: nat)
    ensures DecimalValue(NatToDecimal(n)) == n
    decreases n
  {
    if n >= 10 {
      var s := NatToDecimal(n);
      assert s[..|s| - 1] == NatToDecimal(n / 10);
      DecimalRoundTrip(n / 10);
    }
  }

  /** `str` is injective on natural numbers. */
  lemma NatToDecimalInjective(a: nat, b: nat)
    requires NatToDecimal(a) == NatToDecimal(b)
    ensures a == b
  {
    DecimalRoundTrip(a);
    DecimalRoundTrip(b);
  }
}
