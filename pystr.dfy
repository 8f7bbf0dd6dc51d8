/**
  The Python `str` methods the website saver relies on: `strip()` with no
  argument, `replace` of one character by another, `title()`, and the ASCII
  case folding that `re.IGNORECASE` applies to the fence labels.
 */
module PyStr {

  /** Python's `str.isspace()`: the characters a bare `strip()` removes. */
  predicate IsSpace(c: char) {
    || ('\t' <= c <= '\r')            // tab, line feed, vertical tab, form feed, carriage return
    || ('\U{1C}' <= c <= '\U{1F}')    // file, group, record and unit separators
    || c == ' '
    || c == '\U{85}' || c == '\U{A0}' || c == '\U{1680}'
    || ('\U{2000}' <= c <= '\U{200A}')
    || c == '\U{2028}' || c == '\U{2029}' || c == '\U{202F}' || c == '\U{205F}' || c == '\U{3000}'
  }

  predicate AllSpace(s: string) {
    forall k :: 0 <= k < |s| ==> IsSpace(s[k])
  }

  /** A string `strip()` leaves unchanged: empty, or starting and ending with a non-space. */
  predicate Trimmed(s: string) {
    s == [] || (!IsSpace(s[0]) && !IsSpace(s[|s| - 1]))
  }

  /** The first position at or after `i` that does not hold whitespace. */
  function SkipSpace(s: string, i: nat): (j: nat)
    requires i <= |s|
    ensures i <= j <= |s|
    ensures forall k :: i <= k < j ==> IsSpace(s[k])
    ensures j == |s| || !IsSpace(s[j])
    decreases |s| - i
  {
    if i < |s| && IsSpace(s[i]) then SkipSpace(s, i + 1) else i
  }

  /** Moving the end `j` back over whitespace, but not below `lo`. */
  function BackSpace(s: string, lo: nat, j: nat): (h: nat)
    requires lo <= j <= |s|
    ensures lo <= h <= j
    ensures forall k :: h <= k < j ==> IsSpace(s[k])
    ensures h == lo || !IsSpace(s[h - 1])
    decreases j
  {
    if lo < j && IsSpace(s[j - 1]) then BackSpace(s, lo, j - 1) else j
  }

  /** Where the content kept by `strip()` starts and ends. */
  function StripStart(s: string): nat
    ensures StripStart(s) <= |s|
  {
    SkipSpace(s, 0)
  }

  function StripEnd(s: string): nat
    ensures StripStart(s) <= StripEnd(s) <= |s|
  {
    BackSpace(s, StripStart(s), |s|)
  }

  /** `s.strip()`: `s` with its leading and trailing whitespace removed,
      found as Python finds it, from the left first and then from the right
      down to where the left scan stopped. */
  function Strip(s: string): (r: string)
    ensures |r| <= |s|
    ensures Trimmed(r)
    ensures r == [] <==> AllSpace(s)
  {
    var lo, hi := StripStart(s), StripEnd(s);
    assert lo < hi ==> !IsSpace(s[lo]);
    s[lo..hi]
  }

  lemma {:induction false} SkipSpaceOver(s: string, i: nat, j: nat)
    requires i <= j <= |s|
    requires forall k :: i <= k < j ==> IsSpace(s[k])
    requires j == |s| || !IsSpace(s[j])
    ensures SkipSpace(s, i) == j
    decreases j - i
  {
    if i < j {
      SkipSpaceOver(s, i + 1, j);
    }
  }

  lemma {:induction false} BackSpaceOver(s: string, lo: nat, h: nat, j: nat)
    requires lo <= h <= j <= |s|
    requires forall k :: h <= k < j ==> IsSpace(s[k])
    requires h == lo || !IsSpace(s[h - 1])
    ensures BackSpace(s, lo, j) == h
    decreases j
  {
    if h < j {
      BackSpaceOver(s, lo, h, j - 1);
    }
  }

  /** `strip()` removes exactly the surrounding whitespace: for any split of a
      string into a whitespace prefix, a trimmed core and a whitespace suffix,
      the result is the core. Every string has such a split, so this pins
      `Strip` down completely. */
  lemma StripExact(lead: string, core: string, trail: string)
    requires AllSpace(lead) && AllSpace(trail) && Trimmed(core)
    ensures Strip(lead + core + trail) == core
  {
    var s := lead + core + trail;
    var i, j := |lead|, |lead| + |core|;
    assert forall k :: 0 <= k < i ==> s[k] == lead[k];
    assert forall k :: j <= k < |s| ==> s[k] == trail[k - j];
    if core == [] {
      assert forall k :: 0 <= k < |s| ==> IsSpace(s[k]) by {
        forall k | 0 <= k < |s| ensures IsSpace(s[k]) {
          if k >= i { assert s[k] == trail[k - j]; }
        }
      }
      SkipSpaceOver(s, 0, |s|);
    } else {
      assert s[i] == core[0] && s[j - 1] == core[|core| - 1];
      SkipSpaceOver(s, 0, i);
      BackSpaceOver(s, i, j, |s|);
      assert s[i..j] == core;
    }
  }

  /** Stripping twice is stripping once. */
  lemma StripIdempotent(s: string)
    ensures Strip(Strip(s)) == Strip(s)
  {
    StripExact([], Strip(s), []);
    assert [] + Strip(s) + [] == Strip(s);
  }

  /** The result of `strip()` is the piece of its argument from the first
      non-space character on. */
  lemma StripIsSlice(s: string)
    ensures StripStart(s) + |Strip(s)| <= |s|
    ensures forall k :: 0 <= k < |Strip(s)| ==> Strip(s)[k] == s[StripStart(s) + k]
  {
  }

  // ASCII letter case, the only case Python's `title()` and `re.IGNORECASE`
  // are modelled with here.

  predicate IsUpper(c: char) { 'A' <= c <= 'Z' }
  predicate IsLower(c: char) { 'a' <= c <= 'z' }
  predicate IsCased(c: char) { IsUpper(c) || IsLower(c) }

  function ToLower(c: char): (d: char)
    ensures IsCased(c) ==> IsLower(d)
    ensures IsUpper(c) ==> d as int - 'a' as int == c as int - 'A' as int
    ensures !IsUpper(c) ==> d == c
  {
    if IsUpper(c) then (c as int + 32) as char else c
  }

  function ToUpper(c: char): (d: char)
    ensures IsCased(c) ==> IsUpper(d)
    ensures IsLower(c) ==> d as int - 'A' as int == c as int - 'a' as int
    ensures !IsLower(c) ==> d == c
  {
    if IsLower(c) then (c as int - 32) as char else c
  }

  lemma CaseRoundTrip(c: char)
    ensures ToLower(ToUpper(c)) == ToLower(c) && ToLower(ToLower(c)) == ToLower(c)
    ensures ToUpper(ToLower(c)) == ToUpper(c) && ToUpper(ToUpper(c)) == ToUpper(c)
  {
  }

  /** `x` and `y` are the same letters, ASCII case aside: how `re.IGNORECASE`
      compares the literal part of a pattern. */
  predicate EqualIgnoringCase(x: string, y: string) {
    |x| == |y| && forall k :: 0 <= k < |x| ==> ToLower(x[k]) == ToLower(y[k])
  }

  /** `s.replace(a, b)` for a one-character `a` and `b`. */
  function ReplaceChar(s: string, a: char, b: char): (r: string)
    ensures |r| == |s|
    ensures forall k :: 0 <= k < |s| ==> r[k] == (if s[k] == a then b else s[k])
    ensures a != b ==> a !in r
  {
    if s == [] then [] else [if s[0] == a then b else s[0]] + ReplaceChar(s[1..], a, b)
  }

  /** Whether position `k` of `s` opens a word in the sense of `title()`:
      a cased letter not preceded by a cased letter. */
  predicate WordStart(s: string, k: nat)
    requires k < |s|
  {
    IsCased(s[k]) && (k == 0 || !IsCased(s[k - 1]))
  }

  /** `title()` continued from a point where the previous character was
      cased (`afterCased`) or not. */
  function TitleFrom(s: string, afterCased: bool): (r: string)
    ensures |r| == |s|
    ensures forall k :: 0 <= k < |s| ==> ToLower(r[k]) == ToLower(s[k]) && IsCased(r[k]) == IsCased(s[k])
    ensures forall k :: 0 <= k < |s| && !IsCased(s[k]) ==> r[k] == s[k]
    ensures forall k :: 0 <= k < |s| && IsCased(s[k]) ==>
      (IsUpper(r[k]) <==> !(if k == 0 then afterCased else IsCased(s[k - 1])))
  {
    if s == [] then
      []
    else
      var c := if afterCased then ToLower(s[0]) else ToUpper(s[0]);
      var rest := TitleFrom(s[1..], IsCased(s[0]));
      assert forall k :: 1 <= k < |s| ==> s[1..][k - 1] == s[k];
      [c] + rest
  }

  /** `s.title()`: every word-initial letter upper case, every other letter lower case. */
  function Title(s: string): (r: string)
    ensures |r| == |s|
    ensures forall k :: 0 <= k < |s| && !IsCased(s[k]) ==> r[k] == s[k]
    ensures forall k :: 0 <= k < |s| && IsCased(s[k]) ==>
      ToLower(r[k]) == ToLower(s[k]) && (IsUpper(r[k]) <==> WordStart(s, k))
  {
    TitleFrom(s, false)
  }

  /** A string already in title case. */
  predicate IsTitled(s: string) {
    forall k :: 0 <= k < |s| && IsCased(s[k]) ==> (IsUpper(s[k]) <==> WordStart(s, k))
  }

  /** `title()` produces title case, and applying it again changes nothing. */
  lemma {:induction false} TitleIsTitled(s: string)
    ensures IsTitled(Title(s))
    ensures Title(Title(s)) == Title(s)
  {
    var r := Title(s);
    assert forall k :: 0 <= k < |s| ==> IsCased(r[k]) == IsCased(s[k]) by {
      forall k | 0 <= k < |s| ensures IsCased(r[k]) == IsCased(s[k]) {
        if IsCased(s[k]) {
          assert IsCased(r[k]) by {
            assert ToLower(r[k]) == ToLower(s[k]);
            assert IsLower(ToLower(s[k]));
          }
        }
      }
    }
    var t := Title(r);
    forall k | 0 <= k < |s| ensures t[k] == r[k] {
      if IsCased(r[k]) {
        CaseRoundTrip(r[k]);
        assert WordStart(r, k) == WordStart(s, k);
      }
    }
  }
}
