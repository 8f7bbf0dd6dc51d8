/**
  `re.findall(r'```TAG(.*?)```', text, re.DOTALL | re.IGNORECASE)` for a
  fixed label TAG, written as an explicit left-to-right scan.

  A match starts at an opening fence: three backticks followed by TAG, the
  letters compared without regard to ASCII case. Its body runs (across line
  breaks) up to the first three backticks after the label, which close it.
  The search for the next match resumes right after the closing fence.

  `LeftmostMatches` states what `findall` returns without saying how to
  compute it; `Scan` computes it, and `ScanIsLeftmost` and `LeftmostUnique`
  show that the two agree.
 */
module FenceScan {
  import opened Wrappers
  import opened PyStr

  const Fence: string := "```"

  /** Three backticks start at position `p` of `text`. */
  predicate FenceAt(text: string, p: nat) {
    p + 3 <= |text| && text[p] == '`' && text[p + 1] == '`' && text[p + 2] == '`'
  }

  /** `text` holds no three consecutive backticks. */
  predicate NoFence(text: string) {
    forall q: nat :: q < |text| ==> !FenceAt(text, q)
  }

  /** The opening "```TAG", TAG in any letter case, starts at position `p`. */
  predicate OpeningAt(text: string, tag: string, p: nat) {
    && FenceAt(text, p)
    && p + 3 + |tag| <= |text|
    && EqualIgnoringCase(text[p + 3..p + 3 + |tag|], tag)
  }

  /** The pattern matches at position `p`: an opening there, and three
      backticks somewhere after it. */
  predicate MatchesAt(text: string, tag: string, p: nat) {
    OpeningAt(text, tag, p) && exists q: nat :: p + 3 + |tag| <= q < |text| && FenceAt(text, q)
  }

  /** The first fence at position `from` or later, if there is one. */
  function NextFence(text: string, from: nat): (r: Option<nat>)
    ensures r.Some? ==> from <= r.value && FenceAt(text, r.value)
    ensures r.Some? ==> forall q: nat :: from <= q < r.value ==> !FenceAt(text, q)
    ensures r.None? ==> forall q: nat :: from <= q ==> !FenceAt(text, q)
    decreases |text| - from
  {
    if from + 3 > |text| then None
    else if FenceAt(text, from) then Some(from)
    else NextFence(text, from + 1)
  }

  /** One match: the opening fence at `start`, the captured group
      `text[bodyStart..bodyEnd]`, and the closing fence at `bodyEnd`. */
  datatype Span = Span(start: nat, bodyStart: nat, bodyEnd: nat) {
    /** Where the search for the next match resumes. */
    function End(): nat { bodyEnd + 3 }
  }

  /** `m` is exactly what the pattern matches at `m.start`: the non-greedy
      group stops at the first closing fence after the label. */
  predicate IsMatch(text: string, tag: string, m: Span) {
    && OpeningAt(text, tag, m.start)
    && m.bodyStart == m.start + 3 + |tag|
    && m.bodyStart <= m.bodyEnd
    && FenceAt(text, m.bodyEnd)
    && forall q: nat :: m.bodyStart <= q < m.bodyEnd ==> !FenceAt(text, q)
  }

  /** What `findall` returns when searching from `from`: the leftmost match at
      or after `from`, then the matches found from its end; no match at all
      once none is left. */
  ghost predicate LeftmostMatches(text: string, tag: string, from: nat, ms: seq<Span>)
    decreases |ms|
  {
    if ms == [] then
      forall p: nat :: from <= p ==> !MatchesAt(text, tag, p)
    else
      && IsMatch(text, tag, ms[0])
      && from <= ms[0].start
      && (forall p: nat :: from <= p < ms[0].start ==> !MatchesAt(text, tag, p))
      && LeftmostMatches(text, tag, ms[0].End(), ms[1..])
  }

  /** The scan. At each position: an opening whose closing fence exists is a
      match; an opening with no closing fence after it ends the scan, because
      no later opening can be closed either; anything else moves on by one. */
  function Scan(text: string, tag: string, i: nat): seq<Span>
    decreases |text| - i
  {
    if i + 3 + |tag| > |text| then
      []
    else if OpeningAt(text, tag, i) then
      match NextFence(text, i + 3 + |tag|)
      case None => []
      case Some(j) => [Span(i, i + 3 + |tag|, j)] + Scan(text, tag, j + 3)
    else
      Scan(text, tag, i + 1)
  }

  /** The captured group of a match. */
  function Body(text: string, m: Span): string {
    if m.bodyStart <= m.bodyEnd <= |text| then text[m.bodyStart..m.bodyEnd] else []
  }

  function Bodies(text: string, ms: seq<Span>): (r: seq<string>)
    ensures |r| == |ms|
    ensures forall k :: 0 <= k < |ms| ==> r[k] == Body(text, ms[k])
  {
    if ms == [] then [] else [Body(text, ms[0])] + Bodies(text, ms[1..])
  }

  /** `re.findall`: the captured groups of all matches, in text order. None
      of them contains three consecutive backticks. */
  function FindAll(text: string, tag: string): (r: seq<string>)
    ensures forall k :: 0 <= k < |r| ==> NoFence(r[k])
  {
    var ms := Scan(text, tag, 0);
    ScanIsLeftmost(text, tag, 0);
    LeftmostSound(text, tag, 0, ms);
    forall k | 0 <= k < |ms| ensures NoFence(Body(text, ms[k])) {
      MatchBodyHasNoFence(text, tag, ms[k]);
    }
    Bodies(text, ms)
  }

  /** The matches `findall` reports are genuine matches, in text order, and
      do not overlap: each starts no earlier than the previous one's closing
      fence ends. */
  lemma {:induction false} LeftmostSound(text: string, tag: string, from: nat, ms: seq<Span>)
    requires LeftmostMatches(text, tag, from, ms)
    ensures forall k :: 0 <= k < |ms| ==> IsMatch(text, tag, ms[k]) && from <= ms[k].start
    ensures forall k :: 0 < k < |ms| ==> ms[k - 1].End() <= ms[k].start
    ensures forall k :: 0 <= k < |ms| ==> ms[k].End() <= |text|
    decreases |ms|
  {
    if ms != [] {
      LeftmostSound(text, tag, ms[0].End(), ms[1..]);
      assert forall k :: 0 < k < |ms| ==> ms[k] == ms[1..][k - 1];
    }
  }

  lemma MatchBodyHasNoFence(text: string, tag: string, m: Span)
    requires IsMatch(text, tag, m)
    ensures NoFence(Body(text, m))
  {
    var b := Body(text, m);
    forall q: nat | q < |b| ensures !FenceAt(b, q) {
      if q + 3 <= |b| {
        assert b[q] == text[m.bodyStart + q] && b[q + 1] == text[m.bodyStart + q + 1] && b[q + 2] == text[m.bodyStart + q + 2];
        assert !FenceAt(text, m.bodyStart + q);
      }
    }
  }

  lemma MatchIsMatchesAt(text: string, tag: string, m: Span)
    requires IsMatch(text, tag, m)
    ensures MatchesAt(text, tag, m.start)
  {
    assert m.start + 3 + |tag| <= m.bodyEnd && FenceAt(text, m.bodyEnd);
  }

  /** The scan finds exactly what `findall` specifies. */
  lemma {:induction false} ScanIsLeftmost(text: string, tag: string, i: nat)
    ensures LeftmostMatches(text, tag, i, Scan(text, tag, i))
    decreases |text| - i
  {
    if i + 3 + |tag| > |text| {
      ScanAtEnd(text, tag, i);
      assert forall p: nat :: i <= p ==> !OpeningAt(text, tag, p);
    } else if OpeningAt(text, tag, i) {
      match NextFence(text, i + 3 + |tag|)
      case None =>
        ScanAtUnclosed(text, tag, i);
        forall p: nat | i <= p ensures !MatchesAt(text, tag, p) {
          assert forall q: nat :: p + 3 + |tag| <= q ==> !FenceAt(text, q);
        }
      case Some(e) =>
        ScanIsLeftmost(text, tag, e + 3);
        LeftmostAtOpening(text, tag, i, e);
    } else {
      ScanIsLeftmost(text, tag, i + 1);
      LeftmostAtPlain(text, tag, i);
    }
  }

  /** The leftmost match at a closed opening, followed by those after it. */
  lemma LeftmostAtOpening(text: string, tag: string, i: nat, e: nat)
    requires OpeningAt(text, tag, i)
    requires NextFence(text, i + 3 + |tag|) == Some(e)
    requires LeftmostMatches(text, tag, e + 3, Scan(text, tag, e + 3))
    ensures LeftmostMatches(text, tag, i, Scan(text, tag, i))
  {
    var m, rest := Span(i, i + 3 + |tag|, e), Scan(text, tag, e + 3);
    ScanAtOpening(text, tag, i, e);
    assert ([m] + rest)[0] == m && ([m] + rest)[1..] == rest;
    assert IsMatch(text, tag, m);
  }

  /** Past a position where nothing opens, the leftmost matches are those from
      the next position. */
  lemma LeftmostAtPlain(text: string, tag: string, i: nat)
    requires !OpeningAt(text, tag, i)
    requires LeftmostMatches(text, tag, i + 1, Scan(text, tag, i + 1))
    ensures LeftmostMatches(text, tag, i, Scan(text, tag, i))
  {
    ScanAtPlain(text, tag, i);
    assert !MatchesAt(text, tag, i);
  }

  /** `findall` has only one possible answer. */
  lemma {:induction false} LeftmostUnique(text: string, tag: string, from: nat, ms1: seq<Span>, ms2: seq<Span>)
    requires LeftmostMatches(text, tag, from, ms1)
    requires LeftmostMatches(text, tag, from, ms2)
    ensures ms1 == ms2
    decreases |ms1|
  {
    if ms1 == [] && ms2 != [] {
      MatchIsMatchesAt(text, tag, ms2[0]);
    } else if ms1 != [] && ms2 == [] {
      MatchIsMatchesAt(text, tag, ms1[0]);
    } else if ms1 != [] {
      var m1, m2 := ms1[0], ms2[0];
      MatchIsMatchesAt(text, tag, m1);
      MatchIsMatchesAt(text, tag, m2);
      assert m1.start == m2.start;
      assert m1.bodyEnd == m2.bodyEnd;
      LeftmostUnique(text, tag, m1.End(), ms1[1..], ms2[1..]);
      assert ms1 == [m1] + ms1[1..] && ms2 == [m2] + ms2[1..];
    }
  }

  /** `findall` returns the captured groups of the matches `LeftmostMatches`
      describes, and of no others. */
  lemma FindAllIsLeftmost(text: string, tag: string, ms: seq<Span>)
    requires LeftmostMatches(text, tag, 0, ms)
    ensures FindAll(text, tag) == Bodies(text, ms)
  {
    ScanIsLeftmost(text, tag, 0);
    LeftmostUnique(text, tag, 0, Scan(text, tag, 0), ms);
  }

  /** `findall` comes back empty exactly when no opening is followed,
      anywhere later, by three backticks. */
  lemma FindAllEmptyIff(text: string, tag: string)
    ensures FindAll(text, tag) == [] <==> forall p: nat :: !MatchesAt(text, tag, p)
  {
    var ms := Scan(text, tag, 0);
    ScanIsLeftmost(text, tag, 0);
    if ms != [] {
      MatchIsMatchesAt(text, tag, ms[0]);
    }
  }

  // Scanning a text made of two parts.

  /** Where the search stands after the matches `ms`, found from `from`. */
  function ScanEnd(ms: seq<Span>, from: nat): nat {
    if ms == [] then from else ms[|ms| - 1].End()
  }

  function ShiftSpan(m: Span, d: nat): Span {
    Span(m.start + d, m.bodyStart + d, m.bodyEnd + d)
  }

  function Shift(ms: seq<Span>, d: nat): (r: seq<Span>)
    ensures |r| == |ms|
    ensures forall k :: 0 <= k < |ms| ==> r[k] == ShiftSpan(ms[k], d)
  {
    if ms == [] then [] else [ShiftSpan(ms[0], d)] + Shift(ms[1..], d)
  }

  /** Searching from `i`, nothing but plain text (no backtick) follows the
      last match, so no text appended later can complete a new opening. */
  predicate SettledFrom(text: string, tag: string, i: nat) {
    forall p: nat :: ScanEnd(Scan(text, tag, i), i) <= p < |text| ==> text[p] != '`'
  }

  /** `text` ends with plain text after its last block of this label. */
  predicate Settled(text: string, tag: string) {
    SettledFrom(text, tag, 0)
  }

  /** `t` begins with `a`. */
  predicate PrefixOf(a: string, t: string) {
    |a| <= |t| && forall k :: 0 <= k < |a| ==> t[k] == a[k]
  }

  lemma ConcatPrefix(a: string, b: string)
    ensures PrefixOf(a, a + b)
  {
  }

  lemma {:induction false} NextFencePrefix(a: string, t: string, from: nat)
    requires PrefixOf(a, t)
    requires NextFence(a, from).Some?
    ensures NextFence(t, from) == NextFence(a, from)
    decreases |a| - from
  {
    if from + 3 <= |a| {
      assert t[from] == a[from] && t[from + 1] == a[from + 1] && t[from + 2] == a[from + 2];
    }
    if !FenceAt(a, from) {
      NextFencePrefix(a, t, from + 1);
    }
  }

  /** `b` is what `t` holds from position `d` on. */
  predicate SuffixAt(t: string, d: nat, b: string) {
    d + |b| == |t| && forall k :: 0 <= k < |b| ==> t[d + k] == b[k]
  }

  lemma ConcatSuffix(a: string, b: string)
    ensures SuffixAt(a + b, |a|, b)
  {
  }

  lemma {:induction false} NextFenceShift(t: string, d: nat, b: string, from: nat)
    requires SuffixAt(t, d, b)
    ensures NextFence(b, from).None? ==> NextFence(t, d + from).None?
    ensures NextFence(b, from).Some? ==> NextFence(t, d + from) == Some(d + NextFence(b, from).value)
    decreases |b| - from
  {
    if from + 3 <= |b| {
      assert t[d + from] == b[from] && t[d + from + 1] == b[from + 1] && t[d + from + 2] == b[from + 2];
      if !FenceAt(b, from) {
        NextFenceShift(t, d, b, from + 1);
      }
    }
  }

  lemma OpeningAtShift(t: string, d: nat, b: string, tag: string, j: nat)
    requires SuffixAt(t, d, b)
    ensures OpeningAt(t, tag, d + j) == OpeningAt(b, tag, j)
  {
    if j + 3 + |tag| <= |b| {
      assert t[d + j] == b[j] && t[d + j + 1] == b[j + 1] && t[d + j + 2] == b[j + 2];
      var w, v := t[d + j + 3..d + j + 3 + |tag|], b[j + 3..j + 3 + |tag|];
      assert w == v by {
        forall k | 0 <= k < |tag| ensures w[k] == v[k] {
          assert w[k] == t[d + (j + 3 + k)];
        }
      }
    }
  }

  lemma OpeningAtPrefix(a: string, t: string, tag: string, i: nat)
    requires PrefixOf(a, t)
    requires i + 3 + |tag| <= |a|
    ensures OpeningAt(t, tag, i) == OpeningAt(a, tag, i)
  {
    assert t[i] == a[i] && t[i + 1] == a[i + 1] && t[i + 2] == a[i + 2];
    var w, v := t[i + 3..i + 3 + |tag|], a[i + 3..i + 3 + |tag|];
    assert w == v by {
      forall k | 0 <= k < |tag| ensures w[k] == v[k] {
        assert w[k] == t[i + 3 + k];
      }
    }
  }

  /** The scan at an opening that is closed at `e`. */
  lemma ScanAtOpening(text: string, tag: string, i: nat, e: nat)
    requires OpeningAt(text, tag, i)
    requires NextFence(text, i + 3 + |tag|) == Some(e)
    ensures Scan(text, tag, i) == [Span(i, i + 3 + |tag|, e)] + Scan(text, tag, e + 3)
  {
  }

  /** The scan ends where no opening fits any more. */
  lemma ScanAtEnd(text: string, tag: string, i: nat)
    requires i + 3 + |tag| > |text|
    ensures Scan(text, tag, i) == []
  {
  }

  /** The scan ends at an opening no fence closes. */
  lemma ScanAtUnclosed(text: string, tag: string, i: nat)
    requires OpeningAt(text, tag, i)
    requires NextFence(text, i + 3 + |tag|).None?
    ensures Scan(text, tag, i) == []
  {
  }

  /** The scan moves on by one where no opening starts. */
  lemma ScanAtPlain(text: string, tag: string, i: nat)
    requires !OpeningAt(text, tag, i)
    ensures Scan(text, tag, i) == Scan(text, tag, i + 1)
  {
  }

  lemma ShiftCons(m: Span, rest: seq<Span>, d: nat)
    ensures Shift([m] + rest, d) == [ShiftSpan(m, d)] + Shift(rest, d)
  {
    assert ([m] + rest)[1..] == rest;
  }

  /** Facts about one opening of the part from `d` on, seen in the whole text. */
  lemma OpeningShift(t: string, d: nat, b: string, tag: string, j: nat, e: nat)
    requires SuffixAt(t, d, b)
    requires OpeningAt(b, tag, j)
    requires NextFence(b, j + 3 + |tag|) == Some(e)
    ensures OpeningAt(t, tag, d + j)
    ensures NextFence(t, d + j + 3 + |tag|) == Some(d + e)
  {
    var f := j + 3 + |tag|;
    OpeningAtShift(t, d, b, tag, j);
    NextFenceShift(t, d, b, f);
    assert NextFence(t, d + f) == Some(d + e);
  }

  /** Moving a list that starts with `m` moves `m` and the rest. */
  lemma ShiftChain(x: seq<Span>, y: seq<Span>, s: seq<Span>, r: seq<Span>, m: Span, d: nat)
    requires x == [ShiftSpan(m, d)] + s
    requires y == [m] + r
    requires s == Shift(r, d)
    ensures x == Shift(y, d)
  {
    ShiftCons(m, r, d);
  }

  lemma ScanShiftOpening(t: string, d: nat, b: string, tag: string, j: nat, e: nat)
    requires OpeningAt(t, tag, d + j) && NextFence(t, d + j + 3 + |tag|) == Some(d + e)
    requires OpeningAt(b, tag, j) && NextFence(b, j + 3 + |tag|) == Some(e)
    requires Scan(t, tag, d + (e + 3)) == Shift(Scan(b, tag, e + 3), d)
    ensures Scan(t, tag, d + j) == Shift(Scan(b, tag, j), d)
  {
    var m := Span(j, j + 3 + |tag|, e);
    assert d + (e + 3) == d + e + 3;
    assert ShiftSpan(m, d) == Span(d + j, d + j + 3 + |tag|, d + e);
    ScanAtOpening(b, tag, j, e);
    ScanAtOpening(t, tag, d + j, d + e);
    ShiftChain(Scan(t, tag, d + j), Scan(b, tag, j), Scan(t, tag, d + e + 3), Scan(b, tag, e + 3), m, d);
  }

  /** Facts about an opening of the part from `d` on that nothing closes. */
  lemma UnclosedShift(t: string, d: nat, b: string, tag: string, j: nat)
    requires SuffixAt(t, d, b)
    requires OpeningAt(b, tag, j)
    requires NextFence(b, j + 3 + |tag|).None?
    ensures OpeningAt(t, tag, d + j)
    ensures NextFence(t, d + j + 3 + |tag|).None?
  {
    var f := j + 3 + |tag|;
    OpeningAtShift(t, d, b, tag, j);
    NextFenceShift(t, d, b, f);
    assert d + f == d + j + 3 + |tag|;
  }

  lemma ScanShiftPlain(t: string, d: nat, b: string, tag: string, j: nat)
    requires !OpeningAt(t, tag, d + j) && !OpeningAt(b, tag, j)
    requires Scan(t, tag, d + (j + 1)) == Shift(Scan(b, tag, j + 1), d)
    ensures Scan(t, tag, d + j) == Shift(Scan(b, tag, j), d)
  {
    assert d + (j + 1) == d + j + 1;
    ScanAtPlain(t, tag, d + j);
    ScanAtPlain(b, tag, j);
  }

  // The three steps of `ScanShift`, each seen from both texts.

  lemma ShiftOpeningStep(t: string, d: nat, b: string, tag: string, j: nat, e: nat)
    requires SuffixAt(t, d, b)
    requires OpeningAt(b, tag, j) && NextFence(b, j + 3 + |tag|) == Some(e)
    requires Scan(t, tag, d + (e + 3)) == Shift(Scan(b, tag, e + 3), d)
    ensures Scan(t, tag, d + j) == Shift(Scan(b, tag, j), d)
  {
    OpeningShift(t, d, b, tag, j, e);
    ScanShiftOpening(t, d, b, tag, j, e);
  }

  lemma ShiftUnclosedStep(t: string, d: nat, b: string, tag: string, j: nat)
    requires SuffixAt(t, d, b)
    requires OpeningAt(b, tag, j) && NextFence(b, j + 3 + |tag|).None?
    ensures Scan(t, tag, d + j) == [] && Scan(b, tag, j) == []
  {
    UnclosedShift(t, d, b, tag, j);
    ScanAtUnclosed(b, tag, j);
    ScanAtUnclosed(t, tag, d + j);
  }

  lemma ShiftPlainStep(t: string, d: nat, b: string, tag: string, j: nat)
    requires SuffixAt(t, d, b)
    requires !OpeningAt(b, tag, j)
    requires Scan(t, tag, d + (j + 1)) == Shift(Scan(b, tag, j + 1), d)
    ensures Scan(t, tag, d + j) == Shift(Scan(b, tag, j), d)
  {
    OpeningAtShift(t, d, b, tag, j);
    ScanShiftPlain(t, d, b, tag, j);
  }

  /** The matches in the part of a text from `d` on are those found in that
      part alone, moved by `d`. */
  lemma {:induction false} ScanShift(t: string, d: nat, b: string, tag: string, j: nat)
    requires SuffixAt(t, d, b)
    ensures Scan(t, tag, d + j) == Shift(Scan(b, tag, j), d)
    decreases |b| - j
  {
    var n := 3 + |tag|;
    if j + n > |b| {
      ScanAtEnd(b, tag, j);
      ScanAtEnd(t, tag, d + j);
    } else if !OpeningAt(b, tag, j) {
      ScanShift(t, d, b, tag, j + 1);
      ShiftPlainStep(t, d, b, tag, j);
    } else if NextFence(b, j + n).None? {
      ShiftUnclosedStep(t, d, b, tag, j);
    } else {
      var e := NextFence(b, j + n).value;
      ScanShift(t, d, b, tag, e + 3);
      ShiftOpeningStep(t, d, b, tag, j, e);
    }
  }

  /** Positions where no opening starts are passed over. */
  lemma {:induction false} ScanSkip(text: string, tag: string, i: nat, j: nat)
    requires i <= j <= |text|
    requires forall p: nat :: i <= p < j ==> !OpeningAt(text, tag, p)
    ensures Scan(text, tag, i) == Scan(text, tag, j)
    decreases j - i
  {
    if i < j && i + 3 + |tag| <= |text| {
      ScanSkip(text, tag, i + 1, j);
    }
  }

  /** Past plain text, scanning the whole text is scanning the second part. */
  lemma ScanPlainThenRest(a: string, b: string, tag: string, i: nat)
    requires i <= |a|
    requires forall p: nat :: i <= p < |a| ==> a[p] != '`'
    ensures Scan(a + b, tag, i) == Shift(Scan(b, tag, 0), |a|)
  {
    var t := a + b;
    forall p: nat | i <= p < |a| ensures !OpeningAt(t, tag, p) {
      assert t[p] == a[p];
    }
    ScanSkip(t, tag, i, |a|);
    ConcatSuffix(a, b);
    ScanShift(t, |a|, b, tag, 0);
  }

  lemma ScanEndCons(m: Span, rest: seq<Span>, from: nat)
    ensures ScanEnd([m] + rest, from) == ScanEnd(rest, m.End())
  {
    if rest != [] {
      assert ([m] + rest)[|rest|] == rest[|rest| - 1];
    }
  }

  /** In a settled text, every opening the scan reaches is closed. */
  lemma SettledOpeningCloses(a: string, tag: string, i: nat)
    requires SettledFrom(a, tag, i)
    requires OpeningAt(a, tag, i)
    ensures NextFence(a, i + 3 + |tag|).Some?
  {
  }

  /** An opening of the first part, closed inside it, is one of the whole. */
  lemma OpeningPrefix(a: string, t: string, tag: string, i: nat, e: nat)
    requires PrefixOf(a, t)
    requires OpeningAt(a, tag, i)
    requires NextFence(a, i + 3 + |tag|) == Some(e)
    ensures OpeningAt(t, tag, i)
    ensures NextFence(t, i + 3 + |tag|) == Some(e)
  {
    OpeningAtPrefix(a, t, tag, i);
    NextFencePrefix(a, t, i + 3 + |tag|);
  }

  lemma ScanConcatOpening(a: string, t: string, tag: string, i: nat, e: nat, tail: seq<Span>)
    requires PrefixOf(a, t)
    requires OpeningAt(a, tag, i)
    requires NextFence(a, i + 3 + |tag|) == Some(e)
    requires Scan(t, tag, e + 3) == Scan(a, tag, e + 3) + tail
    ensures Scan(t, tag, i) == Scan(a, tag, i) + tail
  {
    var m, rest := Span(i, i + 3 + |tag|, e), Scan(a, tag, e + 3);
    OpeningPrefix(a, t, tag, i, e);
    ScanAtOpening(t, tag, i, e);
    ScanAtOpening(a, tag, i, e);
    assert [m] + (rest + tail) == ([m] + rest) + tail;
  }

  // The steps of `ScanConcatFrom`.

  lemma SettledStepPlain(a: string, tag: string, i: nat)
    requires SettledFrom(a, tag, i)
    requires !OpeningAt(a, tag, i)
    ensures SettledFrom(a, tag, i + 1)
  {
    ScanAtPlain(a, tag, i);
  }

  lemma SettledStepOpening(a: string, tag: string, i: nat, e: nat)
    requires SettledFrom(a, tag, i)
    requires OpeningAt(a, tag, i) && NextFence(a, i + 3 + |tag|) == Some(e)
    ensures e + 3 <= |a| && SettledFrom(a, tag, e + 3)
  {
    ScanAtOpening(a, tag, i, e);
    ScanEndCons(Span(i, i + 3 + |tag|, e), Scan(a, tag, e + 3), i);
  }

  lemma ConcatPlainStep(a: string, b: string, tag: string, i: nat, tail: seq<Span>)
    requires i + 3 + |tag| <= |a|
    requires !OpeningAt(a, tag, i)
    requires Scan(a + b, tag, i + 1) == Scan(a, tag, i + 1) + tail
    ensures Scan(a + b, tag, i) == Scan(a, tag, i) + tail
  {
    ConcatPrefix(a, b);
    OpeningAtPrefix(a, a + b, tag, i);
    ScanAtPlain(a, tag, i);
    ScanAtPlain(a + b, tag, i);
  }

  lemma ConcatOpeningStep(a: string, b: string, tag: string, i: nat, e: nat, tail: seq<Span>)
    requires OpeningAt(a, tag, i) && NextFence(a, i + 3 + |tag|) == Some(e)
    requires Scan(a + b, tag, e + 3) == Scan(a, tag, e + 3) + tail
    ensures Scan(a + b, tag, i) == Scan(a, tag, i) + tail
  {
    ConcatPrefix(a, b);
    ScanConcatOpening(a, a + b, tag, i, e, tail);
  }

  lemma {:induction false} ScanConcatFrom(a: string, b: string, tag: string, i: nat)
    requires i <= |a|
    requires SettledFrom(a, tag, i)
    ensures Scan(a + b, tag, i) == Scan(a, tag, i) + Shift(Scan(b, tag, 0), |a|)
    decreases |a| - i
  {
    var n, tail := 3 + |tag|, Shift(Scan(b, tag, 0), |a|);
    if i + n > |a| {
      ScanPlainThenRest(a, b, tag, i);
    } else if !OpeningAt(a, tag, i) {
      SettledStepPlain(a, tag, i);
      ScanConcatFrom(a, b, tag, i + 1);
      ConcatPlainStep(a, b, tag, i, tail);
    } else {
      SettledOpeningCloses(a, tag, i);
      var e := NextFence(a, i + n).value;
      SettledStepOpening(a, tag, i, e);
      ScanConcatFrom(a, b, tag, e + 3);
      ConcatOpeningStep(a, b, tag, i, e, tail);
    }
  }

  lemma BodiesConcat(text: string, x: seq<Span>, y: seq<Span>)
    ensures Bodies(text, x + y) == Bodies(text, x) + Bodies(text, y)
  {
    assert forall k :: 0 <= k < |y| ==> (x + y)[|x| + k] == y[k];
  }

  /** Spans that lie in the first part have the same bodies in the whole. */
  lemma BodyPrefix(a: string, b: string, m: Span)
    requires m.bodyStart <= m.bodyEnd <= |a|
    ensures Body(a + b, m) == Body(a, m)
  {
    var t, x, y := a + b, m.bodyStart, m.bodyEnd;
    assert t[x..y] == a[x..y] by {
      forall k | 0 <= k < y - x ensures t[x..y][k] == a[x..y][k] {
        assert t[x + k] == a[x + k];
      }
    }
  }

  lemma {:induction false} BodiesPrefix(a: string, b: string, ms: seq<Span>)
    requires forall k :: 0 <= k < |ms| ==> ms[k].bodyStart <= ms[k].bodyEnd <= |a|
    ensures Bodies(a + b, ms) == Bodies(a, ms)
  {
    forall k | 0 <= k < |ms| ensures Bodies(a + b, ms)[k] == Bodies(a, ms)[k] {
      BodyPrefix(a, b, ms[k]);
    }
  }

  /** Spans of the second part, moved, have the same bodies in the whole. */
  lemma BodyShift(a: string, b: string, m: Span)
    requires m.bodyStart <= m.bodyEnd <= |b|
    ensures Body(a + b, ShiftSpan(m, |a|)) == Body(b, m)
  {
    var t, x, y := a + b, m.bodyStart, m.bodyEnd;
    assert t[|a| + x..|a| + y] == b[x..y] by {
      forall k | 0 <= k < y - x ensures t[|a| + x..|a| + y][k] == b[x..y][k] {
        assert t[|a| + x + k] == b[x + k];
      }
    }
  }

  lemma {:induction false} BodiesShift(a: string, b: string, ms: seq<Span>)
    requires forall k :: 0 <= k < |ms| ==> ms[k].bodyStart <= ms[k].bodyEnd <= |b|
    ensures Bodies(a + b, Shift(ms, |a|)) == Bodies(b, ms)
  {
    var sb := Shift(ms, |a|);
    forall k | 0 <= k < |ms| ensures Bodies(a + b, sb)[k] == Bodies(b, ms)[k] {
      BodyShift(a, b, ms[k]);
    }
  }

  /** The spans the scan reports lie inside the text. */
  lemma ScanInside(text: string, tag: string)
    ensures forall k :: 0 <= k < |Scan(text, tag, 0)| ==>
      Scan(text, tag, 0)[k].bodyStart <= Scan(text, tag, 0)[k].bodyEnd <= |text|
  {
    ScanIsLeftmost(text, tag, 0);
    LeftmostSound(text, tag, 0, Scan(text, tag, 0));
  }

  /** Appending text to a settled text keeps its matches and adds those of
      the appended part, in order. */
  lemma FindAllConcat(a: string, b: string, tag: string)
    requires Settled(a, tag)
    ensures FindAll(a + b, tag) == FindAll(a, tag) + FindAll(b, tag)
  {
    var ma, mb := Scan(a, tag, 0), Scan(b, tag, 0);
    ScanInside(a, tag);
    ScanInside(b, tag);
    ScanConcatFrom(a, b, tag, 0);
    BodiesConcat(a + b, ma, Shift(mb, |a|));
    BodiesPrefix(a, b, ma);
    BodiesShift(a, b, mb);
  }

  // One fenced block on its own.

  /** A body its closing fence closes: no three backticks start inside it,
      not even ones the closing fence would complete. */
  predicate Closable(body: string) {
    forall q: nat :: q < |body| ==> !FenceAt(body + Fence, q)
  }

  /** "```" + written + body + "```", `written` being the label as it appears. */
  function Block(written: string, body: string): string {
    (Fence + written) + (body + Fence)
  }

  /** The first fence from `from` on is the one at `j` when none comes before it. */
  lemma NextFenceAt(text: string, from: nat, j: nat)
    requires from <= j && FenceAt(text, j)
    requires forall q: nat :: from <= q < j ==> !FenceAt(text, q)
    ensures NextFence(text, from) == Some(j)
  {
  }

  /** The first fence of the part from `d` on is the first fence from `d`. */
  lemma NextFenceAfter(t: string, d: nat, b: string, j: nat)
    requires SuffixAt(t, d, b)
    requires FenceAt(b, j)
    requires forall q: nat :: q < j ==> !FenceAt(b, q)
    ensures NextFence(t, d) == Some(d + j)
  {
    NextFenceAt(b, 0, j);
    NextFenceShift(t, d, b, 0);
  }

  /** A single block `t` opens at its start ... */
  lemma BlockOpens(t: string, written: string, tag: string, body: string)
    requires t == Block(written, body)
    requires EqualIgnoringCase(written, tag)
    ensures OpeningAt(t, tag, 0)
  {
    assert t[0] == '`' && t[1] == '`' && t[2] == '`';
    assert t[3..3 + |tag|] == written;
  }

  /** ... its closing fence is the first one after the label ... */
  lemma BlockCloses(t: string, written: string, body: string)
    requires t == Block(written, body)
    requires Closable(body)
    ensures NextFence(t, 3 + |written|) == Some(3 + |written| + |body|)
  {
    var head, tail := Fence + written, body + Fence;
    assert t == head + tail;
    ConcatSuffix(head, tail);
    assert FenceAt(tail, |body|);
    NextFenceAfter(t, |head|, tail, |body|);
  }

  /** ... its body lies between the label and the closing fence ... */
  lemma BlockShape(t: string, written: string, body: string)
    requires t == Block(written, body)
    ensures |t| == 3 + |written| + |body| + 3
    ensures Body(t, Span(0, 3 + |written|, 3 + |written| + |body|)) == body
  {
    var n := 3 + |written|;
    assert t[n..n + |body|] == body;
  }

  /** ... and it is its only match. */
  lemma BlockScan(t: string, written: string, tag: string, body: string)
    requires t == Block(written, body)
    requires EqualIgnoringCase(written, tag)
    requires Closable(body)
    ensures Scan(t, tag, 0) == [Span(0, 3 + |written|, 3 + |written| + |body|)]
  {
    var n := 3 + |written|;
    assert n == 3 + |tag|;
    BlockOpens(t, written, tag, body);
    BlockCloses(t, written, body);
    ScanAtOpening(t, tag, 0, n + |body|);
    BlockShape(t, written, body);
    ScanAtEnd(t, tag, n + |body| + 3);
  }

  /** A single block whose label is TAG in any letter case yields exactly its
      body, however short ("```html```" yields the empty string), and leaves
      the text settled. */
  lemma BlockAlone(written: string, tag: string, body: string)
    requires EqualIgnoringCase(written, tag)
    requires Closable(body)
    ensures FindAll(Block(written, body), tag) == [body]
    ensures Settled(Block(written, body), tag)
  {
    var t := Block(written, body);
    BlockScan(t, written, tag, body);
    BlockShape(t, written, body);
  }

  // Letter case.

  lemma BacktickFolds(c: char)
    ensures ToLower(c) == '`' <==> c == '`'
  {
  }

  lemma FenceAtIgnoresCase(t1: string, t2: string, p: nat)
    requires EqualIgnoringCase(t1, t2)
    ensures FenceAt(t1, p) == FenceAt(t2, p)
  {
    if p + 3 <= |t1| {
      forall k | p <= k < p + 3 ensures t1[k] == '`' <==> t2[k] == '`' {
        BacktickFolds(t1[k]);
        BacktickFolds(t2[k]);
      }
    }
  }

  lemma OpeningAtIgnoresCase(t1: string, t2: string, tag: string, p: nat)
    requires EqualIgnoringCase(t1, t2)
    ensures OpeningAt(t1, tag, p) == OpeningAt(t2, tag, p)
  {
    FenceAtIgnoresCase(t1, t2, p);
    if p + 3 + |tag| <= |t1| {
      var w1, w2 := t1[p + 3..p + 3 + |tag|], t2[p + 3..p + 3 + |tag|];
      assert forall k :: 0 <= k < |tag| ==> ToLower(w1[k]) == ToLower(w2[k]) by {
        forall k | 0 <= k < |tag| ensures ToLower(w1[k]) == ToLower(w2[k]) {
          assert w1[k] == t1[p + 3 + k] && w2[k] == t2[p + 3 + k];
        }
      }
    }
  }

  lemma {:induction false} NextFenceIgnoresCase(t1: string, t2: string, from: nat)
    requires EqualIgnoringCase(t1, t2)
    ensures NextFence(t1, from) == NextFence(t2, from)
    decreases |t1| - from
  {
    if from + 3 <= |t1| {
      FenceAtIgnoresCase(t1, t2, from);
      NextFenceIgnoresCase(t1, t2, from + 1);
    }
  }

  /** Two texts that agree on an opening and its closing fence, and on the
      matches after it, agree on the matches from the opening. */
  lemma ScanSameOpening(t1: string, t2: string, tag: string, i: nat, e: nat)
    requires OpeningAt(t1, tag, i) && OpeningAt(t2, tag, i)
    requires NextFence(t1, i + 3 + |tag|) == Some(e) && NextFence(t2, i + 3 + |tag|) == Some(e)
    requires Scan(t1, tag, e + 3) == Scan(t2, tag, e + 3)
    ensures Scan(t1, tag, i) == Scan(t2, tag, i)
  {
    ScanAtOpening(t1, tag, i, e);
    ScanAtOpening(t2, tag, i, e);
  }

  /** Two texts with no opening at `i`, that agree on the matches from the
      next position, agree on the matches from `i`. */
  lemma ScanSamePlain(t1: string, t2: string, tag: string, i: nat)
    requires !OpeningAt(t1, tag, i) && !OpeningAt(t2, tag, i)
    requires Scan(t1, tag, i + 1) == Scan(t2, tag, i + 1)
    ensures Scan(t1, tag, i) == Scan(t2, tag, i)
  {
    ScanAtPlain(t1, tag, i);
    ScanAtPlain(t2, tag, i);
  }

  /** Where the blocks lie depends on the text only up to letter case: the
      label is compared case-insensitively, and backticks have no case. */
  lemma {:induction false} ScanIgnoresCase(t1: string, t2: string, tag: string, i: nat)
    requires EqualIgnoringCase(t1, t2)
    ensures Scan(t1, tag, i) == Scan(t2, tag, i)
    decreases |t1| - i
  {
    var n := 3 + |tag|;
    if i + n > |t1| {
      ScanAtEnd(t1, tag, i);
      ScanAtEnd(t2, tag, i);
    } else {
      OpeningAtIgnoresCase(t1, t2, tag, i);
      NextFenceIgnoresCase(t1, t2, i + n);
      if !OpeningAt(t1, tag, i) {
        ScanIgnoresCase(t1, t2, tag, i + 1);
        ScanSamePlain(t1, t2, tag, i);
      } else if NextFence(t1, i + n).None? {
        ScanAtUnclosed(t1, tag, i);
        ScanAtUnclosed(t2, tag, i);
      } else {
        var e := NextFence(t1, i + n).value;
        ScanIgnoresCase(t1, t2, tag, e + 3);
        ScanSameOpening(t1, t2, tag, i, e);
      }
    }
  }
}
