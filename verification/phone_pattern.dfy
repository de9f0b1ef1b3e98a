/** The phone-number pattern of index.js:10,

      /(63|0*9)\s*(\d{3,4})\s*(\d{3,4})\s*(\d{3,4})/gmi

    and String.prototype.match with it. The flags `i` and `m` change nothing
    (the pattern has no letters and no anchors); `g` makes `match` return
    every leftmost, non-overlapping match, or null when there is none.

    The pattern is given twice: as a language (IsPhone, on the matched text
    itself) and as the list of end positions a backtracking matcher reaches
    from a start position, in the order it tries them (MatchEnds). The two
    are proved to agree; the match reported at a start position is the first
    end in that order. */
module PhonePattern {
  import opened Seqs

  predicate IsDigit(c: char) { '0' <= c <= '9' }

  predicate IsZero(c: char) { c == '0' }

  /** JavaScript's `\s`: the WhiteSpace and LineTerminator code points. */
  predicate IsSpace(c: char) {
    c == '\t' || c == '\n' || c == '\U{B}' || c == '\U{C}' || c == '\r' || c == ' '
    || c == '\U{A0}' || c == '\U{1680}' || ('\U{2000}' <= c <= '\U{200A}')
    || c == '\U{2028}' || c == '\U{2029}' || c == '\U{202F}' || c == '\U{205F}'
    || c == '\U{3000}' || c == '\U{FEFF}'
  }

  // ---------------------------------------------------------------------
  // The language of the pattern

  /** `(63|0*9)` */
  predicate IsLeadingPrefix(u: string) {
    u == "63" || (|u| >= 1 && u[|u| - 1] == '9' && forall k | 0 <= k < |u| - 1 :: IsZero(u[k]))
  }

  /** `\s*` */
  predicate AllSpace(u: string) { forall k | 0 <= k < |u| :: IsSpace(u[k]) }

  /** `\d{3,4}` */
  predicate IsDigitGroup(u: string) { 3 <= |u| <= 4 && forall k | 0 <= k < |u| :: IsDigit(u[k]) }

  /** `\s*\d{3,4}` */
  ghost predicate IsStep(u: string) {
    exists a: nat | a <= |u| :: AllSpace(u[..a]) && IsDigitGroup(u[a..])
  }

  /** `s[lo..hi]` is a match of the pattern: the prefix and three steps. */
  ghost predicate IsMatchAt(s: string, lo: nat, hi: nat) {
    exists a: nat, b: nat, c: nat :: IsMatchSplit(s, lo, a, b, c, hi)
  }

  /** The match `s[lo..hi]` read off the positions where its parts end. */
  ghost predicate IsMatchSplit(s: string, lo: nat, a: nat, b: nat, c: nat, hi: nat) {
    lo <= a <= b <= c <= hi <= |s| && IsLeadingPrefix(s[lo..a])
    && IsStep(s[a..b]) && IsStep(s[b..c]) && IsStep(s[c..hi])
  }

  /** The whole text `u` is a match of the pattern. */
  ghost predicate IsPhone(u: string) {
    IsMatchAt(u, 0, |u|)
  }

  lemma StepLength(u: string)
    requires IsStep(u)
    ensures |u| >= 3
  {
    var a: nat :| a <= |u| && AllSpace(u[..a]) && IsDigitGroup(u[a..]);
  }

  /** The shortest match is a single `9` and three groups of three digits. */
  lemma MatchLength(s: string, lo: nat, hi: nat)
    requires IsMatchAt(s, lo, hi)
    ensures hi - lo >= 10
  {
    var a: nat, b: nat, c: nat :| IsMatchSplit(s, lo, a, b, c, hi);
    StepLength(s[a..b]);
    StepLength(s[b..c]);
    StepLength(s[c..hi]);
  }

  /** Positions `p..q` of the slice `s[lo..hi]` are positions `x..y` of `s`. */
  lemma SliceOfSlice(s: string, lo: nat, hi: nat, p: nat, q: nat, x: nat, y: nat)
    requires lo <= hi <= |s| && p <= q <= hi - lo && x == lo + p && y == lo + q
    ensures s[lo..hi][p..q] == s[x..y]
  {
    assert forall k | 0 <= k < q - p :: s[lo..hi][p..q][k] == s[x + k];
  }

  /** A text cut into a leading prefix and three steps is a match. */
  lemma MatchSplitOfParts(u: string, a: nat, b: nat, c: nat, p0: string, p1: string, p2: string, p3: string)
    requires a <= b <= c <= |u|
    requires u[0..a] == p0 && u[a..b] == p1 && u[b..c] == p2 && u[c..|u|] == p3
    requires IsLeadingPrefix(p0) && IsStep(p1) && IsStep(p2) && IsStep(p3)
    ensures IsMatchSplit(u, 0, a, b, c, |u|)
  {
  }

  /** A match, cut out of its text, is a phone number on its own. */
  lemma PhoneOfMatch(s: string, lo: nat, hi: nat)
    requires IsMatchAt(s, lo, hi)
    ensures IsPhone(s[lo..hi])
  {
    var a: nat, b: nat, c: nat :| IsMatchSplit(s, lo, a, b, c, hi);
    var u := s[lo..hi];
    var a0, b0, c0 := a - lo, b - lo, c - lo;
    SliceOfSlice(s, lo, hi, 0, a0, lo, a);
    SliceOfSlice(s, lo, hi, a0, b0, a, b);
    SliceOfSlice(s, lo, hi, b0, c0, b, c);
    SliceOfSlice(s, lo, hi, c0, |u|, c, hi);
    MatchSplitOfParts(u, a0, b0, c0, s[lo..a], s[a..b], s[b..c], s[c..hi]);
  }

  // ---------------------------------------------------------------------
  // The backtracking matcher

  /** Length of the longest run of characters satisfying `p` from `i`: how
      far a greedy `*` reaches before it starts giving characters back. */
  function RunLength(s: string, i: nat, p: char -> bool): (n: nat)
    requires i <= |s|
    ensures i + n <= |s|
    ensures forall k | i <= k < i + n :: p(s[k])
    ensures i + n < |s| ==> !p(s[i + n])
    decreases |s| - i
  {
    if i < |s| && p(s[i]) then 1 + RunLength(s, i + 1, p) else 0
  }

  /** Ends of `\s*` from `i`, longest first. */
  function SpaceEnds(s: string, i: nat): seq<nat> {
    if i <= |s| then Countdown(i + RunLength(s, i, IsSpace), i) else []
  }

  /** Ends of `\d{3,4}` from `i`: four digits before three. */
  function GroupEnds(s: string, i: nat): seq<nat> {
    if i + 4 <= |s| && IsDigitGroup(s[i..i + 4]) then [i + 4, i + 3]
    else if i + 3 <= |s| && IsDigitGroup(s[i..i + 3]) then [i + 3]
    else []
  }

  /** Ends of `9` from `k`. */
  function NineEnds(s: string, k: nat): seq<nat> {
    if k < |s| && s[k] == '9' then [k + 1] else []
  }

  function NineEndsIn(s: string): nat -> seq<nat> { k => NineEnds(s, k) }

  /** Ends of `63|0*9` from `i`: the first alternative, then the second with
      `0*` trying the longest run of zeros first. */
  function PrefixEnds(s: string, i: nat): seq<nat> {
    if i <= |s| then
      (if i + 2 <= |s| && s[i..i + 2] == "63" then [i + 2] else [])
      + FlatMap(Countdown(i + RunLength(s, i, IsZero), i), NineEndsIn(s))
    else []
  }

  /** Ends of `\s*\d{3,4}` from `i`. */
  function StepEnds(s: string, i: nat): seq<nat> {
    FlatMap(SpaceEnds(s, i), GroupEndsIn(s))
  }

  function GroupEndsIn(s: string): nat -> seq<nat> { j => GroupEnds(s, j) }

  function StepEndsIn(s: string): nat -> seq<nat> { j => StepEnds(s, j) }

  /** Ends of `(63|0*9)\s*\d{3,4}` from `i`. */
  function OneGroupEnds(s: string, i: nat): seq<nat> {
    FlatMap(PrefixEnds(s, i), StepEndsIn(s))
  }

  /** Ends of `(63|0*9)(\s*\d{3,4}){2}` from `i`. */
  function TwoGroupEnds(s: string, i: nat): seq<nat> {
    FlatMap(OneGroupEnds(s, i), StepEndsIn(s))
  }

  /** Ends of the whole pattern from `i`, in the order they are tried: for
      each end of the prefix in its order, each end of the first step from
      there in its order, and so on (FlatMap is associative, so nesting to
      the left lists the same ends in the same order). */
  function MatchEnds(s: string, i: nat): seq<nat> {
    FlatMap(TwoGroupEnds(s, i), StepEndsIn(s))
  }

  // ---------------------------------------------------------------------
  // The matcher enumerates exactly the language

  lemma SpaceEndsSpec(s: string, i: nat, x: nat)
    requires i <= |s|
    ensures x in SpaceEnds(s, i) <==> i <= x <= |s| && AllSpace(s[i..x])
  {
    var n := RunLength(s, i, IsSpace);
    assert x in SpaceEnds(s, i) <==> i <= x <= i + n;
    if i <= x <= i + n {
      assert forall k | 0 <= k < x - i :: s[i..x][k] == s[i + k];
    }
    if i + n < x <= |s| {
      assert s[i..x][n] == s[i + n];
    }
  }

  lemma GroupEndsSpec(s: string, i: nat, x: nat)
    ensures x in GroupEnds(s, i) <==> i <= x <= |s| && IsDigitGroup(s[i..x])
  {
    if i + 4 <= |s| && IsDigitGroup(s[i..i + 4]) {
      assert s[i..i + 3] == s[i..i + 4][..3];
    }
  }

  /** Zeros from `i` up to a '9' at `k` spell `0*9`. */
  lemma ZerosThenNine(s: string, i: nat, k: nat)
    requires i <= k < |s| && s[k] == '9'
    requires forall j | i <= j < k :: IsZero(s[j])
    ensures IsLeadingPrefix(s[i..k + 1])
  {
    var u := s[i..k + 1];
    assert u[|u| - 1] == s[k];
    forall j | 0 <= j < |u| - 1
      ensures IsZero(u[j])
    {
      assert u[j] == s[i + j];
    }
  }

  lemma PrefixEndsSound(s: string, i: nat, x: nat)
    requires i <= |s| && x in PrefixEnds(s, i)
    ensures i <= x <= |s| && IsLeadingPrefix(s[i..x])
  {
    var z := RunLength(s, i, IsZero);
    var nines := FlatMap(Countdown(i + z, i), NineEndsIn(s));
    var sixThree := if i + 2 <= |s| && s[i..i + 2] == "63" then [i + 2] else [];
    assert PrefixEnds(s, i) == sixThree + nines;
    if x in nines {
      NinesSound(s, i, z, x);
    } else {
      SixThreeSound(s, i, x);
    }
  }

  /** The end of the alternative "63" closes "63". */
  lemma SixThreeSound(s: string, i: nat, x: nat)
    requires x in (if i + 2 <= |s| && s[i..i + 2] == "63" then [i + 2] else [])
    ensures i <= x <= |s| && IsLeadingPrefix(s[i..x])
  {
  }

  /** The ends of `0*9` are sound: each closes zeros followed by a '9'. */
  lemma NinesSound(s: string, i: nat, z: nat, x: nat)
    requires i + z <= |s| && forall j | i <= j < i + z :: IsZero(s[j])
    requires x in FlatMap(Countdown(i + z, i), NineEndsIn(s))
    ensures i <= x <= |s| && IsLeadingPrefix(s[i..x])
  {
    FlatMapMember(Countdown(i + z, i), NineEndsIn(s), x);
    var k :| k in Countdown(i + z, i) && x in NineEndsIn(s)(k);
    assert NineEndsIn(s)(k) == NineEnds(s, k);
    ZerosThenNine(s, i, k);
  }

  lemma PrefixEndsComplete(s: string, i: nat, x: nat)
    requires i <= x <= |s| && IsLeadingPrefix(s[i..x])
    ensures x in PrefixEnds(s, i)
  {
    var z := RunLength(s, i, IsZero);
    if s[i..x] != "63" {
      var k := x - 1;
      assert s[i..x][k - i] == s[k];
      assert k in Countdown(i + z, i) && x in NineEndsIn(s)(k);
      FlatMapMember(Countdown(i + z, i), NineEndsIn(s), x);
    }
  }

  lemma StepEndsSound(s: string, i: nat, x: nat)
    requires x in StepEnds(s, i)
    ensures i <= x <= |s| && IsStep(s[i..x])
  {
    FlatMapMember(SpaceEnds(s, i), GroupEndsIn(s), x);
    var m :| m in SpaceEnds(s, i) && x in GroupEndsIn(s)(m);
    SpaceEndsSpec(s, i, m);
    GroupEndsSpec(s, m, x);
    SplitSlice(s, i, x, m - i);
    assert AllSpace(s[i..x][..m - i]) && IsDigitGroup(s[i..x][m - i..]);
  }

  /** Splitting the slice `s[i..x]` at offset `a`. */
  lemma SplitSlice(s: string, i: nat, x: nat, a: nat)
    requires i <= x <= |s| && a <= x - i
    ensures s[i..x][..a] == s[i..i + a] && s[i..x][a..] == s[i + a..x]
  {
  }

  lemma StepEndsComplete(s: string, i: nat, x: nat)
    requires i <= x <= |s| && IsStep(s[i..x])
    ensures x in StepEnds(s, i)
  {
    var u := s[i..x];
    var a: nat :| a <= |u| && AllSpace(u[..a]) && IsDigitGroup(u[a..]);
    SplitSlice(s, i, x, a);
    SpaceEndsSpec(s, i, i + a);
    GroupEndsSpec(s, i + a, x);
    assert i + a in SpaceEnds(s, i) && x in GroupEndsIn(s)(i + a);
    FlatMapMember(SpaceEnds(s, i), GroupEndsIn(s), x);
  }

  /** One more step after any of the positions `xs`. */
  lemma ThenStepSound(s: string, xs: seq<nat>, x: nat)
    requires x in FlatMap(xs, StepEndsIn(s))
    ensures exists m :: m in xs && m <= x <= |s| && IsStep(s[m..x])
  {
    FlatMapMember(xs, StepEndsIn(s), x);
    var m :| m in xs && x in StepEndsIn(s)(m);
    StepEndsSound(s, m, x);
  }

  lemma ThenStepComplete(s: string, xs: seq<nat>, m: nat, x: nat)
    requires m in xs && m <= x <= |s| && IsStep(s[m..x])
    ensures x in FlatMap(xs, StepEndsIn(s))
  {
    StepEndsComplete(s, m, x);
    assert x in StepEndsIn(s)(m);
    FlatMapMember(xs, StepEndsIn(s), x);
  }

  /** Every end the matcher reaches from `i` closes a match of the pattern. */
  lemma MatchEndsSound(s: string, i: nat, x: nat)
    requires x in MatchEnds(s, i)
    ensures IsMatchAt(s, i, x)
  {
    ThenStepSound(s, TwoGroupEnds(s, i), x);
    var c :| c in TwoGroupEnds(s, i) && c <= x <= |s| && IsStep(s[c..x]);
    ThenStepSound(s, OneGroupEnds(s, i), c);
    var b :| b in OneGroupEnds(s, i) && b <= c <= |s| && IsStep(s[b..c]);
    ThenStepSound(s, PrefixEnds(s, i), b);
    var a :| a in PrefixEnds(s, i) && a <= b <= |s| && IsStep(s[a..b]);
    assert i <= |s|;
    PrefixEndsSound(s, i, a);
    assert IsMatchSplit(s, i, a, b, c, x);
  }

  /** Every match of the pattern that starts at `i` is among the ends the
      matcher tries from `i`. */
  lemma MatchEndsComplete(s: string, i: nat, x: nat)
    requires IsMatchAt(s, i, x)
    ensures x in MatchEnds(s, i)
  {
    var a: nat, b: nat, c: nat :| IsMatchSplit(s, i, a, b, c, x);
    PrefixEndsComplete(s, i, a);
    ThenStepComplete(s, PrefixEnds(s, i), a, b);
    ThenStepComplete(s, OneGroupEnds(s, i), b, c);
    ThenStepComplete(s, TwoGroupEnds(s, i), c, x);
  }

  lemma NoMatchAt(s: string, i: nat)
    requires MatchEnds(s, i) == []
    ensures forall e :: !IsMatchAt(s, i, e)
  {
    forall e ensures !IsMatchAt(s, i, e) {
      if IsMatchAt(s, i, e) {
        MatchEndsComplete(s, i, e);
      }
    }
  }

  // ---------------------------------------------------------------------
  // String.prototype.match with the global flag

  /** A match occupies `s[lo..hi]`. */
  datatype Span = Span(lo: nat, hi: nat)

  /** The end of the match reported at start position `i`, if any: the
      first end the matcher reaches. */
  function MatchEndAt(s: string, i: nat): (x: Option<nat>)
    ensures x.Some? ==> IsMatchAt(s, i, x.value)
    ensures x.None? <==> forall e :: !IsMatchAt(s, i, e)
  {
    var ends := MatchEnds(s, i);
    if ends != [] then
      MatchEndsSound(s, i, ends[0]);
      Some(ends[0])
    else
      NoMatchAt(s, i);
      None
  }

  // ---------------------------------------------------------------------
  // Which end the reported match takes

  /** `\s*` is forced: it takes the whole run of spaces, because the digit
      group after it cannot start on a space. So from `m` the ends of a step
      are those of the digit group after the run. */
  lemma StepEndsForced(s: string, m: nat)
    requires m <= |s|
    ensures StepEnds(s, m) == GroupEnds(s, m + RunLength(s, m, IsSpace))
  {
    NoGroupInsideRun(s, m);
    FlatMapHeadOnly(SpaceEnds(s, m), GroupEndsIn(s));
  }

  /** Of the ends of `\s*` from `m`, only the first, after the whole run,
      can start a digit group. */
  lemma NoGroupInsideRun(s: string, m: nat)
    requires m <= |s|
    ensures SpaceEnds(s, m) != [] && SpaceEnds(s, m)[0] == m + RunLength(s, m, IsSpace)
    ensures forall x | x in SpaceEnds(s, m)[1..] :: GroupEndsIn(s)(x) == []
  {
    var j := m + RunLength(s, m, IsSpace);
    CountdownTail(j, m);
    forall x | x in SpaceEnds(s, m)[1..]
      ensures GroupEndsIn(s)(x) == []
    {
      NoGroupAtSpace(s, x);
    }
  }

  lemma NoGroupAtSpace(s: string, x: nat)
    requires x < |s| && IsSpace(s[x])
    ensures GroupEnds(s, x) == []
  {
    if x + 3 <= |s| {
      assert s[x..x + 3][0] == s[x];
    }
    if x + 4 <= |s| {
      assert s[x..x + 4][0] == s[x];
    }
  }

  /** The ends of a step are tried longest first. */
  lemma StepEndsDescending(s: string, m: nat)
    ensures Descending(StepEnds(s, m))
  {
    if m <= |s| {
      StepEndsForced(s, m);
    }
  }

  /** `(63|0*9)` matches at most one way from a given position. */
  lemma PrefixUnique(s: string, i: nat, a: nat, a': nat)
    requires i <= a <= |s| && i <= a' <= |s|
    requires IsLeadingPrefix(s[i..a]) && IsLeadingPrefix(s[i..a'])
    ensures a == a'
  {
    PrefixShape(s, i, a);
    PrefixShape(s, i, a');
  }

  /** `(63|0*9)` read off the text: "63", or zeros up to a '9'. */
  lemma PrefixShape(s: string, i: nat, a: nat)
    requires i <= a <= |s| && IsLeadingPrefix(s[i..a])
    ensures (a == i + 2 && s[i] == '6' && s[i + 1] == '3')
            || (i < a && s[a - 1] == '9' && forall k | i <= k < a - 1 :: s[k] == '0')
  {
    var u := s[i..a];
    if u == "63" {
      assert u[0] == s[i] && u[1] == s[i + 1];
    } else {
      assert u[|u| - 1] == s[a - 1];
      forall k | i <= k < a - 1
        ensures s[k] == '0'
      {
        assert u[k - i] == s[k];
      }
    }
  }

  /** Ends of two steps from `b`, and of three steps from `a`, in the order
      they are tried. */
  function TwoSteps(s: string): nat -> seq<nat> { Then(StepEndsIn(s), StepEndsIn(s)) }

  function ThreeSteps(s: string): nat -> seq<nat> { Then(StepEndsIn(s), TwoSteps(s)) }

  /** The matcher's order, nested to the right: for each prefix end, for
      each end of the first step, for each end of the second. */
  lemma MatchEndsNested(s: string, i: nat)
    ensures MatchEnds(s, i) == FlatMap(PrefixEnds(s, i), ThreeSteps(s))
  {
    FlatMapAssoc(FlatMap(PrefixEnds(s, i), StepEndsIn(s)), StepEndsIn(s), StepEndsIn(s));
    FlatMapAssoc(PrefixEnds(s, i), StepEndsIn(s), TwoSteps(s));
  }

  /** `(b', c', e')` does not come after `(b, c, e)` in lexicographic
      order. */
  predicate LexAtMost(b': nat, c': nat, e': nat, b: nat, c: nat, e: nat) {
    b' < b || (b' == b && (c' < c || (c' == c && e' <= e)))
  }

  /** The match `s[i..e]` split at `a`, `b`, `c` is the one a greedy
      backtracking matcher reports: among all matches at `i`, its first digit
      group ends furthest right, then its second, then its third. */
  ghost predicate GreedySplit(s: string, i: nat, a: nat, b: nat, c: nat, e: nat) {
    IsMatchSplit(s, i, a, b, c, e)
    && forall a', b', c', e' | IsMatchSplit(s, i, a', b', c', e') :: LexAtMost(b', c', e', b, c, e)
  }

  /** `s[i..e]` is the match a greedy matcher reports at `i`. */
  ghost predicate IsGreedyAt(s: string, i: nat, e: nat) {
    exists a: nat, b: nat, c: nat :: GreedySplit(s, i, a, b, c, e)
  }

  /** Two greedy splits at the same start end at the same place. */
  lemma GreedyUnique(s: string, i: nat, e: nat, e': nat)
    requires IsGreedyAt(s, i, e) && IsGreedyAt(s, i, e')
    ensures e == e'
  {
    var a: nat, b: nat, c: nat :| GreedySplit(s, i, a, b, c, e);
    var a': nat, b': nat, c': nat :| GreedySplit(s, i, a', b', c', e');
    assert LexAtMost(b', c', e', b, c, e) && LexAtMost(b, c, e, b', c', e');
  }

  /** The end reported at `i` is the greedy one, and the greedy end is the
      one reported. */
  lemma MatchEndAtIsGreedy(s: string, i: nat)
    ensures MatchEndAt(s, i).Some? ==> IsGreedyAt(s, i, MatchEndAt(s, i).value)
    ensures forall e: nat | IsGreedyAt(s, i, e) :: MatchEndAt(s, i) == Some(e)
  {
    if MatchEndAt(s, i).Some? {
      FirstEndIsGreedy(s, i);
    }
    forall e: nat | IsGreedyAt(s, i, e)
      ensures MatchEndAt(s, i) == Some(e)
    {
      GreedyIsMatch(s, i, e);
      FirstEndIsGreedy(s, i);
      GreedyUnique(s, i, e, MatchEndAt(s, i).value);
    }
  }

  /** A greedy split is a split. */
  lemma GreedyIsMatch(s: string, i: nat, e: nat)
    requires IsGreedyAt(s, i, e)
    ensures IsMatchAt(s, i, e)
  {
    var a: nat, b: nat, c: nat :| GreedySplit(s, i, a, b, c, e);
  }

  /** A greedy match is a match, and its end is the one reported. */
  lemma GreedyIsReported(s: string, i: nat, e: nat)
    requires IsGreedyAt(s, i, e)
    ensures IsMatchAt(s, i, e) && MatchEndAt(s, i) == Some(e)
  {
    MatchEndAtIsGreedy(s, i);
  }

  /** The first end the matcher reaches closes a greedy split. */
  lemma FirstEndIsGreedy(s: string, i: nat)
    requires MatchEnds(s, i) != []
    ensures IsGreedyAt(s, i, MatchEnds(s, i)[0])
  {
    var P := PrefixEnds(s, i);
    MatchEndsNested(s, i);
    var k0 := FirstNonEmpty(P, ThreeSteps(s));
    var a := P[k0];
    var A := StepEnds(s, a);
    var k1 := FirstNonEmpty(A, TwoSteps(s));
    var b := A[k1];
    var B := StepEnds(s, b);
    var k2 := FirstNonEmpty(B, StepEndsIn(s));
    var c := B[k2];
    var e := StepEnds(s, c)[0];
    assert MatchEnds(s, i)[0] == e;
    assert i <= |s|;
    PrefixEndsSound(s, i, a);
    StepEndsSound(s, a, b);
    StepEndsSound(s, b, c);
    StepEndsSound(s, c, e);
    assert IsMatchSplit(s, i, a, b, c, e);
    forall a', b', c', e' | IsMatchSplit(s, i, a', b', c', e')
      ensures LexAtMost(b', c', e', b, c, e)
    {
      FirstIsLexLargest(s, i, a, b, c, a', b', c', e');
    }
    assert GreedySplit(s, i, a, b, c, e);
  }

  /** Any match at `i` comes no later, lexicographically, than the one
      built from the first non-empty choice at each level. */
  lemma FirstIsLexLargest(s: string, i: nat, a: nat, b: nat, c: nat, a': nat, b': nat, c': nat, e': nat)
    requires IsMatchSplit(s, i, a', b', c', e') && i <= a <= |s| && IsLeadingPrefix(s[i..a])
    requires FlatMap(StepEnds(s, a), TwoSteps(s)) != []
    requires b == StepEnds(s, a)[FirstNonEmpty(StepEnds(s, a), TwoSteps(s))]
    requires FlatMap(StepEnds(s, b), StepEndsIn(s)) != []
    requires c == StepEnds(s, b)[FirstNonEmpty(StepEnds(s, b), StepEndsIn(s))]
    requires StepEnds(s, c) != []
    ensures LexAtMost(b', c', e', b, c, StepEnds(s, c)[0])
  {
    PrefixUnique(s, i, a, a');
    StepEndsComplete(s, a, b');
    StepEndsComplete(s, b', c');
    StepEndsComplete(s, c', e');
    StepEndsDescending(s, a);
    StepEndsDescending(s, b');
    StepEndsDescending(s, c');
    assert c' in StepEnds(s, b') && e' in StepEndsIn(s)(c');
    FlatMapMember(StepEnds(s, b'), StepEndsIn(s), e');
    assert e' in TwoSteps(s)(b');
    FirstIsMaximal(StepEnds(s, a), TwoSteps(s), b', e');
    if b' == b {
      FirstIsMaximal(StepEnds(s, b), StepEndsIn(s), c', e');
      if c' == c {
        DescendingHead(StepEnds(s, c), e');
      }
    }
  }

  /** No match starts at a position in `lo..hi`. */
  ghost predicate NoMatchIn(s: string, lo: nat, hi: nat) {
    forall q, e | lo <= q < hi :: !IsMatchAt(s, q, e)
  }

  /** No match starts at `i` or later. */
  ghost predicate NoMatchFrom(s: string, i: nat) {
    forall q, e | i <= q :: !IsMatchAt(s, q, e)
  }

  /** The leftmost match that starts at `i` or later; at its start, the end
      the matcher reaches first. */
  function FirstMatchFrom(s: string, i: nat): (m: Option<Span>)
    ensures m.Some? ==> i <= m.value.lo && IsMatchAt(s, m.value.lo, m.value.hi)
    ensures m.Some? ==> NoMatchIn(s, i, m.value.lo)
    ensures m.Some? ==> MatchEndAt(s, m.value.lo) == Some(m.value.hi)
    ensures m.None? ==> NoMatchFrom(s, i)
    decreases |s| - i
  {
    if i > |s| then
      NoMatchPastEnd(s, i);
      None
    else
      var x := MatchEndAt(s, i);
      if x.Some? then Some(Span(i, x.value))
      else
        var m := FirstMatchFrom(s, i + 1);
        if m.Some? then
          NoMatchInExtend(s, i, m.value.lo);
          m
        else
          NoMatchFromExtend(s, i);
          m
  }

  /** No match starts beyond the end of the text. */
  lemma NoMatchPastEnd(s: string, i: nat)
    requires i > |s|
    ensures NoMatchFrom(s, i)
  {
  }

  /** A start with no match widens a match-free range down by one. */
  lemma NoMatchInExtend(s: string, i: nat, lo: nat)
    requires i < lo && (forall e :: !IsMatchAt(s, i, e)) && NoMatchIn(s, i + 1, lo)
    ensures NoMatchIn(s, i, lo)
  {
  }

  /** A start with no match extends a match-free tail down by one. */
  lemma NoMatchFromExtend(s: string, i: nat)
    requires (forall e :: !IsMatchAt(s, i, e)) && NoMatchFrom(s, i + 1)
    ensures NoMatchFrom(s, i)
  {
  }

  /** `r` lists matches of the pattern in `s` that start at `i` or later, in
      order and without overlapping, each ending where the matcher reports. */
  ghost predicate OrderedMatches(s: string, i: nat, r: seq<Span>) {
    (forall k | 0 <= k < |r| :: Reported(s, i, r[k]))
    && forall k | 0 < k < |r| :: r[k - 1].hi <= r[k].lo
  }

  /** `m` is a match starting at `i` or later and ending where the matcher
      reports for its start. */
  ghost predicate Reported(s: string, i: nat, m: Span) {
    i <= m.lo && IsMatchAt(s, m.lo, m.hi) && MatchEndAt(s, m.lo) == Some(m.hi)
  }

  lemma ConsOrderedMatches(s: string, i: nat, m: Span, t: seq<Span>)
    requires i <= m.lo <= m.hi && IsMatchAt(s, m.lo, m.hi) && MatchEndAt(s, m.lo) == Some(m.hi)
    requires OrderedMatches(s, m.hi, t)
    ensures OrderedMatches(s, i, [m] + t)
  {
    ConsAllReported(s, i, m, t);
    if t != [] {
      assert Reported(s, m.hi, t[0]);
    }
    ConsNonOverlapping(m, t);
  }

  lemma ConsAllReported(s: string, i: nat, m: Span, t: seq<Span>)
    requires Reported(s, i, m) && i <= m.hi && OrderedMatches(s, m.hi, t)
    ensures forall k | 0 <= k < |[m] + t| :: Reported(s, i, ([m] + t)[k])
  {
    var r := [m] + t;
    forall k | 0 < k < |r|
      ensures Reported(s, i, r[k])
    {
      assert r[k] == t[k - 1];
      ReportedFrom(s, i, m.hi, t, k - 1);
    }
  }

  lemma ConsNonOverlapping(m: Span, t: seq<Span>)
    requires t != [] ==> m.hi <= t[0].lo
    requires forall k | 0 < k < |t| :: t[k - 1].hi <= t[k].lo
    ensures forall k | 0 < k < |[m] + t| :: ([m] + t)[k - 1].hi <= ([m] + t)[k].lo
  {
    var r := [m] + t;
    forall k | 0 < k < |r|
      ensures r[k - 1].hi <= r[k].lo
    {
      assert r[k] == t[k - 1];
      if k > 1 {
        assert r[k - 1] == t[k - 2];
      }
    }
  }

  lemma ReportedFrom(s: string, i: nat, j: nat, t: seq<Span>, k: nat)
    requires i <= j && OrderedMatches(s, j, t) && k < |t|
    ensures Reported(s, i, t[k])
  {
    assert Reported(s, j, t[k]);
  }

  /** Every match from `i` on: leftmost first, each search resuming where the
      previous match ended. */
  function MatchesFrom(s: string, i: nat): (r: seq<Span>)
    ensures OrderedMatches(s, i, r)
    ensures r == [] <==> NoMatchFrom(s, i)
    decreases |s| - i
  {
    match FirstMatchFrom(s, i)
    case None => []
    case Some(m) =>
      MatchLength(s, m.lo, m.hi);
      ConsOrderedMatches(s, i, m, MatchesFrom(s, m.hi));
      [m] + MatchesFrom(s, m.hi)
  }

  /** The spans `r`, found from `i` on, skip no match: none starts before
      the first span, between the end of a span and the start of the next,
      or after the end of the last; an empty `r` means no match from `i`. */
  ghost predicate LeftmostSpans(s: string, i: nat, r: seq<Span>) {
    (r == [] ==> NoMatchFrom(s, i))
    && (r != [] ==> NoMatchIn(s, i, r[0].lo) && NoMatchFrom(s, r[|r| - 1].hi))
    && forall k | 0 < k < |r| :: NoMatchIn(s, r[k - 1].hi, r[k].lo)
  }

  lemma ConsLeftmostSpans(s: string, i: nat, m: Span, t: seq<Span>)
    requires NoMatchIn(s, i, m.lo) && LeftmostSpans(s, m.hi, t)
    ensures LeftmostSpans(s, i, [m] + t)
  {
    var r := [m] + t;
    assert r[|r| - 1] == if t == [] then m else t[|t| - 1];
    forall k | 0 < k < |r|
      ensures NoMatchIn(s, r[k - 1].hi, r[k].lo)
    {
      assert r[k] == t[k - 1];
      if k > 1 {
        assert r[k - 1] == t[k - 2];
      }
    }
  }

  /** The matches are leftmost: no match starts before the first one, nor
      between the end of one and the start of the next. */
  lemma {:induction false} MatchesFromLeftmost(s: string, i: nat)
    ensures LeftmostSpans(s, i, MatchesFrom(s, i))
    decreases |s| - i
  {
    var f := FirstMatchFrom(s, i);
    if f.Some? {
      var m := f.value;
      MatchLength(s, m.lo, m.hi);
      MatchesFromLeftmost(s, m.hi);
      assert NoMatchIn(s, i, m.lo);
      ConsLeftmostSpans(s, i, m, MatchesFrom(s, m.hi));
      assert MatchesFrom(s, i) == [m] + MatchesFrom(s, m.hi);
    }
  }

  /** The global search is pinned down by what it promises: any list of
      reported matches from `i` on, in order and skipping no match, is the
      one `MatchesFrom` returns. */
  lemma {:induction false} LeftmostSpansUnique(s: string, i: nat, r: seq<Span>)
    requires OrderedMatches(s, i, r) && LeftmostSpans(s, i, r)
    ensures r == MatchesFrom(s, i)
    decreases |r|
  {
    if r == [] {
      MatchesFromNone(s, i);
    } else {
      FirstSpanIsFirstMatch(s, i, r);
      OrderedTail(s, i, r);
      LeftmostTail(s, i, r);
      LeftmostSpansUnique(s, r[0].hi, r[1..]);
      MatchesFromCons(s, i, r);
    }
  }

  /** A list headed by the first match, whose rest is the search resumed
      after it, is the search from `i`. */
  lemma MatchesFromCons(s: string, i: nat, r: seq<Span>)
    requires r != [] && FirstMatchFrom(s, i) == Some(r[0])
    requires r[1..] == MatchesFrom(s, r[0].hi)
    ensures r == MatchesFrom(s, i)
  {
    MatchesFromSome(s, i, r[0]);
    assert r == [r[0]] + r[1..];
  }

  lemma MatchesFromNone(s: string, i: nat)
    requires NoMatchFrom(s, i)
    ensures MatchesFrom(s, i) == []
  {
  }

  lemma MatchesFromSome(s: string, i: nat, m: Span)
    requires FirstMatchFrom(s, i) == Some(m)
    ensures MatchesFrom(s, i) == [m] + MatchesFrom(s, m.hi)
  {
  }

  /** The first of a leftmost list of reported matches is the first match. */
  lemma FirstSpanIsFirstMatch(s: string, i: nat, r: seq<Span>)
    requires OrderedMatches(s, i, r) && LeftmostSpans(s, i, r) && r != []
    ensures FirstMatchFrom(s, i) == Some(r[0])
  {
    assert Reported(s, i, r[0]);
    FirstMatchFromIs(s, i, r[0]);
  }

  /** A reported match with no match before it is the first match. */
  lemma FirstMatchFromIs(s: string, i: nat, m: Span)
    requires Reported(s, i, m) && NoMatchIn(s, i, m.lo)
    ensures FirstMatchFrom(s, i) == Some(m)
  {
    assert !NoMatchFrom(s, i) by { assert i <= m.lo && IsMatchAt(s, m.lo, m.hi); }
    var f := FirstMatchFrom(s, i).value;
    SameStart(s, i, m, f);
  }

  /** Two matches from `i`, each with no match before it, start together. */
  lemma SameStart(s: string, i: nat, m: Span, f: Span)
    requires i <= m.lo && IsMatchAt(s, m.lo, m.hi) && NoMatchIn(s, i, m.lo)
    requires i <= f.lo && IsMatchAt(s, f.lo, f.hi) && NoMatchIn(s, i, f.lo)
    ensures m.lo == f.lo
  {
    NotBefore(s, i, f.lo, m.lo, m.hi);
    NotBefore(s, i, m.lo, f.lo, f.hi);
  }

  /** A match from `i` cannot start inside a match-free range from `i`. */
  lemma NotBefore(s: string, i: nat, lo: nat, q: nat, e: nat)
    requires NoMatchIn(s, i, lo) && i <= q && IsMatchAt(s, q, e)
    ensures lo <= q
  {
  }

  /** Consecutive ordered matches start no earlier than the first one ends. */
  lemma {:induction false} OrderedChain(s: string, i: nat, r: seq<Span>, k: nat)
    requires OrderedMatches(s, i, r) && 0 < k < |r|
    ensures r[0].hi <= r[k].lo
  {
    assert Reported(s, i, r[k - 1]);
    MatchLength(s, r[k - 1].lo, r[k - 1].hi);
    if k > 1 {
      OrderedChain(s, i, r, k - 1);
    }
  }

  /** Dropping the first span leaves matches reported from its end on. */
  lemma OrderedTail(s: string, i: nat, r: seq<Span>)
    requires OrderedMatches(s, i, r) && r != []
    ensures OrderedMatches(s, r[0].hi, r[1..])
  {
    var t := r[1..];
    forall k | 0 <= k < |t|
      ensures Reported(s, r[0].hi, t[k])
    {
      ReportedLater(s, i, r, k + 1);
    }
  }

  lemma ReportedLater(s: string, i: nat, r: seq<Span>, k: nat)
    requires OrderedMatches(s, i, r) && 0 < k < |r|
    ensures Reported(s, r[0].hi, r[k])
  {
    assert Reported(s, i, r[k]);
    OrderedChain(s, i, r, k);
  }

  /** Dropping the first span keeps the rest free of skipped matches. */
  lemma LeftmostTail(s: string, i: nat, r: seq<Span>)
    requires LeftmostSpans(s, i, r) && r != []
    ensures LeftmostSpans(s, r[0].hi, r[1..])
  {
    var t := r[1..];
    if t != [] {
      assert t[0] == r[1] && t[|t| - 1] == r[|r| - 1];
    }
    forall k | 0 < k < |t|
      ensures NoMatchIn(s, t[k - 1].hi, t[k].lo)
    {
      assert t[k] == r[k + 1] && t[k - 1] == r[k];
    }
  }

  lemma SpansArePhones(s: string, spans: seq<Span>)
    requires forall k | 0 <= k < |spans| :: IsMatchAt(s, spans[k].lo, spans[k].hi)
    ensures forall k | 0 <= k < |spans| ::
              spans[k].lo <= spans[k].hi <= |s| && IsPhone(s[spans[k].lo..spans[k].hi])
              && spans[k].hi - spans[k].lo >= 10
  {
    forall k | 0 <= k < |spans|
      ensures spans[k].lo <= spans[k].hi <= |s| && IsPhone(s[spans[k].lo..spans[k].hi])
              && spans[k].hi - spans[k].lo >= 10
    {
      PhoneOfMatch(s, spans[k].lo, spans[k].hi);
      MatchLength(s, spans[k].lo, spans[k].hi);
    }
  }

  /** Every span the scan reports from the start is the text of a phone. */
  lemma MatchSpansArePhones(s: string)
    ensures forall k | 0 <= k < |MatchesFrom(s, 0)| ::
              MatchesFrom(s, 0)[k].lo <= MatchesFrom(s, 0)[k].hi <= |s|
              && IsPhone(s[MatchesFrom(s, 0)[k].lo..MatchesFrom(s, 0)[k].hi])
              && MatchesFrom(s, 0)[k].hi - MatchesFrom(s, 0)[k].lo >= 10
  {
    var spans := MatchesFrom(s, 0);
    OrderedAreMatches(s, 0, spans);
    SpansArePhones(s, spans);
  }

  lemma OrderedAreMatches(s: string, i: nat, r: seq<Span>)
    requires OrderedMatches(s, i, r)
    ensures forall k | 0 <= k < |r| :: IsMatchAt(s, r[k].lo, r[k].hi)
  {
    forall k | 0 <= k < |r|
      ensures IsMatchAt(s, r[k].lo, r[k].hi)
    {
      assert Reported(s, i, r[k]);
    }
  }

  /** `s.match(PHONE_REGEX)`, with the empty sequence for null. */
  function Matches(s: string): (r: seq<string>)
    ensures r == [] <==> forall q, e :: !IsMatchAt(s, q, e)
    ensures forall k | 0 <= k < |r| :: IsPhone(r[k]) && |r[k]| >= 10
    ensures |r| == |MatchesFrom(s, 0)|
    ensures forall k | 0 <= k < |r| :: r[k] == s[MatchesFrom(s, 0)[k].lo..MatchesFrom(s, 0)[k].hi]
  {
    var spans := MatchesFrom(s, 0);
    MatchSpansArePhones(s);
    seq(|spans|, k requires 0 <= k < |spans| => s[spans[k].lo..spans[k].hi])
  }

  /** The first element of `s.match(PHONE_REGEX)` is the leftmost match: it
      is the text of a match, and no match starts further left. */
  lemma MatchesFirstIsLeftmost(s: string)
    requires Matches(s) != []
    ensures MatchesFrom(s, 0) != []
    ensures IsMatchAt(s, MatchesFrom(s, 0)[0].lo, MatchesFrom(s, 0)[0].hi)
    ensures Matches(s)[0] == s[MatchesFrom(s, 0)[0].lo..MatchesFrom(s, 0)[0].hi]
    ensures NoMatchIn(s, 0, MatchesFrom(s, 0)[0].lo)
    ensures MatchEndAt(s, MatchesFrom(s, 0)[0].lo) == Some(MatchesFrom(s, 0)[0].hi)
  {
    assert MatchesFrom(s, 0)[0] == FirstMatchFrom(s, 0).value;
  }

  /** `u` is the text of the greedy match at a start in `s` where no match
      starts further left. */
  ghost predicate IsLeftmostMatch(s: string, u: string) {
    exists lo: nat, hi: nat :: IsGreedyAt(s, lo, hi) && lo <= hi <= |s| && u == s[lo..hi]
      && NoMatchIn(s, 0, lo)
  }

  /** The first element of a non-null `s.match(PHONE_REGEX)` is the leftmost
      match of `s`. */
  lemma FirstMatchIsLeftmost(s: string)
    requires Matches(s) != []
    ensures IsLeftmostMatch(s, Matches(s)[0])
  {
    MatchesFirstIsLeftmost(s);
    var m := MatchesFrom(s, 0)[0];
    MatchLength(s, m.lo, m.hi);
    MatchEndAtIsGreedy(s, m.lo);
    assert IsGreedyAt(s, m.lo, m.hi) && m.lo <= m.hi <= |s| && Matches(s)[0] == s[m.lo..m.hi];
  }

  /** A text that starts with a match: its first match starts at offset 0,
      so it is a prefix of the text. */
  lemma MatchesOfMatchAtStart(s: string, e: nat)
    requires IsMatchAt(s, 0, e)
    ensures Matches(s) != [] && Matches(s)[0] <= s
    ensures Matches(s)[0] == s[..MatchesFrom(s, 0)[0].hi]
    ensures MatchEndAt(s, 0) == Some(MatchesFrom(s, 0)[0].hi)
  {
    MatchesFirstIsLeftmost(s);
    assert MatchesFrom(s, 0)[0].lo == 0;
  }

  /** A match stays a match when text is appended after it. */
  lemma MatchInLongerText(u: string, t: string)
    requires IsPhone(u)
    ensures IsMatchAt(u + t, 0, |u|)
  {
    var a: nat, b: nat, c: nat :| IsMatchSplit(u, 0, a, b, c, |u|);
    var s := u + t;
    assert s[0..a] == u[0..a];
    assert s[a..b] == u[a..b];
    assert s[b..c] == u[b..c];
    assert s[c..|u|] == u[c..|u|];
    assert IsMatchSplit(s, 0, a, b, c, |u|);
  }

  // ---------------------------------------------------------------------
  // A match followed by a non-digit is the first match of a text it starts

  /** Number of ASCII digits in `t[p..q]`. */
  function DigitCount(t: string, p: nat, q: nat): (n: nat)
    requires p <= q <= |t|
    ensures n <= q - p
    decreases q - p
  {
    if p == q then 0 else (if IsDigit(t[q - 1]) then 1 else 0) + DigitCount(t, p, q - 1)
  }

  lemma {:induction false} DigitCountSplit(t: string, p: nat, q: nat, r: nat)
    requires p <= q <= r <= |t|
    ensures DigitCount(t, p, r) == DigitCount(t, p, q) + DigitCount(t, q, r)
    decreases r - q
  {
    if q < r {
      DigitCountSplit(t, p, q, r - 1);
    }
  }

  lemma {:induction false} AllDigits(t: string, p: nat, q: nat)
    requires p <= q <= |t| && forall k | p <= k < q :: IsDigit(t[k])
    ensures DigitCount(t, p, q) == q - p
    decreases q - p
  {
    if p < q {
      AllDigits(t, p, q - 1);
    }
  }

  lemma {:induction false} NoDigits(t: string, p: nat, q: nat)
    requires p <= q <= |t| && forall k | p <= k < q :: !IsDigit(t[k])
    ensures DigitCount(t, p, q) == 0
    decreases q - p
  {
    if p < q {
      NoDigits(t, p, q - 1);
    }
  }

  /** A step `\s*\d{3,4}` read off the text: spaces on `x..d`, then three or
      four digits on `d..y`. */
  lemma StepShape(t: string, x: nat, y: nat) returns (d: nat)
    requires x <= y <= |t| && IsStep(t[x..y])
    ensures x <= d <= y && 3 <= y - d <= 4
    ensures forall k | x <= k < d :: IsSpace(t[k]) && !IsDigit(t[k])
    ensures forall k | d <= k < y :: IsDigit(t[k])
  {
    var u := t[x..y];
    var a: nat :| a <= |u| && AllSpace(u[..a]) && IsDigitGroup(u[a..]);
    SplitSlice(t, x, y, a);
    d := x + a;
    SpacesOfSlice(t, x, d);
    DigitsOfSlice(t, d, y);
  }

  lemma SpacesOfSlice(t: string, x: nat, d: nat)
    requires x <= d <= |t| && AllSpace(t[x..d])
    ensures forall k | x <= k < d :: IsSpace(t[k]) && !IsDigit(t[k])
  {
    forall k | x <= k < d
      ensures IsSpace(t[k])
    {
      assert t[x..d][k - x] == t[k];
    }
  }

  lemma DigitsOfSlice(t: string, d: nat, y: nat)
    requires d <= y <= |t| && IsDigitGroup(t[d..y])
    ensures 3 <= y - d <= 4 && forall k | d <= k < y :: IsDigit(t[k])
  {
    forall k | d <= k < y
      ensures IsDigit(t[k])
    {
      assert t[d..y][k - d] == t[k];
    }
  }

  /** A step holds three or four digits and ends on a digit. */
  lemma StepDigits(t: string, x: nat, y: nat)
    requires x <= y <= |t| && IsStep(t[x..y])
    ensures 3 <= DigitCount(t, x, y) <= 4 && x < y && IsDigit(t[y - 1])
  {
    var d := StepShape(t, x, y);
    NoDigits(t, x, d);
    AllDigits(t, d, y);
    DigitCountSplit(t, x, d, y);
  }

  /** Up to a non-digit inside a step there are only spaces. */
  lemma StepBeforeNonDigit(t: string, x: nat, y: nat, n: nat)
    requires x <= n < y <= |t| && IsStep(t[x..y]) && !IsDigit(t[n])
    ensures DigitCount(t, x, n) == 0
  {
    var d := StepShape(t, x, y);
    NoDigits(t, x, n);
  }

  /** The three steps of a match after its prefix hold at least nine digits,
      and the match ends on a digit. */
  lemma ChainDigits(t: string, i: nat, a: nat, b: nat, c: nat, e: nat)
    requires IsMatchSplit(t, i, a, b, c, e)
    ensures DigitCount(t, a, e) >= 9 && a < e && IsDigit(t[e - 1])
  {
    StepDigits(t, a, b);
    StepDigits(t, b, c);
    StepDigits(t, c, e);
    DigitCountSplit(t, a, b, c);
    DigitCountSplit(t, a, c, e);
  }

  /** A match that runs over a non-digit at `n` has at most eight digits
      between the end of its prefix and `n`: the steps wholly before `n`
      are at most two, and the one that runs over `n` has only spaces before
      it. */
  lemma CrossingDigits(t: string, i: nat, a: nat, b: nat, c: nat, e: nat, n: nat)
    requires IsMatchSplit(t, i, a, b, c, e) && a <= n < e && !IsDigit(t[n])
    ensures DigitCount(t, a, n) <= 8
  {
    StepDigits(t, a, b);
    StepDigits(t, b, c);
    if n < b {
      StepBeforeNonDigit(t, a, b, n);
    } else if n < c {
      StepBeforeNonDigit(t, b, c, n);
      DigitCountSplit(t, a, b, n);
    } else {
      StepBeforeNonDigit(t, c, e, n);
      DigitCountSplit(t, a, b, c);
      DigitCountSplit(t, a, c, n);
    }
  }

  /** Slice `x..y` of `L` is slice `x0..y0` of `t` when `t` starts with
      `L[lo..hi]`. */
  lemma SliceShift(L: string, lo: nat, hi: nat, t: string, x0: nat, y0: nat)
    requires lo <= hi <= |L| && hi - lo <= |t| && t[..hi - lo] == L[lo..hi]
    requires x0 <= y0 <= hi - lo
    ensures L[lo + x0..lo + y0] == t[x0..y0]
  {
    forall k | 0 <= k < y0 - x0
      ensures L[lo + x0..lo + y0][k] == t[x0..y0][k]
    {
      assert L[lo..hi][x0 + k] == t[..hi - lo][x0 + k];
    }
  }

  /** A split inside `L[lo..hi]` is the same split of a text `t` that starts
      with `L[lo..hi]`, moved to offset 0. */
  lemma ShiftSplit(L: string, lo: nat, hi: nat, t: string, a: nat, b: nat, c: nat, e: nat)
    requires lo <= hi <= |L| && hi - lo <= |t| && t[..hi - lo] == L[lo..hi]
    requires a <= b <= c <= e <= hi - lo
    requires IsMatchSplit(L, lo, lo + a, lo + b, lo + c, lo + e)
    ensures IsMatchSplit(t, 0, a, b, c, e)
  {
    SliceShift(L, lo, hi, t, 0, a);
    SliceShift(L, lo, hi, t, a, b);
    SliceShift(L, lo, hi, t, b, c);
    SliceShift(L, lo, hi, t, c, e);
  }

  /** And back: a split at offset 0 of `t` that ends inside the copy is the
      same split of `L` from `lo`. */
  lemma UnshiftSplit(L: string, lo: nat, hi: nat, t: string, a: nat, b: nat, c: nat, e: nat)
    requires lo <= hi <= |L| && hi - lo <= |t| && t[..hi - lo] == L[lo..hi]
    requires e <= hi - lo && IsMatchSplit(t, 0, a, b, c, e)
    ensures IsMatchSplit(L, lo, lo + a, lo + b, lo + c, lo + e)
  {
    SliceShift(L, lo, hi, t, 0, a);
    SliceShift(L, lo, hi, t, a, b);
    SliceShift(L, lo, hi, t, b, c);
    SliceShift(L, lo, hi, t, c, e);
  }

  /** Every match at offset 0 of `t` stops at `n` when `t[..n]` is a match
      and `t[n]` is not a digit. */
  lemma NoMatchOverNonDigit(t: string, n: nat, a: nat, b: nat, c: nat, a': nat, b': nat, c': nat, e': nat)
    requires IsMatchSplit(t, 0, a, b, c, n) && IsMatchSplit(t, 0, a', b', c', e')
    requires n == |t| || !IsDigit(t[n])
    ensures e' <= n
  {
    PrefixUnique(t, 0, a, a');
    ChainDigits(t, 0, a, b, c, n);
    if e' > n {
      CrossingDigits(t, 0, a', b', c', e', n);
    }
  }

  /** The greedy match `L[lo..hi]`, placed at the start of a text `t` and
      followed there by a non-digit or nothing, is the greedy match at offset
      0 of `t`. */
  lemma GreedyMatchStartsText(L: string, lo: nat, hi: nat, t: string)
    requires lo <= hi <= |L| && IsGreedyAt(L, lo, hi)
    requires hi - lo <= |t| && t[..hi - lo] == L[lo..hi]
    requires hi - lo == |t| || !IsDigit(t[hi - lo])
    ensures IsGreedyAt(t, 0, hi - lo)
  {
    var a: nat, b: nat, c: nat :| GreedySplit(L, lo, a, b, c, hi);
    ShiftedSplitIsGreedy(L, lo, hi, t, a, b, c);
  }

  lemma ShiftedSplitIsGreedy(L: string, lo: nat, hi: nat, t: string, a: nat, b: nat, c: nat)
    requires lo <= hi <= |L| && GreedySplit(L, lo, a, b, c, hi)
    requires hi - lo <= |t| && t[..hi - lo] == L[lo..hi]
    requires hi - lo == |t| || !IsDigit(t[hi - lo])
    ensures GreedySplit(t, 0, a - lo, b - lo, c - lo, hi - lo)
  {
    var n := hi - lo;
    ShiftSplit(L, lo, hi, t, a - lo, b - lo, c - lo, n);
    forall a', b', c', e' | IsMatchSplit(t, 0, a', b', c', e')
      ensures LexAtMost(b', c', e', b - lo, c - lo, n)
    {
      NoMatchOverNonDigit(t, n, a - lo, b - lo, c - lo, a', b', c', e');
      GreedyBoundsShifted(L, lo, hi, t, a, b, c, a', b', c', e');
    }
  }

  /** A match at offset 0 of such a text `t` that stays inside the copy of
      `L[lo..hi]` is a match in `L` too, so the greedy split of `L` bounds
      it. */
  lemma GreedyBoundsShifted(L: string, lo: nat, hi: nat, t: string, a: nat, b: nat, c: nat,
                            a': nat, b': nat, c': nat, e': nat)
    requires lo <= hi <= |L| && GreedySplit(L, lo, a, b, c, hi)
    requires hi - lo <= |t| && t[..hi - lo] == L[lo..hi]
    requires e' <= hi - lo && IsMatchSplit(t, 0, a', b', c', e')
    ensures LexAtMost(b', c', e', b - lo, c - lo, hi - lo)
  {
    UnshiftSplit(L, lo, hi, t, a', b', c', e');
  }

  /** A text that starts with the greedy match `L[lo..hi]`, followed by a
      non-digit or nothing, has that match as its first `match` element. */
  lemma MatchesStartWithGreedy(L: string, lo: nat, hi: nat, t: string)
    requires lo <= hi <= |L| && IsGreedyAt(L, lo, hi)
    requires hi - lo <= |t| && t[..hi - lo] == L[lo..hi]
    requires hi - lo == |t| || !IsDigit(t[hi - lo])
    ensures Matches(t) != [] && Matches(t)[0] == L[lo..hi]
  {
    GreedyMatchStartsText(L, lo, hi, t);
    GreedyAtStartIsFirst(t, hi - lo);
  }

  /** The greedy match at offset 0 is the first element of `match`. */
  lemma GreedyAtStartIsFirst(t: string, n: nat)
    requires IsGreedyAt(t, 0, n)
    ensures Matches(t) != [] && Matches(t)[0] == t[..n]
  {
    GreedyIsReported(t, 0, n);
    MatchesOfMatchAtStart(t, n);
  }

  // ---------------------------------------------------------------------
  // Examples

  /** An eleven-digit mobile number written without spaces is a match:
      "09", then "171", "234" and "567". */
  lemma UnspacedMobileIsPhone()
    ensures IsPhone("09171234567")
  {
    var s := "09171234567";
    assert IsLeadingPrefix(s[0..2]);
    assert AllSpace(s[2..5][..0]) && IsDigitGroup(s[2..5][0..]);
    assert AllSpace(s[5..8][..0]) && IsDigitGroup(s[5..8][0..]);
    assert AllSpace(s[8..11][..0]) && IsDigitGroup(s[8..11][0..]);
    assert IsMatchSplit(s, 0, 2, 5, 8, 11);
  }

  /** A step that starts at a digit has no spaces, so it is at most four
      characters long. */
  lemma StepFromDigit(t: string, x: nat, y: nat)
    requires x <= y <= |t| && IsStep(t[x..y])
    requires x < |t| && IsDigit(t[x])
    ensures y <= x + 4
  {
    var d := StepShape(t, x, y);
  }

  /** The text of the four-digit-group example below. */
  const FourDigitGroups: string := "0917123456789"

  /** In "0917123456789" the split "09", "1712", "3456", "789" ends at 11
      characters too ("09", "171", "234", "567"), but the matcher tries four
      digits before three and reports all thirteen. */
  lemma FourDigitGroupsGreedy()
    ensures IsMatchAt(FourDigitGroups, 0, 11)
    ensures MatchEndAt(FourDigitGroups, 0) == Some(13)
  {
    var s := FourDigitGroups;
    assert forall k | 0 <= k < |s| :: IsDigit(s[k]);
    assert IsLeadingPrefix(s[0..2]);
    assert AllSpace(s[2..5][..0]) && IsDigitGroup(s[2..5][0..]);
    assert AllSpace(s[5..8][..0]) && IsDigitGroup(s[5..8][0..]);
    assert AllSpace(s[8..11][..0]) && IsDigitGroup(s[8..11][0..]);
    assert IsMatchSplit(s, 0, 2, 5, 8, 11);
    assert AllSpace(s[2..6][..0]) && IsDigitGroup(s[2..6][0..]);
    assert AllSpace(s[6..10][..0]) && IsDigitGroup(s[6..10][0..]);
    assert AllSpace(s[10..13][..0]) && IsDigitGroup(s[10..13][0..]);
    forall a: nat, b: nat, c: nat, e: nat | IsMatchSplit(s, 0, a, b, c, e)
      ensures LexAtMost(b, c, e, 6, 10, 13)
    {
      PrefixUnique(s, 0, a, 2);
      StepFromDigit(s, a, b);
      StepFromDigit(s, b, c);
      StepFromDigit(s, c, e);
    }
    assert GreedySplit(s, 0, 2, 6, 10, 13);
    MatchEndAtIsGreedy(s, 0);
  }

  /** The text of the spaced example below. */
  const SpacedMobile: string := "0917 123 4567"

  /** In the spaced example the only way to end `(63|0*9)` is at its single
      '9', the second character. */
  lemma SpacedMobilePrefix(q: nat, a: nat)
    requires q <= a <= |SpacedMobile| && IsLeadingPrefix(SpacedMobile[q..a])
    ensures a == 2
  {
    var s := SpacedMobile;
    assert s[0] == '0' && s[1] == '9' && s[2] == '1' && s[3] == '7' && s[4] == ' ';
    assert s[5] == '1' && s[6] == '2' && s[7] == '3' && s[8] == ' ';
    assert s[9] == '4' && s[10] == '5' && s[11] == '6' && s[12] == '7';
    var u := s[q..a];
    assert u != "63" by {
      if |u| == 2 {
        assert u[0] == s[q];
      }
    }
    assert u[|u| - 1] == s[a - 1];
  }

  /** After the '9' come only two digits and a space, too few for
      `\s*\d{3,4}`. */
  lemma SpacedMobileNoStep(b: nat)
    requires 2 <= b <= |SpacedMobile|
    ensures !IsStep(SpacedMobile[2..b])
  {
    var s := SpacedMobile;
    var u := s[2..b];
    forall a: nat | a <= |u| ensures !(AllSpace(u[..a]) && IsDigitGroup(u[a..])) {
      if a > 0 {
        assert u[..a][0] == s[2] == '1';
      } else if |u| >= 3 {
        assert u[a..][2] == s[4] == ' ';
      }
    }
  }

  /** The number written with spaces after the four-digit network code, as
      "0917 123 4567", is not matched at all: the first group after the '9'
      would be "17". */
  lemma SpacedMobileHasNoMatch()
    ensures Matches(SpacedMobile) == []
  {
    var s := SpacedMobile;
    forall q: nat, e: nat ensures !IsMatchAt(s, q, e) {
      forall a: nat, b: nat, c: nat ensures !IsMatchSplit(s, q, a, b, c, e) {
        if q <= a <= b <= |s| && IsLeadingPrefix(s[q..a]) {
          SpacedMobilePrefix(q, a);
          SpacedMobileNoStep(b);
        }
      }
    }
  }
}
