/** The search for the sender's number (index.js:113-129). The number is
    assumed to sit near the top of the screenshot, so only the first half of
    the lines is scanned; the first line with a match gives the number, and
    that line and every line above it are removed. */
module SenderLocator {
  import opened Seqs
  import opened PhonePattern

  /** The loop guard `i < lines.length / 2`, with JavaScript's division of
      numbers, which does not round. */
  predicate InWindow(i: nat, n: nat) {
    (i as real) < (n as real) / 2.0
  }

  /** Index `i` is scanned exactly when `2 * i < n`: for an odd number of
      lines the middle line is scanned too, `(n + 1) / 2` lines in all. */
  lemma InWindowIff(i: nat, n: nat)
    ensures InWindow(i, n) <==> 2 * i < n
    ensures InWindow(i, n) <==> i < (n + 1) / 2
  {
  }

  lemma OddWindowExamples()
    ensures InWindow(1, 3) && !InWindow(2, 3)
    ensures InWindow(4, 9) && !InWindow(5, 9)
    ensures InWindow(4, 10) && !InWindow(5, 10)
    ensures !InWindow(0, 0)
  {
    InWindowIff(1, 3);
    InWindowIff(2, 3);
    InWindowIff(4, 9);
    InWindowIff(5, 9);
    InWindowIff(4, 10);
    InWindowIff(5, 10);
  }

  /** `line.match(PHONE_REGEX)` for every line, with [] for null. */
  function LineMatches(lines: seq<string>): (found: seq<seq<string>>)
    ensures |found| == |lines|
    ensures forall k | 0 <= k < |lines| :: found[k] == Matches(lines[k])
  {
    seq(|lines|, k requires 0 <= k < |lines| => Matches(lines[k]))
  }

  /** The first index from `i` on inside the window whose line has a match,
      given the match results `found` of the lines. */
  function FirstHitFrom(found: seq<seq<string>>, i: nat): (h: Option<nat>)
    ensures h.Some? ==> i <= h.value && 2 * h.value < |found| && found[h.value] != []
    ensures h.Some? ==> forall k | i <= k < h.value :: found[k] == []
    ensures h.None? <==> forall k | i <= k && 2 * k < |found| :: found[k] == []
    decreases |found| - i
  {
    if 2 * i >= |found| then None
    else if found[i] != [] then Some(i)
    else FirstHitFrom(found, i + 1)
  }

  /** What the search leaves behind on success. */
  datatype Located = Located(phoneNumber: string, rest: seq<string>)

  /** The index of the line the number is taken from, if any. */
  function HitIndex(lines: seq<string>): Option<nat> {
    FirstHitFrom(LineMatches(lines), 0)
  }

  /** The outcome of the search: the first match of the first line of the
      window that has one, and the lines after that line. */
  function Locate(lines: seq<string>): (r: Option<Located>)
    ensures r.Some? ==> |r.value.rest| < |lines|
  {
    match HitIndex(lines)
    case None => None
    case Some(i) => Some(Located(LineMatches(lines)[i][0], lines[i + 1..]))
  }

  /** The search fails exactly when no line of the window has a match. */
  lemma LocateFailsIff(lines: seq<string>)
    ensures Locate(lines).None? <==> forall k | 0 <= k && 2 * k < |lines| :: Matches(lines[k]) == []
  {
    var found := LineMatches(lines);
    if HitIndex(lines).None? {
      forall k | 0 <= k && 2 * k < |lines|
        ensures Matches(lines[k]) == []
      {
        assert found[k] == Matches(lines[k]);
      }
    } else {
      var i := HitIndex(lines).value;
      assert found[i] == Matches(lines[i]);
    }
  }

  /** Line `i` is the first line of the window with a match, and
      `phoneNumber` is its first match. */
  ghost predicate SenderLine(lines: seq<string>, i: nat, phoneNumber: string) {
    i < |lines| && 2 * i < |lines|
    && Matches(lines[i]) != [] && (forall k | 0 <= k < i :: Matches(lines[k]) == [])
    && phoneNumber == Matches(lines[i])[0]
  }

  /** On success the number is the first match of the first line of the
      window that has a match, and the lines kept are those after it. */
  lemma LocateFindsFirstHit(lines: seq<string>)
    requires Locate(lines).Some?
    ensures HitIndex(lines).Some?
    ensures SenderLine(lines, HitIndex(lines).value, Locate(lines).value.phoneNumber)
    ensures Locate(lines).value.rest == lines[HitIndex(lines).value + 1..]
  {
    var found := LineMatches(lines);
    var i := HitIndex(lines).value;
    LocateAtHit(lines);
    SenderLineOfHit(lines, found, i);
  }

  /** On success the search reports the hit line's first match and the
      lines after it. */
  lemma LocateAtHit(lines: seq<string>)
    requires Locate(lines).Some?
    ensures HitIndex(lines).Some? && HitIndex(lines).value < |lines|
    ensures Locate(lines).value.phoneNumber == LineMatches(lines)[HitIndex(lines).value][0]
    ensures Locate(lines).value.rest == lines[HitIndex(lines).value + 1..]
  {
  }

  /** The first hit in the match results of the lines is a sender line. */
  lemma SenderLineOfHit(lines: seq<string>, found: seq<seq<string>>, i: nat)
    requires |found| == |lines| && forall k | 0 <= k < |lines| :: found[k] == Matches(lines[k])
    requires 2 * i < |found| && found[i] != [] && forall k | 0 <= k < i :: found[k] == []
    ensures SenderLine(lines, i, found[i][0])
  {
    forall k | 0 <= k < i
      ensures Matches(lines[k]) == []
    {
      assert found[k] == Matches(lines[k]);
    }
    assert found[i] == Matches(lines[i]);
  }

  /** The number found is the leftmost match of its line: a match of the
      pattern, at least ten characters long, with no match starting further
      left in that line. */
  lemma LocatedIsLeftmostPhone(lines: seq<string>)
    requires Locate(lines).Some?
    ensures IsPhone(Locate(lines).value.phoneNumber)
    ensures |Locate(lines).value.phoneNumber| >= 10
    ensures HitIndex(lines).Some? && HitIndex(lines).value < |lines|
    ensures IsLeftmostMatch(lines[HitIndex(lines).value], Locate(lines).value.phoneNumber)
  {
    LocateFindsFirstHit(lines);
    var line := lines[HitIndex(lines).value];
    FirstMatchIsLeftmost(line);
  }

  /** With no lines, nothing is found. */
  lemma LocateEmpty()
    ensures Locate([]).None?
  {
  }

  /** index.js:113-123: scan the top half, take the first match of the first
      hit, and splice away the lines up to and including the hit. */
  method LocateSender(lines0: seq<string>) returns (phoneNumber: Option<string>, lines: seq<string>)
    ensures Locate(lines0).None? ==> phoneNumber.None? && lines == lines0
    ensures Locate(lines0).Some? ==>
              phoneNumber == Some(Locate(lines0).value.phoneNumber) && lines == Locate(lines0).value.rest
  {
    phoneNumber := None;
    lines := lines0;
    var i := 0;
    while (i as real) < (|lines| as real) / 2.0
      invariant lines == lines0 && phoneNumber.None?
      invariant 2 * i <= |lines0| + 1
      invariant NoHitBefore(lines0, i)
      decreases |lines0| - i
    {
      InWindowIff(i, |lines|);
      var line := lines[i];
      var m := Matches(line);
      if m != [] {
        HitAt(lines0, i);
        phoneNumber := Some(m[0]);
        lines := lines[i + 1..];
        break;
      }
      MissAt(lines0, i);
      i := i + 1;
    }
    if phoneNumber.None? {
      InWindowIff(i, |lines0|);
      WindowDone(lines0, i);
    }
  }

  /** The scan has reached line `i` without a hit: the first hit from `i`
      on is the first hit of the whole search. */
  ghost predicate NoHitBefore(lines: seq<string>, i: nat) {
    FirstHitFrom(LineMatches(lines), i) == HitIndex(lines)
  }

  /** A line of the window with a match, reached without an earlier hit,
      gives the outcome of the search. */
  lemma HitAt(lines: seq<string>, i: nat)
    requires 2 * i < |lines| && Matches(lines[i]) != [] && NoHitBefore(lines, i)
    ensures Locate(lines).Some?
    ensures Locate(lines).value.phoneNumber == Matches(lines[i])[0]
    ensures Locate(lines).value.rest == lines[i + 1..]
  {
    LineMatchesAt(lines, i);
    HitIndexAt(lines, i);
    LocateOfHit(lines, i);
  }

  lemma LineMatchesAt(lines: seq<string>, i: nat)
    requires i < |lines|
    ensures LineMatches(lines)[i] == Matches(lines[i])
  {
  }

  lemma HitIndexAt(lines: seq<string>, i: nat)
    requires 2 * i < |lines| && LineMatches(lines)[i] != [] && NoHitBefore(lines, i)
    ensures HitIndex(lines) == Some(i)
  {
  }

  lemma LocateOfHit(lines: seq<string>, i: nat)
    requires HitIndex(lines) == Some(i)
    ensures i < |lines| && Locate(lines).Some?
    ensures Locate(lines).value.phoneNumber == LineMatches(lines)[i][0]
    ensures Locate(lines).value.rest == lines[i + 1..]
  {
    assert Locate(lines).Some?;
    LocateAtHit(lines);
  }

  /** A line of the window with no match moves the scan on. */
  lemma MissAt(lines: seq<string>, i: nat)
    requires 2 * i < |lines| && Matches(lines[i]) == [] && NoHitBefore(lines, i)
    ensures NoHitBefore(lines, i + 1)
  {
    LineMatchesAt(lines, i);
  }

  /** A scan that leaves the window without a hit finds nothing. */
  lemma WindowDone(lines: seq<string>, i: nat)
    requires 2 * i >= |lines| && NoHitBefore(lines, i)
    ensures Locate(lines).None?
  {
  }
}
