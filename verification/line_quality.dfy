/** The filter that drops lines made mostly of symbols (index.js:133-137).
    A line is kept when the characters matched by `[a-z0-9]` (case
    insensitive: the ASCII letters and digits) outnumber those matched by
    `[^a-z0-9]`. Both patterns are global and run without the `u` flag, so
    they count UTF-16 code units: a character above U+FFFF is two code units,
    each matched by `[^a-z0-9]`. A match that finds nothing gives null, and
    `null?.length || 0` is 0. */
module LineQuality {
  import opened Seqs

  /** `[a-z0-9]` with the `i` flag. */
  predicate IsAsciiAlnum(c: char) {
    'a' <= c <= 'z' || 'A' <= c <= 'Z' || '0' <= c <= '9'
  }

  /** Number of UTF-16 code units that encode `c`. */
  function CodeUnits(c: char): (n: nat)
    ensures 1 <= n <= 2
  {
    if c <= '\U{FFFF}' then 1 else 2
  }

  /** `line.length` in JavaScript: the number of UTF-16 code units. */
  function Utf16Length(line: string): (n: nat)
    ensures |line| <= n <= 2 * |line|
  {
    if line == [] then 0 else CodeUnits(line[0]) + Utf16Length(line[1..])
  }

  /** `line.match(/[a-z0-9]/gmi)?.length || 0` */
  function OkCount(line: string): (n: nat)
    ensures n <= |line|
  {
    CountWhere(IsAsciiAlnum, line)
  }

  /** `line.match(/[^a-z0-9]/gmi)?.length || 0` */
  function NotOkCount(line: string): (n: nat)
    ensures n <= Utf16Length(line)
  {
    if line == [] then 0
    else (if IsAsciiAlnum(line[0]) then 0 else CodeUnits(line[0])) + NotOkCount(line[1..])
  }

  /** Every code unit of the line is counted by exactly one of the two
      patterns. */
  lemma {:induction false} CountsCoverLine(line: string)
    ensures OkCount(line) + NotOkCount(line) == Utf16Length(line)
  {
    if line != [] {
      CountsCoverLine(line[1..]);
    }
  }

  /** The test of index.js:136. */
  predicate Readable(line: string) {
    OkCount(line) > NotOkCount(line)
  }

  /** A line is kept exactly when letters and digits make up more than half
      of its length; an empty line and an even split are dropped. */
  lemma ReadableIffMajority(line: string)
    ensures Readable(line) <==> 2 * OkCount(line) > Utf16Length(line)
    ensures line == [] ==> !Readable(line)
    ensures 2 * OkCount(line) == Utf16Length(line) ==> !Readable(line)
  {
    CountsCoverLine(line);
  }

  /** On a line of characters up to U+FFFF the length is the number of
      characters. */
  lemma {:induction false} BmpLength(line: string)
    requires forall k | 0 <= k < |line| :: line[k] <= '\U{FFFF}'
    ensures Utf16Length(line) == |line|
  {
    if line != [] {
      BmpLength(line[1..]);
    }
  }

  /** The kept lines, in their original order. */
  function KeepReadable(lines: seq<string>): (r: seq<string>)
    ensures forall l :: l in r <==> l in lines && Readable(l)
    ensures IsSubsequence(r, lines)
    ensures forall l :: multiset(r)[l] == if Readable(l) then multiset(lines)[l] else 0
  {
    FilterIsSubsequence(Readable, lines);
    forall l ensures multiset(Filter(Readable, lines))[l] == if Readable(l) then multiset(lines)[l] else 0 {
      FilterMultiplicity(Readable, lines, l);
    }
    Filter(Readable, lines)
  }

  /** `kept` is `lines` with exactly the unreadable lines taken out: in
      order, every readable line as often as it occurs, and nothing else. */
  ghost predicate ReadableSelection(kept: seq<string>, lines: seq<string>) {
    IsSubsequence(kept, lines)
    && (forall l :: l in kept <==> l in lines && Readable(l))
    && forall l :: multiset(kept)[l] == if Readable(l) then multiset(lines)[l] else 0
  }

  /** Filtering the kept lines again keeps all of them. */
  lemma KeepReadableIdempotent(lines: seq<string>)
    ensures KeepReadable(KeepReadable(lines)) == KeepReadable(lines)
  {
    FilterIdempotent(Readable, lines);
  }

  /** Filtering a concatenation filters each part. */
  lemma KeepReadableConcat(a: seq<string>, b: seq<string>)
    ensures KeepReadable(a + b) == KeepReadable(a) + KeepReadable(b)
  {
    FilterConcat(Readable, a, b);
  }

  /** A line of ASCII letters and digits only: every character counts as ok
      and none as not ok. */
  lemma {:induction false} AlnumCounts(line: string)
    requires forall k | 0 <= k < |line| :: IsAsciiAlnum(line[k])
    ensures OkCount(line) == |line| && NotOkCount(line) == 0
  {
    if line != [] {
      AlnumCounts(line[1..]);
    }
  }

  /** A line with no ASCII letter or digit counts nothing as ok. */
  lemma {:induction false} NoAlnumCounts(line: string)
    requires forall k | 0 <= k < |line| :: !IsAsciiAlnum(line[k])
    ensures OkCount(line) == 0
  {
    if line != [] {
      NoAlnumCounts(line[1..]);
    }
  }

  /** A non-empty line of letters and digits is kept; a line without any
      is dropped. */
  lemma PureLines(line: string)
    ensures line != [] && (forall k | 0 <= k < |line| :: IsAsciiAlnum(line[k])) ==> Readable(line)
    ensures (forall k | 0 <= k < |line| :: !IsAsciiAlnum(line[k])) ==> !Readable(line)
  {
    if forall k | 0 <= k < |line| :: IsAsciiAlnum(line[k]) {
      AlnumCounts(line);
    }
    if forall k | 0 <= k < |line| :: !IsAsciiAlnum(line[k]) {
      NoAlnumCounts(line);
    }
  }

  /** A line of words and digits is kept. */
  lemma WordsKept()
    ensures Readable("hello123")
  {
    PureLines("hello123");
  }

  /** A line of symbols is dropped. */
  lemma SymbolsDropped()
    ensures !Readable("!!!##")
  {
    PureLines("!!!##");
  }

  /** One letter and one symbol tie, and a tie is dropped. */
  lemma TieDropped()
    ensures !Readable("a!")
  {
    CountsCoverLine("a!");
    assert OkCount("a!") == 1;
  }

  /** Two letters and an emoji: the emoji is two code units, so the line is
      a tie and is dropped. */
  lemma AstralCharCountsTwice()
    ensures !Readable("ab\U{1F600}")
  {
    var line := "ab\U{1F600}";
    CountsCoverLine(line);
    assert line[1..][1..] == "\U{1F600}";
    assert Utf16Length(line) == 4;
    assert OkCount(line) == 2;
  }
}
