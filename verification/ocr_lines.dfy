/** From the rows of the OCR table to the lines of the screenshot
    (index.js:101-111): the rows the engine is confident about are kept,
    grouped by the text block they belong to, and each block's words are
    joined by single spaces into one line. */
module OcrLines {
  import opened Seqs

  /** The `conf` column read as a JavaScript number: NaN when it is not
      numeric. */
  datatype Conf = NaN | Num(value: real)

  /** One row of the parsed table: confidence, block number and word. */
  datatype Row = Row(conf: Conf, blockNum: nat, text: string)

  /** The smallest confidence a word needs to be kept. */
  const MinConf: real := 1.0

  /** `Number(conf) >= 1`; every comparison with NaN is false. */
  predicate Confident(row: Row) {
    match row.conf
    case NaN => false
    case Num(v) => v >= MinConf
  }

  // ---------------------------------------------------------------------
  // Confidence filter

  /** The rows whose confidence is at least MinConf, in table order. */
  function KeepConfident(rows: seq<Row>): (r: seq<Row>)
    ensures forall row :: row in r <==> row in rows && Confident(row)
    ensures forall row :: row in r ==> row.conf.Num? && row.conf.value >= 1.0
    ensures IsSubsequence(r, rows)
  {
    FilterIsSubsequence(Confident, rows);
    Filter(Confident, rows)
  }

  /** A kept row is kept as many times as it occurs, a dropped row never. */
  lemma KeepConfidentCounts(rows: seq<Row>, row: Row)
    ensures multiset(KeepConfident(rows))[row] == if Confident(row) then multiset(rows)[row] else 0
  {
    FilterMultiplicity(Confident, rows, row);
  }

  /** Rows with confidence -1 (the engine's marker for non-word rows) or a
      non-numeric confidence never survive. */
  lemma KeepConfidentDropsMarkers(rows: seq<Row>, b: nat, t: string)
    ensures Row(Num(-1.0), b, t) !in KeepConfident(rows)
    ensures Row(NaN, b, t) !in KeepConfident(rows)
    ensures Row(Num(1.0), b, t) in rows ==> Row(Num(1.0), b, t) in KeepConfident(rows)
  {
  }

  // ---------------------------------------------------------------------
  // Grouping by block

  /** The block numbers that occur in `rows`. */
  function BlockNums(rows: seq<Row>): (ks: set<nat>)
    ensures forall b :: b in ks <==> exists row :: row in rows && row.blockNum == b
  {
    set row | row in rows :: row.blockNum
  }

  /** The words of block `b`, in table order, whether or not its rows are
      adjacent. */
  function TextsOf(rows: seq<Row>, b: nat): (r: seq<string>)
    ensures |r| <= |rows|
    ensures r == [] <==> b !in BlockNums(rows)
  {
    if rows == [] then []
    else
      var last := rows[|rows| - 1];
      var init := rows[..|rows| - 1];
      assert rows == init + [last];
      TextsOf(init, b) + (if last.blockNum == b then [last.text] else [])
  }

  /** Whether a row belongs to block `b`. */
  function InBlock(b: nat): Row -> bool { (row: Row) => row.blockNum == b }

  /** TextsOf agrees with filtering the rows of the block and taking their
      words. */
  lemma {:induction false} TextsOfIsFilter(rows: seq<Row>, b: nat)
    ensures TextsOf(rows, b) == WordsOf(Filter(InBlock(b), rows))
  {
    if rows != [] {
      var last := rows[|rows| - 1];
      var init := rows[..|rows| - 1];
      assert rows == init + [last];
      var kept := Filter(InBlock(b), init);
      var tail := Filter(InBlock(b), [last]);
      TextsOfIsFilter(init, b);
      FilterConcat(InBlock(b), init, [last]);
      LastWords(last, b);
      WordsOfConcat(kept, tail);
    }
  }

  /** The words a single row contributes to block `b`. */
  lemma LastWords(last: Row, b: nat)
    ensures WordsOf(Filter(InBlock(b), [last])) == if last.blockNum == b then [last.text] else []
  {
    assert [last][1..] == [];
  }

  /** The word column of a sequence of rows. */
  function WordsOf(rows: seq<Row>): (r: seq<string>)
    ensures |r| == |rows|
    ensures forall k | 0 <= k < |rows| :: r[k] == rows[k].text
  {
    if rows == [] then [] else [rows[0].text] + WordsOf(rows[1..])
  }

  lemma WordsOfConcat(a: seq<Row>, b: seq<Row>)
    ensures WordsOf(a + b) == WordsOf(a) + WordsOf(b)
  {
  }

  /** The dictionary filled at index.js:106-110: each block number present
      in `rows` maps to the words of that block, in table order. The
      per-block arrays are extended in place; here the map is reassigned. */
  method GroupByBlock(rows: seq<Row>) returns (groups: map<nat, seq<string>>)
    ensures groups.Keys == BlockNums(rows)
    ensures forall b | b in groups :: groups[b] == TextsOf(rows, b)
  {
    groups := map[];
    for i := 0 to |rows|
      invariant groups.Keys == BlockNums(rows[..i])
      invariant forall b | b in groups :: groups[b] == TextsOf(rows[..i], b)
    {
      var row := rows[i];
      assert rows[..i + 1] == rows[..i] + [row];
      assert rows[..i + 1][..i] == rows[..i];
      if row.blockNum !in groups {
        groups := groups[row.blockNum := []];
      }
      groups := groups[row.blockNum := groups[row.blockNum] + [row.text]];
    }
    assert rows[..|rows|] == rows;
  }

  // ---------------------------------------------------------------------
  // Object.values order

  lemma LeastExists(ks: set<nat>)
    requires ks != {}
    ensures exists m :: m in ks && forall k | k in ks :: m <= k
  {
    var x :| x in ks;
    LeastAtMost(ks, x);
  }

  /** Some element no larger than `x` is the least: descend while a smaller
      one exists. */
  lemma {:induction false} LeastAtMost(ks: set<nat>, x: nat)
    requires x in ks
    ensures exists m :: m in ks && m <= x && forall k | k in ks :: m <= k
    decreases x
  {
    if !forall k | k in ks :: x <= k {
      var y :| y in ks && y < x;
      LeastAtMost(ks, y);
    }
  }

  /** The least element of a non-empty set of block numbers. */
  function Least(ks: set<nat>): (m: nat)
    requires ks != {}
    ensures m in ks && forall k | k in ks :: m <= k
  {
    LeastExists(ks);
    var m :| m in ks && forall k | k in ks :: m <= k;
    m
  }

  /** Strictly increasing. */
  predicate Ascending(ks: seq<nat>) {
    forall p, q | 0 <= p < q < |ks| :: ks[p] < ks[q]
  }

  /** A key below every key of an ascending sequence can go in front. */
  lemma ConsAscending(m: nat, rest: seq<nat>)
    requires Ascending(rest) && forall k | k in rest :: m < k
    ensures Ascending([m] + rest)
  {
    var r := [m] + rest;
    forall p, q | 0 <= p < q < |r|
      ensures r[p] < r[q]
    {
      assert r[q] == rest[q - 1] && r[q] in rest;
      if p > 0 {
        assert r[p] == rest[p - 1];
      }
    }
  }

  /** The order in which Object.values visits integer-like keys: ascending
      numeric order, whatever the order of insertion. */
  function AscendingKeys(ks: set<nat>): (r: seq<nat>)
    ensures forall k :: k in r <==> k in ks
    ensures Ascending(r)
    ensures |r| == |ks|
    decreases |ks|
  {
    if ks == {} then []
    else
      var m := Least(ks);
      var rest := AscendingKeys(ks - {m});
      ConsAscending(m, rest);
      [m] + rest
  }

  /** `Object.values(groups).map(words => words.join(" "))`. */
  function JoinedValues(groups: map<nat, seq<string>>): (lines: seq<string>)
    ensures |lines| == |groups.Keys|
  {
    var keys := AscendingKeys(groups.Keys);
    seq(|keys|, k requires 0 <= k < |keys| => Join(" ", groups[keys[k]]))
  }

  /** The lines the handler works on, described directly on the rows: one
      per block, in ascending block order, each the space-join of the
      block's words. */
  function LinesOf(rows: seq<Row>): (lines: seq<string>)
    ensures |lines| == |BlockNums(rows)|
  {
    var keys := AscendingKeys(BlockNums(rows));
    seq(|keys|, k requires 0 <= k < |keys| => Join(" ", TextsOf(rows, keys[k])))
  }

  /** index.js:106-111: group the rows, then join each group. */
  method ReassembleLines(rows: seq<Row>) returns (lines: seq<string>)
    ensures lines == LinesOf(rows)
    ensures |lines| == |BlockNums(rows)|
  {
    var groups := GroupByBlock(rows);
    lines := JoinedValues(groups);
  }

  // ---------------------------------------------------------------------
  // Every word lands in exactly one line

  /** The number of words in the groups of the blocks `ks`. */
  function WordCount(rows: seq<Row>, ks: seq<nat>): nat {
    if ks == [] then 0 else |TextsOf(rows, ks[0])| + WordCount(rows, ks[1..])
  }

  /** How many times `b` occurs in `ks`. */
  function Occurrences(ks: seq<nat>, b: nat): nat {
    if ks == [] then 0 else (if ks[0] == b then 1 else 0) + Occurrences(ks[1..], b)
  }

  lemma {:induction false} WordCountSnoc(rows: seq<Row>, last: Row, ks: seq<nat>)
    ensures WordCount(rows + [last], ks) == WordCount(rows, ks) + Occurrences(ks, last.blockNum)
  {
    if ks != [] {
      WordCountSnoc(rows, last, ks[1..]);
      var all := rows + [last];
      assert all[..|all| - 1] == rows;
    }
  }

  lemma {:induction false} OccursOnce(ks: seq<nat>, b: nat)
    requires Ascending(ks) && b in ks
    ensures Occurrences(ks, b) == 1
  {
    AscendingTail(ks);
    if ks[0] == b {
      OccursNever(ks[1..], b);
    } else {
      OccursOnce(ks[1..], b);
    }
  }

  lemma {:induction false} OccursNever(ks: seq<nat>, b: nat)
    requires Ascending(ks) && forall k | k in ks :: b < k
    ensures Occurrences(ks, b) == 0
  {
    if ks != [] {
      AscendingTail(ks);
      assert ks[0] in ks;
      OccursNever(ks[1..], b);
    }
  }

  /** The tail of an ascending sequence is ascending and holds exactly the
      elements other than the head. */
  lemma AscendingTail(ks: seq<nat>)
    requires Ascending(ks) && ks != []
    ensures Ascending(ks[1..])
    ensures forall k :: k in ks[1..] <==> k in ks && k != ks[0]
  {
    assert forall q | 0 <= q < |ks[1..]| :: ks[1..][q] == ks[q + 1];
    forall k | k in ks && k != ks[0]
      ensures k in ks[1..]
    {
      var p :| 0 <= p < |ks| && ks[p] == k;
      assert ks[1..][p - 1] == k;
    }
  }

  /** Over any ascending list of blocks that covers the table, the groups
      hold every word exactly once. */
  lemma {:induction false} WordsPartitioned(rows: seq<Row>, ks: seq<nat>)
    requires Ascending(ks) && forall b | b in BlockNums(rows) :: b in ks
    ensures WordCount(rows, ks) == |rows|
  {
    if rows == [] {
      EmptyWordCount(ks);
    } else {
      var last := rows[|rows| - 1];
      var init := rows[..|rows| - 1];
      assert rows == init + [last];
      assert last in rows;
      WordsPartitioned(init, ks);
      WordCountSnoc(init, last, ks);
      OccursOnce(ks, last.blockNum);
    }
  }

  lemma {:induction false} EmptyWordCount(ks: seq<nat>)
    ensures WordCount([], ks) == 0
  {
    if ks != [] {
      EmptyWordCount(ks[1..]);
    }
  }

  /** The lines of the screenshot hold all the kept words: the groups of the
      blocks, in the order the lines come out, count |rows| words. */
  lemma LinesHoldEveryWord(rows: seq<Row>)
    ensures WordCount(rows, AscendingKeys(BlockNums(rows))) == |rows|
  {
    WordsPartitioned(rows, AscendingKeys(BlockNums(rows)));
  }

  // ---------------------------------------------------------------------
  // Ascending order versus first appearance

  /** The distinct block numbers in order of first appearance. */
  function FirstAppearance(rows: seq<Row>): (r: seq<nat>)
    ensures forall b :: b in r <==> b in BlockNums(rows)
    ensures forall p, q | 0 <= p < q < |r| :: r[p] != r[q]
  {
    if rows == [] then []
    else
      var last := rows[|rows| - 1];
      var init := rows[..|rows| - 1];
      assert rows == init + [last];
      var r := FirstAppearance(init);
      if last.blockNum in r then r else r + [last.blockNum]
  }

  /** The position of the first row of block `b`. */
  function FirstIndex(rows: seq<Row>, b: nat): (k: nat)
    requires b in BlockNums(rows)
    ensures k < |rows| && rows[k].blockNum == b
  {
    if rows[0].blockNum == b then 0
    else
      assert b in BlockNums(rows[1..]) by {
        var row :| row in rows && row.blockNum == b;
        var j :| 0 <= j < |rows| && rows[j] == row;
        assert rows[1..][j - 1] == row;
      }
      1 + FirstIndex(rows[1..], b)
  }

  /** No row of block `b` comes before its first one. */
  lemma {:induction false} FirstIndexLeast(rows: seq<Row>, b: nat, j: nat)
    requires j < |rows| && rows[j].blockNum == b
    ensures b in BlockNums(rows) && FirstIndex(rows, b) <= j
  {
    assert rows[j] in rows;
    if rows[0].blockNum != b {
      assert rows[1..][j - 1] == rows[j];
      FirstIndexLeast(rows[1..], b, j - 1);
    }
  }

  /** Appending a row leaves the first row of an earlier block where it was;
      a block that starts with the new row starts at its position. */
  lemma FirstIndexSnoc(init: seq<Row>, last: Row, b: nat)
    requires b in BlockNums(init) || last.blockNum == b
    ensures b in BlockNums(init + [last])
    ensures b in BlockNums(init) ==> FirstIndex(init + [last], b) == FirstIndex(init, b)
    ensures b !in BlockNums(init) ==> FirstIndex(init + [last], b) == |init|
  {
    var rows := init + [last];
    assert last in rows;
    var k := FirstIndex(rows, b);
    assert forall j | 0 <= j < |init| :: rows[j] == init[j] && init[j] in init;
    if b in BlockNums(init) {
      var k' := FirstIndex(init, b);
      FirstIndexLeast(rows, b, k');
      FirstIndexLeast(init, b, k);
    }
  }

  /** `r` lists blocks of `rows` in the order of their first rows. */
  ghost predicate OrderedByFirstRow(rows: seq<Row>, r: seq<nat>) {
    (forall k | 0 <= k < |r| :: r[k] in BlockNums(rows))
    && forall p, q | 0 <= p < q < |r| :: FirstIndex(rows, r[p]) < FirstIndex(rows, r[q])
  }

  /** Blocks come out of FirstAppearance in the order of their first rows. */
  lemma {:induction false} FirstAppearanceOrder(rows: seq<Row>)
    ensures OrderedByFirstRow(rows, FirstAppearance(rows))
  {
    if rows != [] {
      var last := rows[|rows| - 1];
      var init := rows[..|rows| - 1];
      assert rows == init + [last];
      var r0 := FirstAppearance(init);
      assert FirstAppearance(rows) == if last.blockNum in r0 then r0 else r0 + [last.blockNum];
      FirstAppearanceOrder(init);
      OrderedSnoc(init, last, r0);
    }
  }

  /** A row of a new block puts that block last; a row of a known block
      changes no first row. */
  lemma OrderedSnoc(init: seq<Row>, last: Row, r0: seq<nat>)
    requires OrderedByFirstRow(init, r0)
    requires forall b :: b in r0 <==> b in BlockNums(init)
    ensures OrderedByFirstRow(init + [last], if last.blockNum in r0 then r0 else r0 + [last.blockNum])
  {
    var rows := init + [last];
    var r := if last.blockNum in r0 then r0 else r0 + [last.blockNum];
    forall p | 0 <= p < |r0|
      ensures r[p] == r0[p] && r0[p] in BlockNums(rows)
      ensures FirstIndex(rows, r0[p]) == FirstIndex(init, r0[p]) < |init|
    {
      FirstIndexSnoc(init, last, r0[p]);
    }
    if last.blockNum !in r0 {
      FirstIndexSnoc(init, last, last.blockNum);
    }
  }

  /** Two ascending sequences with the same elements are equal. */
  lemma {:induction false} AscendingUnique(a: seq<nat>, b: seq<nat>)
    requires Ascending(a) && Ascending(b)
    requires forall k :: k in a <==> k in b
    ensures a == b
  {
    assert b != [] ==> b[0] in a;
    if a != [] {
      assert a[0] in b;
      var q :| 0 <= q < |b| && b[q] == a[0];
      assert b[0] in a;
      var p :| 0 <= p < |a| && a[p] == b[0];
      assert a[0] <= a[p] && b[0] <= b[q];
      AscendingTail(a);
      AscendingTail(b);
      AscendingUnique(a[1..], b[1..]);
      assert a == [a[0]] + a[1..] && b == [b[0]] + b[1..];
    }
  }

  /** The lines follow the order in which blocks first appear in the table
      exactly when the blocks first appear in increasing order. */
  lemma AscendingIsFirstAppearanceIff(rows: seq<Row>)
    ensures AscendingKeys(BlockNums(rows)) == FirstAppearance(rows)
            <==> Ascending(FirstAppearance(rows))
  {
    if Ascending(FirstAppearance(rows)) {
      AscendingUnique(AscendingKeys(BlockNums(rows)), FirstAppearance(rows));
    }
  }

  lemma AscendingKeysOneTwo()
    ensures AscendingKeys({1, 2}) == [1, 2]
  {
    assert Least({1, 2}) == 1;
    assert {1, 2} - {1} == {2};
    assert Least({2}) == 2;
    assert {2} - {2} == {};
  }

  lemma OutOfOrderTexts(rows: seq<Row>)
    requires rows == [Row(Num(90.0), 2, "SPAM"), Row(Num(95.0), 1, "hello")]
    ensures TextsOf(rows, 1) == ["hello"] && TextsOf(rows, 2) == ["SPAM"]
    ensures FirstAppearance(rows) == [2, 1]
  {
    assert rows[..1] == [rows[0]];
    assert [rows[0]][..0] == [];
    assert FirstAppearance([rows[0]]) == [2];
  }

  /** A table whose second block is printed first: the lines still come out
      block 1 first. */
  lemma OutOfOrderBlocks()
    ensures var rows := [Row(Num(90.0), 2, "SPAM"), Row(Num(95.0), 1, "hello")];
      FirstAppearance(rows) == [2, 1] && LinesOf(rows) == ["hello", "SPAM"]
  {
    var rows := [Row(Num(90.0), 2, "SPAM"), Row(Num(95.0), 1, "hello")];
    OutOfOrderTexts(rows);
    assert BlockNums(rows) == {1, 2};
    AscendingKeysOneTwo();
  }

  lemma SplitBlockTexts(rows: seq<Row>)
    requires rows == [Row(Num(96.0), 1, "0917"), Row(Num(91.0), 2, "SPAM"), Row(Num(96.0), 1, "555")]
    ensures TextsOf(rows, 1) == ["0917", "555"] && TextsOf(rows, 2) == ["SPAM"]
  {
    var two := [rows[0], rows[1]];
    assert rows[..2] == two;
    assert two[..1] == [rows[0]];
    assert TextsOf(two, 1) == ["0917"];
    assert TextsOf(two, 2) == ["SPAM"];
  }

  /** Rows of one block separated by another block end up on one line. */
  lemma SplitBlockJoined()
    ensures var rows := [Row(Num(96.0), 1, "0917"), Row(Num(91.0), 2, "SPAM"), Row(Num(96.0), 1, "555")];
      LinesOf(rows) == ["0917 555", "SPAM"]
  {
    var rows := [Row(Num(96.0), 1, "0917"), Row(Num(91.0), 2, "SPAM"), Row(Num(96.0), 1, "555")];
    SplitBlockTexts(rows);
    assert BlockNums(rows) == {1, 2};
    AscendingKeysOneTwo();
    var lines := LinesOf(rows);
    assert lines[0] == Join(" ", ["0917", "555"]);
    assert lines[1] == Join(" ", ["SPAM"]);
    SplitBlockLine();
    assert lines == [lines[0], lines[1]];
  }

  lemma SplitBlockLine()
    ensures Join(" ", ["0917", "555"]) == "0917 555"
  {
    JoinPair(" ", "0917", "555");
  }

  /** Two words joined with a separator. */
  lemma JoinPair(sep: string, x: string, y: string)
    ensures Join(sep, [x, y]) == x + sep + y
  {
    assert [x, y][1..] == [y];
  }
}
