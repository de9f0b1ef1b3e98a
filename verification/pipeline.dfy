/** The text-extraction steps of the message handler (index.js:101-142),
    from the parsed OCR table to the sender's number, every number the
    message mentions and the cleaned message text. */
module Pipeline {
  import opened Seqs
  import opened PhonePattern
  import opened OcrLines
  import opened SenderLocator
  import opened LineQuality

  /** What the handler goes on to record: `phoneNumber`, `numbersFound` and
      `text`. */
  datatype Extraction = Extraction(phoneNumber: string, numbersFound: seq<string>, text: string)

  /** `[phoneNumber].concat(lines).join(" ")`, the text searched for every
      number. */
  function NumbersText(phoneNumber: string, kept: seq<string>): (r: string)
    ensures phoneNumber <= r
  {
    Join(" ", [phoneNumber] + kept)
  }

  /** The lines of a table: confident rows grouped into blocks. */
  function TableLines(table: seq<Row>): (lines: seq<string>)
    ensures |lines| == |BlockNums(KeepConfident(table))|
  {
    LinesOf(KeepConfident(table))
  }

  /** The outcome of the extraction, or None when no number is found in the
      top half of the lines (the handler then replies and stops). */
  function Extract(table: seq<Row>): (r: Option<Extraction>)
    ensures r.None? <==> Locate(TableLines(table)).None?
  {
    match Locate(TableLines(table))
    case None => None
    case Some(loc) =>
      var kept := KeepReadable(loc.rest);
      Some(Extraction(loc.phoneNumber, Matches(NumbersText(loc.phoneNumber, kept)), Join("\n", kept)))
  }

  /** index.js:101-142 without the I/O between the steps. */
  method ExtractMessage(table: seq<Row>) returns (result: Option<Extraction>)
    ensures result == Extract(table)
  {
    var data := KeepConfident(table);
    var lines := ReassembleLines(data);
    var phoneNumber, remaining := LocateSender(lines);
    if phoneNumber.None? {
      return None;
    }
    var kept := KeepReadable(remaining);
    var text := Join("\n", kept);
    var numbersFound := Matches(Join(" ", [phoneNumber.value] + kept));
    result := Some(Extraction(phoneNumber.value, numbersFound, text));
  }

  /** The extraction stops exactly when no line in the top half of the table
      has a match; in particular when no row is confident enough. */
  lemma ExtractStopsIff(table: seq<Row>)
    ensures var lines := TableLines(table);
      Extract(table).None? <==> forall k | 0 <= k && 2 * k < |lines| :: Matches(lines[k]) == []
    ensures KeepConfident(table) == [] ==> Extract(table).None?
  {
    var lines := TableLines(table);
    LocateFailsIff(lines);
    if KeepConfident(table) == [] {
      assert BlockNums(KeepConfident(table)) == {};
      assert lines == [];
      LocateEmpty();
    }
  }

  /** The sender's number is the first match of the first top-half line
      that has one; it is the leftmost match of that line, and a phone number
      of at least ten characters. */
  lemma ExtractedSender(table: seq<Row>)
    requires Extract(table).Some?
    ensures IsPhone(Extract(table).value.phoneNumber)
    ensures |Extract(table).value.phoneNumber| >= 10
    ensures HitIndex(TableLines(table)).Some?
    ensures SenderLine(TableLines(table), HitIndex(TableLines(table)).value, Extract(table).value.phoneNumber)
    ensures IsLeftmostMatch(TableLines(table)[HitIndex(TableLines(table)).value], Extract(table).value.phoneNumber)
  {
    var lines := TableLines(table);
    assert Extract(table).value.phoneNumber == Locate(lines).value.phoneNumber;
    LocatedIsLeftmostPhone(lines);
    LocateFindsFirstHit(lines);
  }

  /** The sender's number is the greedy match `L[lo..hi]` of its line. In
      the search text it is followed by a space or by nothing, so the global
      search finds it again, whole, as its first element. */
  lemma SearchFromSender(L: string, lo: nat, hi: nat, kept: seq<string>)
    requires lo <= hi <= |L| && IsGreedyAt(L, lo, hi)
    ensures var t := NumbersText(L[lo..hi], kept);
      Matches(t) != [] && Matches(t)[0] == L[lo..hi]
  {
    var phone := L[lo..hi];
    var t := NumbersText(phone, kept);
    assert t[..hi - lo] == phone;
    if kept == [] {
      assert t == phone;
    } else {
      assert phone + " " <= t;
      assert t[hi - lo] == ' ';
    }
    MatchesStartWithGreedy(L, lo, hi, t);
  }

  /** `numbersFound` is never null and starts with the sender's number
      itself: the search text begins with that number, followed by a space
      or by nothing. */
  lemma NumbersFoundStartAtSender(table: seq<Row>)
    requires Extract(table).Some?
    ensures var x := Extract(table).value;
      var t := NumbersText(x.phoneNumber, KeepReadable(Locate(TableLines(table)).value.rest));
      x.numbersFound == Matches(t) && x.numbersFound != []
      && x.numbersFound[0] == x.phoneNumber && IsPhone(x.numbersFound[0])
  {
    var lines := TableLines(table);
    var loc := Locate(lines).value;
    var kept := KeepReadable(loc.rest);
    var x := Extract(table).value;
    assert x.phoneNumber == loc.phoneNumber && x.numbersFound == Matches(NumbersText(loc.phoneNumber, kept));
    LocatedIsLeftmostPhone(lines);
    var line := lines[HitIndex(lines).value];
    var lo: nat, hi: nat :| IsGreedyAt(line, lo, hi) && lo <= hi <= |line|
      && loc.phoneNumber == line[lo..hi] && NoMatchIn(line, 0, lo);
    SearchFromSender(line, lo, hi, kept);
  }

  /** `text` is the newline join of the lines below the sender's line that
      are readable, in their order and each as often as it occurs there. */
  lemma ExtractedText(table: seq<Row>)
    requires Extract(table).Some?
    ensures var rest := Locate(TableLines(table)).value.rest;
      Extract(table).value.text == Join("\n", KeepReadable(rest))
    ensures var rest := Locate(TableLines(table)).value.rest;
      exists kept :: Extract(table).value.text == Join("\n", kept) && ReadableSelection(kept, rest)
  {
    var rest := Locate(TableLines(table)).value.rest;
    var kept := KeepReadable(rest);
    TextIsJoin(table);
    assert ReadableSelection(kept, rest);
  }

  /** `text` joins the lines the quality filter keeps. */
  lemma TextIsJoin(table: seq<Row>)
    requires Extract(table).Some?
    ensures Extract(table).value.text == Join("\n", KeepReadable(Locate(TableLines(table)).value.rest))
  {
  }
}
