# Spam-screenshot text extraction, in Dafny

This project models the decision logic of a Telegram bot that reads screenshots
of spam text messages (`index.js`). Tesseract turns the screenshot into a table of
recognised words, one row per word or layout element: confidence, block number and text. The
handler then works in five steps:

1. It keeps the rows with confidence at least 1 (`OcrLines.KeepConfident`).
2. It groups the words by block number in a dictionary and space-joins each
   group into a line. The lines come out in ascending block order, which is the
   order `Object.values` gives integer-like keys (`OcrLines.GroupByBlock`,
   `OcrLines.ReassembleLines`).
3. It scans the top half of the lines for the phone-number pattern
   `/(63|0*9)\s*(\d{3,4})\s*(\d{3,4})\s*(\d{3,4})/gmi`. The first match of the
   first line that has one is the sender's number. That line and every line
   above it are dropped. With no match it stops (`SenderLocator.LocateSender`).
4. It drops every line whose ASCII letters and digits do not outnumber its
   other characters (`LineQuality.KeepReadable`).
5. It newline-joins the kept lines into `text`. It then searches the sender's
   number and the kept lines, space-joined, for every number (`Pipeline.Extract`,
   `Pipeline.ExtractMessage`).

It also models what happens before OCR:
- which messages the handler accepts;
- which file it fetches: the document, or else the largest photo size (`Admission`).

The pattern is given twice in `PhonePattern`:
- as a language of strings (`IsPhone`, `IsMatchAt`);
- as the end positions a backtracking matcher reaches from a start position, in
  the order it tries them (`MatchEnds`).

The two agree. `match` with the `g` flag is modelled as the leftmost,
non-overlapping matches (`Matches`). Each match ends at the first end the
matcher reaches. That end is the greedy one: among all ways to read the
match, its first digit group ends furthest right, then its second, then its
third. "0917123456789" is read whole, as "09", "1712", "3456", "789". The
shorter reading "09", "171", "234", "567" is never reported
(`PhonePattern.FourDigitGroupsGreedy`).

The modules follow the pipeline:
- `seqs.dfy` holds the generic sequence tools: filter, join, subsequence, flat-map.
- `phone_pattern.dfy` models the pattern.
- `ocr_lines.dfy` covers steps 1-2.
- `sender_locator.dfy` covers step 3.
- `line_quality.dfy` covers step 4.
- `pipeline.dfy` covers the whole procedure.
- `admission.dfy` covers the admission check and the choice of file.

Points where the code's behaviour is easy to mistake:
- Lines are ordered by ascending block number, not by the order in which
  blocks first appear in the table. `OcrLines.AscendingIsFirstAppearanceIff`
  says exactly when the two coincide.
- The scan guard `i < lines.length / 2` divides without rounding. For an odd
  number of lines the middle line is scanned too, so `(n + 1) / 2` lines are
  scanned rather than `n / 2`.
- The confidence threshold is the constant 1.
- A number written as "0917 123 4567" is not matched by the pattern. The
  `0*9` part can end only at the '9', and the group after it would be "17",
  which is too short. `PhonePattern.SpacedMobileHasNoMatch` proves this. The
  unspaced "09171234567" is matched (`PhonePattern.UnspacedMobileIsPhone`).

## Model

| member | source | states |
|---|---|---|
| `PhonePattern.MatchLength` | index.js:10 | a match of the pattern is at least ten characters long: at least one for the prefix (the shortest is the single "9"), at least three for each digit group |
| `PhonePattern.PhoneOfMatch` | index.js:10 | the text of a match found inside a line is itself a string of the pattern's language |
| `PhonePattern.RunLength` | index.js:10 | a greedy `\s*` run from `i` stays inside the text, covers only spaces, and stops at the first non-space |
| `PhonePattern.SpaceEndsSpec` | index.js:10 | the ends the matcher tries for `\s*` are exactly the positions reached over spaces only |
| `PhonePattern.GroupEndsSpec` | index.js:10 | the ends the matcher tries for `\d{3,4}` are exactly the positions after three or four digits |
| `PhonePattern.PrefixEndsSound` | index.js:10 | every end the matcher tries for the prefix group closes "63" or zeros followed by a "9" |
| `PhonePattern.PrefixEndsComplete` | index.js:10 | every occurrence of "63", or of zeros followed by a "9", at `i` is tried by the matcher |
| `PhonePattern.StepEndsSound` | index.js:10 | every end the matcher tries for `\s*\d{3,4}` closes optional spaces followed by a digit group |
| `PhonePattern.StepEndsComplete` | index.js:10 | every run of optional spaces and a digit group at `i` is tried by the matcher |
| `PhonePattern.MatchEndsSound` | index.js:10 | every end the backtracking matcher reaches from `i` closes a match: the prefix "63" or zeros then "9", then three digit groups of 3 or 4 digits, each after optional spaces |
| `PhonePattern.MatchEndsComplete` | index.js:10 | every match starting at `i` is reached by the backtracking matcher |
| `PhonePattern.NoMatchAt` | index.js:10 | when the matcher reaches no end from `i`, no match starts at `i` |
| `PhonePattern.MatchEndAt` | index.js:10 | the end reported at `i` closes a match, and there is none exactly when no match starts at `i` |
| `PhonePattern.StepEndsForced` | index.js:10 | `\s*` gives nothing back: a digit group after it can only start after the whole run of spaces |
| `PhonePattern.StepEndsDescending` | index.js:10 | the ends the matcher tries for `\s*\d{3,4}` come in strictly decreasing order, longest first |
| `PhonePattern.PrefixUnique` | index.js:10 | at a given start the prefix group `(63\|0*9)` can end in only one place |
| `PhonePattern.MatchEndsNested` | index.js:10 | the matcher's ends from `i` are, for each prefix end, the three steps chained, in backtracking order |
| `PhonePattern.FirstIsLexLargest` | index.js:10 | the split the matcher reaches first has its group ends lexicographically no smaller than those of any other match from `i` |
| `PhonePattern.FirstEndIsGreedy` | index.js:10 | the first end the matcher reaches from `i` closes the greedy match: no other reading of a match from `i` ends its first group further right, or the second with the first equal, or the third with the first two equal |
| `PhonePattern.GreedyUnique` | index.js:10 | the greedy match from `i` has one end |
| `PhonePattern.MatchEndAtIsGreedy` | index.js:10 | the end reported at `i` is the end of the greedy match, and any greedy end is the one reported |
| `PhonePattern.FirstMatchFrom` | index.js:10 | the first match from `i` starts at the leftmost position where any match starts and ends where the matcher reports for that start; None when no match starts at or after `i` |
| `PhonePattern.MatchesFrom` | index.js:10 | the global search returns matches in left-to-right order without overlap, each starting after the previous one ends and ending at the greedy end for its start; it is empty exactly when no match starts at or after `i`; that it skips no match, the tail included, is `MatchesFromLeftmost` |
| `PhonePattern.MatchesFromLeftmost` | index.js:10 | no match starts before the first match found, in the gap between two consecutive matches, or after the end of the last one; when nothing is found, no match starts at or after `i` |
| `PhonePattern.LeftmostSpansUnique` | index.js:10 | the global search is the only list of reported matches that is in order and skips no match: any such list equals `MatchesFrom(s, i)`, so the result holds every match the `g` flag finds and no other |
| `PhonePattern.Matches` | index.js:118 | `line.match(PHONE_REGEX)` is null (empty) exactly when the line has no match; each element is a string of the pattern, at least ten characters, the text of the corresponding span |
| `PhonePattern.SpansArePhones` | index.js:10 | the text of each match span is a string of the pattern on its own |
| `PhonePattern.MatchesFirstIsLeftmost` | index.js:118-120 | the first element of `match` is the text of the leftmost match of the line, ending where the matcher reports |
| `PhonePattern.FirstMatchIsLeftmost` | index.js:118-120 | the first element of a non-null `match` is the text of the greedy match that starts where no match starts further left |
| `PhonePattern.MatchesOfMatchAtStart` | index.js:142 | a text with a match at offset 0 has a non-null `match`, whose first element is a prefix of the text |
| `PhonePattern.MatchInLongerText` | index.js:142 | a match stays a match at offset 0 when more text follows it |
| `PhonePattern.DigitCount` | index.js:10 | the number of digits in a stretch of text is at most its length |
| `PhonePattern.StepBeforeNonDigit` | index.js:10 | in a step, every character up to a non-digit is a space, so no digit comes before it |
| `PhonePattern.ChainDigits` | index.js:10 | the three digit groups of a match hold at least nine digits, and a match ends on a digit |
| `PhonePattern.CrossingDigits` | index.js:10 | a match that runs over a non-digit has at most eight digits before it |
| `PhonePattern.NoMatchOverNonDigit` | index.js:10 | when a match from offset 0 ends before a non-digit or at the end of the text, no match from offset 0 ends further right |
| `PhonePattern.GreedyMatchStartsText` | index.js:142 | a greedy match copied to the start of a text, followed by a non-digit or nothing, is still the greedy match at offset 0 |
| `PhonePattern.MatchesStartWithGreedy` | index.js:142 | such a text's `match` is non-null and its first element is that match, whole |
| `PhonePattern.FourDigitGroupsGreedy` | index.js:10 | "0917123456789" has a match of 11 characters, yet the matcher reports 13 from offset 0 |
| `PhonePattern.UnspacedMobileIsPhone` | index.js:10 | "09171234567" is a string of the pattern |
| `PhonePattern.SpacedMobileHasNoMatch` | index.js:10 | "0917 123 4567" has no match at any position |
| `OcrLines.KeepConfident` | index.js:102 | a row is kept iff its confidence is a number at least 1; the kept rows keep their table order |
| `OcrLines.KeepConfidentCounts` | index.js:102 | a confident row is kept as many times as it occurs; any other row is kept zero times |
| `OcrLines.KeepConfidentDropsMarkers` | index.js:102 | rows with confidence -1 or NaN never survive; a row with confidence 1 does |
| `OcrLines.TextsOf` | index.js:106-110 | the words of a block are empty exactly when no row has that block number |
| `OcrLines.TextsOfIsFilter` | index.js:106-110 | the words of block `b` are the texts of the rows of block `b`, in table order, adjacent or not |
| `OcrLines.GroupByBlock` | index.js:106-110 | after the loop the dictionary has a key for each block number present, and each key maps to that block's words in table order |
| `OcrLines.LeastExists` | index.js:111 | a non-empty set of block numbers has a least element |
| `OcrLines.AscendingKeys` | index.js:111 | `Object.values` visits every block number once, in strictly ascending order |
| `OcrLines.AscendingUnique` | index.js:111 | two ascending lists of the same block numbers are equal, so the key order is fixed by the keys alone |
| `OcrLines.JoinedValues` | index.js:111 | one line per dictionary entry |
| `OcrLines.LinesOf` | index.js:106-111 | one line per distinct block number |
| `OcrLines.ReassembleLines` | index.js:106-111 | the lines are one per distinct block number, in ascending block order, each the space-join of the block's words |
| `OcrLines.OccursOnce` | index.js:111 | each key appears exactly once in the ascending key list |
| `OcrLines.WordsPartitioned` | index.js:106-111 | over any ascending list of blocks covering the table, the groups hold as many words as there are rows |
| `OcrLines.LinesHoldEveryWord` | index.js:106-111 | the groups behind the lines together hold every surviving word exactly once |
| `OcrLines.FirstAppearance` | index.js:106-111 | the distinct block numbers of the table, each once |
| `OcrLines.FirstIndex` | index.js:106-110 | the position of a row of block `b` |
| `OcrLines.FirstIndexLeast` | index.js:106-110 | no row of block `b` comes before `FirstIndex` |
| `OcrLines.FirstIndexSnoc` | index.js:106-110 | appending a row keeps the first row of every earlier block; a new block's first row is the appended one |
| `OcrLines.OrderedSnoc` | index.js:106-110 | appending a row keeps a first-row-ordered list of blocks ordered, with a new block put last |
| `OcrLines.FirstAppearanceOrder` | index.js:106-111 | `FirstAppearance` lists the blocks in the order of their first rows in the table |
| `OcrLines.AscendingIsFirstAppearanceIff` | index.js:111 | the lines follow first-appearance order of the blocks iff the blocks first appear in increasing order |
| `OcrLines.OutOfOrderBlocks` | index.js:111 | a table listing block 2 before block 1 still yields block 1's line first |
| `OcrLines.SplitBlockJoined` | index.js:106-111 | words of one block separated by another block are joined on one line |
| `SenderLocator.InWindowIff` | index.js:115 | the guard `i < n / 2` holds iff `2 * i < n`, that is iff `i < (n + 1) / 2` |
| `SenderLocator.OddWindowExamples` | index.js:115 | with 3 lines indices 0-1 are scanned, with 9 lines 0-4, with 10 lines 0-4, with no lines none |
| `SenderLocator.FirstHitFrom` | index.js:115-123 | the first index from `i` inside the window whose line has a match; no line between `i` and it has one; None iff no line of the window from `i` has one |
| `SenderLocator.Locate` | index.js:113-129 | on success fewer lines remain than the input had |
| `SenderLocator.LocateFailsIff` | index.js:113-129 | the search fails exactly when no line with `2 * i < n` has a match |
| `SenderLocator.LocateFindsFirstHit` | index.js:115-122 | on success the hit index `i` has `2 * i < n`, its line has a match, no earlier line has one, the number is that line's first match, and the remaining lines are exactly `lines[i+1..]` |
| `SenderLocator.SenderLineOfHit` | index.js:115-120 | the first index whose match result is non-null is the sender's line and its first match is the number |
| `SenderLocator.LocatedIsLeftmostPhone` | index.js:118-120 | the sender's number is a string of the pattern, at least ten characters, and the greedy match at the leftmost start of its line |
| `SenderLocator.LocateEmpty` | index.js:115 | with no lines the search fails |
| `SenderLocator.LocateSender` | index.js:114-124 | the loop with its `splice` and `break` ends with the number and the lines `Locate` describes, and leaves the lines untouched when nothing is found |
| `SenderLocator.HitAt` | index.js:118-122 | a line of the window whose `match` is non-null, reached with no earlier hit, gives the search's outcome: its first match and the lines after it |
| `SenderLocator.MissAt` | index.js:117-120 | a line of the window with no match leaves the first hit of the search ahead of the scan |
| `SenderLocator.WindowDone` | index.js:116 | a scan that leaves the window without a hit means the search finds nothing |
| `LineQuality.OkCount` | index.js:135 | the count of `[a-z0-9]` (case-insensitive) is at most the number of characters |
| `LineQuality.NotOkCount` | index.js:136 | the count of `[^a-z0-9]` is at most the line's UTF-16 length |
| `LineQuality.CountsCoverLine` | index.js:135-136 | the two counts add up to the line's UTF-16 length |
| `LineQuality.ReadableIffMajority` | index.js:133-137 | a line is kept iff its letters and digits are more than half its length; an empty line and a tie are dropped |
| `LineQuality.BmpLength` | index.js:135-136 | on characters up to U+FFFF the UTF-16 length is the number of characters |
| `LineQuality.KeepReadable` | index.js:133-137 | a line is kept iff it is readable; the kept lines are a subsequence of the input, in order, each readable line as often as it occurs there |
| `LineQuality.KeepReadableIdempotent` | index.js:133-137 | filtering twice keeps the same lines as filtering once |
| `LineQuality.KeepReadableConcat` | index.js:133-137 | the filter of a concatenation is the concatenation of the filters |
| `LineQuality.AlnumCounts` | index.js:135-136 | in a line of ASCII letters and digits every character counts as ok and none as not ok |
| `LineQuality.NoAlnumCounts` | index.js:135 | a line without ASCII letters or digits counts nothing as ok |
| `LineQuality.PureLines` | index.js:133-137 | a non-empty line of ASCII letters and digits is kept; a line without any is dropped |
| `LineQuality.WordsKept` | index.js:133-137 | "hello123" is kept |
| `LineQuality.SymbolsDropped` | index.js:133-137 | "!!!##" is dropped |
| `LineQuality.TieDropped` | index.js:133-137 | "a!" is a tie and is dropped |
| `LineQuality.AstralCharCountsTwice` | index.js:135-136 | "ab" followed by an emoji is a tie, because the emoji is two code units, so it is dropped |
| `Pipeline.NumbersText` | index.js:142 | the text searched for all numbers starts with the sender's number |
| `Pipeline.TableLines` | index.js:102-111 | the table yields one line per distinct block number among the confident rows |
| `Pipeline.Extract` | index.js:101-142 | the extraction yields nothing exactly when the locator finds no number |
| `Pipeline.ExtractMessage` | index.js:101-142 | the handler's steps, filter, grouping, locator loop, quality filter and aggregation, compute `Extract` |
| `Pipeline.ExtractStopsIff` | index.js:113-129 | the pipeline stops iff no line in the top half of the table's lines has a match; in particular when no row is confident |
| `Pipeline.ExtractedSender` | index.js:113-122 | the sender's number is a string of the pattern, at least ten characters, the first match of the first top-half line that has one, and the greedy match at the leftmost start of that line |
| `Pipeline.SearchFromSender` | index.js:142 | a search text that starts with the greedy match of a line, followed by a space or nothing, has a non-null `match` whose first element is that match |
| `Pipeline.NumbersFoundStartAtSender` | index.js:142 | `numbersFound` is the global search over the sender's number and the kept lines; it is never null, and its first element is the sender's number itself |
| `Pipeline.ExtractedText` | index.js:133-139 | `text` is the newline join of the filtered lines below the sender's line: in their order, exactly the readable ones, each as often as it occurs |
| `Admission.AdmitsWith` | index.js:49 | a message passes iff it has a non-empty photo list or a document whose mime type is in the list; a missing document or mime type never passes the type test |
| `Admission.Admits` | index.js:47-49 | the check as written accepts a photo or a document of type "image/jpg" or "image/png" |
| `Admission.JpegDocumentRefused` | index.js:47-49 | a document of type "image/jpeg" without photos is refused |
| `Admission.AdmitsIntended` | index.js:47-49 | the corrected check also accepts "image/jpeg"; it accepts everything the written check accepts |
| `Admission.AdmitsIntendedJpeg` | index.js:47-66 | the corrected check accepts the JPEG document and the corrected flow fetches it; the check differs from the written one only on documents of type "image/jpeg" |
| `Admission.AdmittedWithoutDocument` | index.js:49-65 | a message the check as written accepts, without a document, has at least one photo size, so the `pop` at line 65 has an element |
| `Admission.Largest` | index.js:65 | the chosen photo size is one of the message's sizes and none is larger |
| `Admission.LargestOfPermutation` | index.js:65 | reordering the sizes does not change the largest size |
| `Admission.ChooseFile` | index.js:60-66 | a message with a document fetches the document, whatever its type; otherwise a photo size of maximal `file_size` |
| `Admission.FileToFetch` | index.js:49-66 | a message refused by the check as written fetches nothing; an accepted one fetches its document when it has one, else a photo size of maximal `file_size` |
| `Admission.FileToFetchIntended` | index.js:49-66 | the same choice behind the corrected check; it fetches whatever the written flow fetches |
| `Admission.SortedLastIsLargest` | index.js:65 | the last of the sizes sorted ascending has the largest size |
| `Admission.InsertAt` | index.js:65 | one insertion pass extends the sorted prefix by one element and permutes the array |
| `Admission.SortBySize` | index.js:65 | the in-place sort leaves the sizes in ascending order of `file_size`, as a permutation of the original array |
| `Admission.PopLargest` | index.js:65 | sort-then-pop yields an element of the original array with the largest `file_size` |

## Left out

- Bot transport: the Telegraf setup, the start and help replies, the launch and
  signal handling. These are I/O.
- Persistence: the user, message and spammer records, which go through database
  models that are not part of this model.
- `formatPhoneNumber` of the spammer model: its code is not part of this model.
  The numbers are modelled as the raw matched strings.
- Fetching the file: the file link, the download stream, the storage directory,
  the file name and the removal of the file. These are network and filesystem
  I/O; `Admission.FileToFetch` stops at the file id.
- The OCR engine and the TSV parser are foreign code. Their output is the input
  `seq<Row>`. `Number(conf)` on the text column is modelled as a `Conf` that is
  either a real or NaN. How a string becomes that number is not modelled.
- The progress messages, `console.table` and the try/catch error report: side
  effects only.
- The loop at index.js:145-163 over `numbersFound` only stores numbers, so it
  is left out with persistence.
- Concurrency: the handler runs once per message, and no queue of submissions
  exists in the code.
- `Admission.PopLargest`: the result is proved to have the largest size, but
  not to be the later of two equally large sizes. A stable sort leaves that one
  last, and `Admission.Largest` picks it.
- `Admission.SortBySize`: the engine's sort algorithm is not modelled. An
  insertion sort with the same comparator stands in for it.
- `Admission.PopLargest`: the array does not shrink. A Dafny array has a fixed
  length, so `pop` is modelled as reading the last element.
- A photo size without `file_size`, for which the comparator yields NaN, is not
  modelled. Sizes are natural numbers.
- `OcrLines.GroupByBlock`: the per-block arrays are extended by reassigning a
  map of sequences, not by pushing in place.

## Findings

| source | as written | input that shows it | evidently intended | confidence | as-written member | corrected member |
|---|---|---|---|---|---|---|
| index.js:47-49 | `ALLOWED_TYPES` lists "image/jpg", which is not the registered mime type of JPEG images | a message with no photo and a document whose mime type is "image/jpeg" (how JPEG files sent as documents are labelled) is answered with the help text | accept JPEG documents as well as PNG ones | medium, not executed | `Admission.JpegDocumentRefused` | `Admission.AdmitsIntended`, `Admission.FileToFetchIntended` |
