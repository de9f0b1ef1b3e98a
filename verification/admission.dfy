/** What the message handler accepts and which file it fetches
    (index.js:47-49 and index.js:60-66): a message is admitted when it
    carries at least one photo size or a document of an allowed image type;
    a document is fetched in preference to photos, and of the photo sizes the
    largest one is fetched. */
module Admission {
  import opened Seqs

  /** One size of a photo as Telegram sends it. */
  datatype PhotoSize = PhotoSize(fileId: string, fileSize: nat)

  /** A file sent as a document; its mime type may be absent. */
  datatype Document = Document(fileId: string, mimeType: Option<string>)

  /** The parts of a message the handler looks at. */
  datatype Message = Message(photo: Option<seq<PhotoSize>>, document: Option<Document>)

  /** `ALLOWED_TYPES` as written. */
  const AllowedTypes: seq<string> := ["image/jpg", "image/png"]

  /** `ALLOWED_TYPES` with the registered type of JPEG images added. */
  const IntendedTypes: seq<string> := ["image/jpg", "image/jpeg", "image/png"]

  /** `!photo?.length && !types.includes(document?.mime_type)` negated: a
      missing photo list has no length, and a missing document or mime type
      gives `undefined`, which no list of strings includes. */
  function AdmitsWith(types: seq<string>, m: Message): (ok: bool)
    ensures ok <==> (m.photo.Some? && m.photo.value != [])
                    || (m.document.Some? && m.document.value.mimeType.Some?
                        && m.document.value.mimeType.value in types)
  {
    var photoLength := if m.photo.Some? then |m.photo.value| else 0;
    var mime := if m.document.Some? then m.document.value.mimeType else None;
    !(photoLength == 0 && !(mime.Some? && mime.value in types))
  }

  /** The check of index.js:49 as written. */
  function Admits(m: Message): (ok: bool)
    ensures ok <==> (m.photo.Some? && m.photo.value != [])
                    || (m.document.Some? && m.document.value.mimeType.Some?
                        && m.document.value.mimeType.value in ["image/jpg", "image/png"])
  {
    AdmitsWith(AllowedTypes, m)
  }

  /** A JPEG image sent as a document carries the type "image/jpeg", which is
      not in the list, so the handler answers with the help text instead. */
  lemma JpegDocumentRefused()
    ensures !Admits(Message(None, Some(Document("doc", Some("image/jpeg")))))
  {
    assert "image/jpeg" != "image/jpg" by {
      assert |"image/jpeg"| != |"image/jpg"|;
    }
    assert "image/jpeg" != "image/png" by {
      assert "image/jpeg"[6] != "image/png"[6];
    }
  }

  /** The check with the corrected list: it admits everything the written
      check admits, and JPEG documents besides. */
  function AdmitsIntended(m: Message): (ok: bool)
    ensures ok <==> (m.photo.Some? && m.photo.value != [])
                    || (m.document.Some? && m.document.value.mimeType.Some?
                        && m.document.value.mimeType.value in ["image/jpg", "image/jpeg", "image/png"])
    ensures Admits(m) ==> ok
  {
    AdmitsWith(IntendedTypes, m)
  }

  /** The corrected check admits a JPEG document, and the corrected flow
      fetches it; the check differs from the written one only on documents
      of type "image/jpeg". */
  lemma AdmitsIntendedJpeg(m: Message)
    ensures AdmitsIntended(Message(None, Some(Document("doc", Some("image/jpeg")))))
    ensures FileToFetchIntended(Message(None, Some(Document("doc", Some("image/jpeg"))))) == Some("doc")
    ensures AdmitsIntended(m) && !Admits(m) ==>
              m.document.Some? && m.document.value.mimeType == Some("image/jpeg")
  {
  }

  /** An admitted message without a document has a photo size to pick. */
  lemma AdmittedWithoutDocument(m: Message)
    requires Admits(m) && m.document.None?
    ensures m.photo.Some? && m.photo.value != []
  {
  }

  /** The photo size the sort-then-pop of index.js:65 ends with: one of
      largest size, the later one on a tie, as a stable ascending sort leaves
      it last. */
  function Largest(photos: seq<PhotoSize>): (p: PhotoSize)
    requires photos != []
    ensures p in photos
    ensures forall q | q in photos :: q.fileSize <= p.fileSize
  {
    if |photos| == 1 then photos[0]
    else
      var r := Largest(photos[1..]);
      if photos[0].fileSize > r.fileSize then photos[0] else r
  }

  /** Sequences with the same elements have a largest size in common. */
  lemma LargestOfPermutation(s: seq<PhotoSize>, t: seq<PhotoSize>)
    requires s != [] && multiset(s) == multiset(t)
    ensures t != [] && Largest(s).fileSize == Largest(t).fileSize
  {
    assert s[0] in multiset(t);
    assert Largest(s) in multiset(t);
    assert Largest(t) in multiset(s);
  }

  /** The id of the file an admitted message leads to: its document when it
      has one, else a photo size of largest `file_size`. */
  function ChooseFile(m: Message): (r: string)
    requires m.document.Some? || (m.photo.Some? && m.photo.value != [])
    ensures m.document.Some? ==> r == m.document.value.fileId
    ensures m.document.None? ==>
              exists k | 0 <= k < |m.photo.value| ::
                r == m.photo.value[k].fileId
                && forall j | 0 <= j < |m.photo.value| :: m.photo.value[j].fileSize <= m.photo.value[k].fileSize
  {
    if m.document.Some? then m.document.value.fileId
    else
      var p := Largest(m.photo.value);
      assert exists k | 0 <= k < |m.photo.value| :: m.photo.value[k] == p;
      p.fileId
  }

  /** The id of the file the handler fetches (index.js:60-66), or None when
      the check of index.js:49 as written refuses the message and the handler
      answers with the help text instead. */
  function FileToFetch(m: Message): (r: Option<string>)
    ensures r.None? <==> !Admits(m)
    ensures r.Some? && m.document.Some? ==> r.value == m.document.value.fileId
    ensures r.Some? && m.document.None? ==>
              m.photo.Some? && exists k | 0 <= k < |m.photo.value| ::
                r.value == m.photo.value[k].fileId
                && forall j | 0 <= j < |m.photo.value| :: m.photo.value[j].fileSize <= m.photo.value[k].fileSize
  {
    if !Admits(m) then None
    else Some(ChooseFile(m))
  }

  /** The same choice behind the corrected check: it fetches what the
      written flow fetches, and besides the document of a refused JPEG. */
  function FileToFetchIntended(m: Message): (r: Option<string>)
    ensures r.None? <==> !AdmitsIntended(m)
    ensures r.Some? && m.document.Some? ==> r.value == m.document.value.fileId
    ensures r.Some? && m.document.None? ==>
              m.photo.Some? && exists k | 0 <= k < |m.photo.value| ::
                r.value == m.photo.value[k].fileId
                && forall j | 0 <= j < |m.photo.value| :: m.photo.value[j].fileSize <= m.photo.value[k].fileSize
    ensures FileToFetch(m).Some? ==> r == FileToFetch(m)
  {
    if !AdmitsIntended(m) then None
    else Some(ChooseFile(m))
  }

  /** The photo sizes in ascending order of size. */
  ghost predicate SortedBySize(s: seq<PhotoSize>) {
    forall p, q | 0 <= p < q < |s| :: s[p].fileSize <= s[q].fileSize
  }

  /** The last of a sorted sequence has the largest size. */
  lemma SortedLastIsLargest(s: seq<PhotoSize>)
    requires s != [] && SortedBySize(s)
    ensures Largest(s).fileSize == s[|s| - 1].fileSize
  {
    var k :| 0 <= k < |s| && s[k] == Largest(s);
  }

  /** While `s[j]` moves down into the sorted prefix `s[..i+1]`: every pair
      not involving position `j` is in order, and everything after `j` is
      larger than `s[j]`. */
  ghost predicate Inserting(s: seq<PhotoSize>, i: nat, j: nat) {
    j <= i < |s|
    && (forall p, q | 0 <= p < q <= i && q != j :: s[p].fileSize <= s[q].fileSize)
    && (forall q | j < q <= i :: s[j].fileSize < s[q].fileSize)
  }

  /** Before it moves, `s[i]` is the only element that may be out of order. */
  lemma InsertStart(s: seq<PhotoSize>, i: nat)
    requires i < |s| && SortedBySize(s[..i])
    ensures Inserting(s, i, i)
  {
    forall p, q | 0 <= p < q < i
      ensures s[p].fileSize <= s[q].fileSize
    {
      assert s[..i][p] == s[p] && s[..i][q] == s[q];
    }
  }

  /** Swapping `s[j]` with a larger left neighbour moves it one place down. */
  lemma SwapDown(s: seq<PhotoSize>, i: nat, j: nat)
    requires Inserting(s, i, j) && 0 < j && s[j - 1].fileSize > s[j].fileSize
    ensures Inserting(s[j - 1 := s[j]][j := s[j - 1]], i, j - 1)
  {
  }

  /** `s` is a reordering of `t`. */
  ghost predicate SameElements(s: seq<PhotoSize>, t: seq<PhotoSize>) {
    multiset(s) == multiset(t)
  }

  /** Exchanging two elements keeps the same elements. */
  lemma SwapPermutes(s: seq<PhotoSize>, p: nat, q: nat, t: seq<PhotoSize>)
    requires p < q < |s| && SameElements(s, t)
    ensures SameElements(s[p := s[q]][q := s[p]], t)
  {
  }

  /** Once `s[j]` is at the bottom or its left neighbour is no larger, the
      prefix `s[..i+1]` is sorted. */
  lemma InsertDone(s: seq<PhotoSize>, i: nat, j: nat)
    requires Inserting(s, i, j) && (j == 0 || s[j - 1].fileSize <= s[j].fileSize)
    ensures SortedBySize(s[..i + 1])
  {
  }

  /** Exchanges `a[p]` and `a[q]`. */
  method Swap(a: array<PhotoSize>, p: nat, q: nat)
    requires p < q < a.Length
    modifies a
    ensures a[..] == old(a[..])[p := old(a[q])][q := old(a[p])]
  {
    a[p], a[q] := a[q], a[p];
  }

  /** One pass of insertion: `a[i]` sinks into the sorted `a[..i]`. */
  method InsertAt(a: array<PhotoSize>, i: nat)
    requires 0 < i < a.Length && SortedBySize(a[..i])
    modifies a
    ensures SortedBySize(a[..i + 1])
    ensures multiset(a[..]) == multiset(old(a[..]))
  {
    var j := i;
    InsertStart(a[..], i);
    while j > 0 && a[j - 1].fileSize > a[j].fileSize
      invariant Inserting(a[..], i, j)
      invariant SameElements(a[..], old(a[..]))
    {
      SwapDown(a[..], i, j);
      SwapPermutes(a[..], j - 1, j, old(a[..]));
      Swap(a, j - 1, j);
      j := j - 1;
    }
    InsertDone(a[..], i, j);
  }

  /** `photo.sort((a, b) => a.file_size - b.file_size)`, in place. */
  method SortBySize(a: array<PhotoSize>)
    modifies a
    ensures SortedBySize(a[..])
    ensures multiset(a[..]) == multiset(old(a[..]))
  {
    if a.Length == 0 {
      return;
    }
    var i := 1;
    while i < a.Length
      invariant 1 <= i <= a.Length
      invariant SortedBySize(a[..i])
      invariant multiset(a[..]) == multiset(old(a[..]))
    {
      InsertAt(a, i);
      i := i + 1;
    }
    assert a[..] == a[..a.Length];
  }

  /** `photo.sort(...).pop()`: the photo size taken has the largest size of
      all the sizes the message carried. */
  method PopLargest(a: array<PhotoSize>) returns (largest: PhotoSize)
    requires a.Length > 0
    modifies a
    ensures largest in multiset(old(a[..]))
    ensures largest.fileSize == Largest(old(a[..])).fileSize
  {
    SortBySize(a);
    largest := a[a.Length - 1];
    SortedLastIsLargest(a[..]);
    LargestOfPermutation(a[..], old(a[..]));
  }
}
