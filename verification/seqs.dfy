/** Sequence and string helpers that stand for the JavaScript built-ins the
    handler relies on: Array.prototype.filter, Array.prototype.join and the
    counting of characters that a one-character regular expression matches. */
module Seqs {

  datatype Option<+T> = None | Some(value: T)

  /** `a` is obtained from `b` by deleting elements, keeping the order. */
  predicate IsSubsequence<T(==)>(a: seq<T>, b: seq<T>)
    decreases |b|
  {
    if a == [] then true
    else if b == [] then false
    else if a[0] == b[0] then IsSubsequence(a[1..], b[1..])
    else IsSubsequence(a, b[1..])
  }

  /** Array.prototype.filter: the elements of `s` that satisfy `p`, in order. */
  function Filter<T(!new)>(p: T -> bool, s: seq<T>): (r: seq<T>)
    ensures |r| <= |s|
    ensures forall x :: x in r <==> x in s && p(x)
  {
    if s == [] then [] else (if p(s[0]) then [s[0]] else []) + Filter(p, s[1..])
  }

  /** Each element kept by the filter is kept as often as it occurs. */
  lemma {:induction false} FilterMultiplicity<T(!new)>(p: T -> bool, s: seq<T>, x: T)
    ensures multiset(Filter(p, s))[x] == if p(x) then multiset(s)[x] else 0
  {
    if s != [] {
      FilterMultiplicity(p, s[1..], x);
      assert s == [s[0]] + s[1..];
    }
  }

  lemma {:induction false} FilterIsSubsequence<T(!new)>(p: T -> bool, s: seq<T>)
    ensures IsSubsequence(Filter(p, s), s)
  {
    if s != [] {
      FilterIsSubsequence(p, s[1..]);
      var r := Filter(p, s[1..]);
      if p(s[0]) {
        assert Filter(p, s) == [s[0]] + r;
        assert ([s[0]] + r)[1..] == r;
      } else {
        assert Filter(p, s) == r;
        SubsequenceOfTail(r, s);
      }
    }
  }

  /** Dropping the head of the longer sequence keeps the relation. */
  lemma {:induction false} SubsequenceOfTail<T>(a: seq<T>, b: seq<T>)
    requires b != [] && IsSubsequence(a, b[1..])
    ensures IsSubsequence(a, b)
    decreases |b|, 0
  {
    if a != [] && a[0] == b[0] {
      // IsSubsequence(a, b) reduces to IsSubsequence(a[1..], b[1..]),
      // which follows from IsSubsequence(a, b[1..]).
      SubsequenceDropHead(a, b[1..]);
    }
  }

  lemma {:induction false} SubsequenceDropHead<T>(a: seq<T>, b: seq<T>)
    requires a != [] && IsSubsequence(a, b)
    ensures IsSubsequence(a[1..], b)
    decreases |b|, 1
  {
    assert b != [];
    if a[0] == b[0] {
      SubsequenceOfTail(a[1..], b);
    } else {
      SubsequenceDropHead(a, b[1..]);
      SubsequenceOfTail(a[1..], b);
    }
  }

  /** Filtering distributes over concatenation: the order of the kept
      elements is the order of the input. */
  lemma {:induction false} FilterConcat<T(!new)>(p: T -> bool, a: seq<T>, b: seq<T>)
    ensures Filter(p, a + b) == Filter(p, a) + Filter(p, b)
  {
    if a == [] {
      assert a + b == b;
    } else {
      var ab := a + b;
      assert ab[0] == a[0] && ab[1..] == a[1..] + b;
      FilterConcat(p, a[1..], b);
      var head := if p(a[0]) then [a[0]] else [];
      assert Filter(p, ab) == head + Filter(p, ab[1..]);
      assert Filter(p, a) == head + Filter(p, a[1..]);
    }
  }


  /** Filtering twice with the same predicate changes nothing. */
  lemma {:induction false} FilterIdempotent<T(!new)>(p: T -> bool, s: seq<T>)
    ensures Filter(p, Filter(p, s)) == Filter(p, s)
  {
    if s != [] {
      FilterIdempotent(p, s[1..]);
      var r := Filter(p, s[1..]);
      if p(s[0]) {
        assert Filter(p, s) == [s[0]] + r;
        assert ([s[0]] + r)[0] == s[0];
        assert ([s[0]] + r)[1..] == r;
        assert Filter(p, [s[0]] + r) == [s[0]] + Filter(p, r);
      } else {
        assert Filter(p, s) == r;
      }
    }
  }

  /** Array.prototype.join with separator `sep`; the empty array joins to "". */
  function Join(sep: string, parts: seq<string>): (r: string)
    ensures parts != [] ==> parts[0] <= r
    ensures |parts| > 1 ==> parts[0] + sep <= r
  {
    if |parts| == 0 then ""
    else if |parts| == 1 then parts[0]
    else parts[0] + sep + Join(sep, parts[1..])
  }

  /** Number of elements of `s` that satisfy `p` (the length of the array
      returned by a global match of a one-character class, or 0 for null). */
  function CountWhere<T(!new)>(p: T -> bool, s: seq<T>): (n: nat)
    ensures n <= |s|
    ensures n == |Filter(p, s)|
  {
    if s == [] then 0 else (if p(s[0]) then 1 else 0) + CountWhere(p, s[1..])
  }

  /** Concatenation of `f(x)` for each `x` of `xs`, in order: the end
      positions reached by a sequence of two regular-expression parts, in the
      order a backtracking matcher tries them. */
  function FlatMap(xs: seq<nat>, f: nat -> seq<nat>): seq<nat> {
    if xs == [] then [] else f(xs[0]) + FlatMap(xs[1..], f)
  }

  lemma {:induction false} FlatMapMember(xs: seq<nat>, f: nat -> seq<nat>, y: nat)
    ensures y in FlatMap(xs, f) <==> exists x :: x in xs && y in f(x)
  {
    if xs != [] {
      FlatMapMember(xs[1..], f, y);
      assert forall x :: x in xs <==> x == xs[0] || x in xs[1..];
    }
  }

  /** Nothing is reached from elements that reach nothing. */
  lemma {:induction false} FlatMapNothing(xs: seq<nat>, f: nat -> seq<nat>)
    requires forall x | x in xs :: f(x) == []
    ensures FlatMap(xs, f) == []
  {
    if xs != [] {
      FlatMapNothing(xs[1..], f);
    }
  }

  /** When only the first element reaches anything, that is all that is
      reached. */
  lemma FlatMapHeadOnly(xs: seq<nat>, f: nat -> seq<nat>)
    requires xs != [] && forall x | x in xs[1..] :: f(x) == []
    ensures FlatMap(xs, f) == f(xs[0])
  {
    FlatMapNothing(xs[1..], f);
  }

  /** FlatMap distributes over concatenation. */
  lemma {:induction false} FlatMapConcat(a: seq<nat>, b: seq<nat>, f: nat -> seq<nat>)
    ensures FlatMap(a + b, f) == FlatMap(a, f) + FlatMap(b, f)
  {
    if a == [] {
      assert a + b == b;
    } else {
      assert (a + b)[0] == a[0];
      assert (a + b)[1..] == a[1..] + b;
      FlatMapConcat(a[1..], b, f);
    }
  }

  /** `f` followed by `g`: every end `g` reaches from an end `f` reaches. */
  function Then(f: nat -> seq<nat>, g: nat -> seq<nat>): nat -> seq<nat> {
    x => FlatMap(f(x), g)
  }

  /** Nesting to the left or to the right lists the same ends in the same
      order. */
  lemma {:induction false} FlatMapAssoc(xs: seq<nat>, f: nat -> seq<nat>, g: nat -> seq<nat>)
    ensures FlatMap(FlatMap(xs, f), g) == FlatMap(xs, Then(f, g))
  {
    if xs != [] {
      FlatMapConcat(f(xs[0]), FlatMap(xs[1..], f), g);
      FlatMapAssoc(xs[1..], f, g);
    }
  }

  /** The position in `xs` of the element that gives the first element of
      `FlatMap(xs, f)`: the first whose list is not empty. */
  function FirstNonEmpty(xs: seq<nat>, f: nat -> seq<nat>): (k: nat)
    requires FlatMap(xs, f) != []
    ensures k < |xs| && f(xs[k]) != []
    ensures forall j | 0 <= j < k :: f(xs[j]) == []
    ensures FlatMap(xs, f)[0] == f(xs[k])[0]
  {
    if f(xs[0]) != [] then 0 else 1 + FirstNonEmpty(xs[1..], f)
  }

  /** `xs` is strictly decreasing. */
  ghost predicate Descending(xs: seq<nat>) {
    forall p, q | 0 <= p < q < |xs| :: xs[p] > xs[q]
  }

  /** The head of a decreasing sequence is its largest element. */
  lemma DescendingHead(xs: seq<nat>, x: nat)
    requires Descending(xs) && x in xs
    ensures x <= xs[0]
  {
    var j :| 0 <= j < |xs| && xs[j] == x;
  }

  /** Over a decreasing `xs`, no element larger than the one that gives the
      first element of `FlatMap(xs, f)` reaches anything. */
  lemma FirstIsMaximal(xs: seq<nat>, f: nat -> seq<nat>, x: nat, y: nat)
    requires FlatMap(xs, f) != [] && Descending(xs) && x in xs && y in f(x)
    ensures x <= xs[FirstNonEmpty(xs, f)]
  {
    var j :| 0 <= j < |xs| && xs[j] == x;
  }

  /** The integers hi, hi - 1, ..., lo: a greedy quantifier tries the longest
      repetition first and gives characters back one at a time. */
  function Countdown(hi: nat, lo: nat): (r: seq<nat>)
    requires lo <= hi
    ensures forall x :: x in r <==> lo <= x <= hi
    ensures |r| > 0 && r[0] == hi
    decreases hi - lo
  {
    if hi == lo then [lo] else [hi] + Countdown(hi - 1, lo)
  }

  /** After its head, a countdown holds only numbers below the head. */
  lemma CountdownTail(hi: nat, lo: nat)
    requires lo <= hi
    ensures forall x | x in Countdown(hi, lo)[1..] :: lo <= x < hi
  {
    if hi > lo {
      assert Countdown(hi, lo)[1..] == Countdown(hi - 1, lo);
    }
  }
}
