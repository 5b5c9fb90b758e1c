/** The java.util.stream stages the examples use, on finite sequential streams: each stage is a
    function on the sequence of elements in encounter order. */
module Streams {
  import opened Wrappers

  /** filter(p): the elements that satisfy p, in encounter order. */
  function Filter<T>(xs: seq<T>, p: T -> bool): seq<T>
  {
    if xs == [] then [] else (if p(xs[0]) then [xs[0]] else []) + Filter(xs[1..], p)
  }

  /** map(f) / mapToInt(f): f applied to every element, in encounter order. */
  function Map<T, U>(xs: seq<T>, f: T -> U): seq<U>
  {
    if xs == [] then [] else [f(xs[0])] + Map(xs[1..], f)
  }

  /** findFirst(): the first element, if there is one. */
  function FindFirst<T>(xs: seq<T>): Option<T>
  {
    if xs == [] then None else Some(xs[0])
  }

  /** IntStream.sum(). */
  function Sum(xs: seq<int>): int
  {
    if xs == [] then 0 else xs[0] + Sum(xs[1..])
  }

  /** Collectors.joining(""): the pieces concatenated in encounter order. */
  function Joining(pieces: seq<string>): string
  {
    if pieces == [] then "" else pieces[0] + Joining(pieces[1..])
  }

  /** reduce(identity, op) on a sequential stream: a left fold starting at identity. */
  function Reduce<T>(xs: seq<T>, identity: T, op: (T, T) -> T): T
  {
    if xs == [] then identity else Reduce(xs[1..], op(identity, xs[0]), op)
  }

  /** IntStream.range(lo, hi): lo, lo + 1, ..., hi - 1, each once, ascending. */
  function Range(lo: int, hi: int): (r: seq<int>)
    ensures |r| == if lo < hi then hi - lo else 0
    ensures forall i :: 0 <= i < |r| ==> r[i] == lo + i
    decreases hi - lo
  {
    if lo >= hi then [] else [lo] + Range(lo + 1, hi)
  }

  /** Inserts x before the first element it is le-below, keeping equal elements in order. */
  function Insert<T>(x: T, ys: seq<T>, le: (T, T) -> bool): seq<T>
  {
    if ys == [] then [x]
    else if le(x, ys[0]) then [x] + ys
    else [ys[0]] + Insert(x, ys[1..], le)
  }

  /** sorted(): a stable sort by the natural order le, written as an insertion sort. SortPermutes,
      SortSorted and SortStable state what the Java documentation promises of sorted(). */
  function InsertionSort<T>(xs: seq<T>, le: (T, T) -> bool): seq<T>
  {
    if xs == [] then [] else Insert(xs[0], InsertionSort(xs[1..], le), le)
  }

  /** le compares every two elements. */
  ghost predicate Total<T(!new)>(le: (T, T) -> bool)
  {
    forall a, b :: le(a, b) || le(b, a)
  }

  ghost predicate Transitive<T(!new)>(le: (T, T) -> bool)
  {
    forall a, b, c :: le(a, b) && le(b, c) ==> le(a, c)
  }

  /** Every element is le-below every later one. */
  ghost predicate SortedBy<T>(xs: seq<T>, le: (T, T) -> bool)
  {
    forall i, j :: 0 <= i < j < |xs| ==> le(xs[i], xs[j])
  }

  /** The elements that le cannot tell apart from a: each is below the other. */
  function EquivalentTo<T>(le: (T, T) -> bool, a: T): T -> bool
  {
    x => le(x, a) && le(a, x)
  }

  /** Each entry of range(lo, hi) is visited once, in strictly ascending order, and they are
      exactly the integers from lo up to hi. */
  lemma RangeVisitsEachOnce(lo: int, hi: int)
    ensures forall i, j :: 0 <= i < j < |Range(lo, hi)| ==> Range(lo, hi)[i] < Range(lo, hi)[j]
    ensures forall x :: x in Range(lo, hi) <==> lo <= x < hi
  {
    var r := Range(lo, hi);
    forall x | lo <= x < hi ensures x in r {
      assert r[x - lo] == x;
    }
  }

  lemma {:induction false} FilterAppend<T>(xs: seq<T>, ys: seq<T>, p: T -> bool)
    ensures Filter(xs + ys, p) == Filter(xs, p) + Filter(ys, p)
  {
    if xs == [] {
      assert xs + ys == ys;
    } else {
      var head := if p(xs[0]) then [xs[0]] else [];
      assert (xs + ys)[0] == xs[0] && (xs + ys)[1..] == xs[1..] + ys;
      assert Filter(xs + ys, p) == head + Filter(xs[1..] + ys, p);
      FilterAppend(xs[1..], ys, p);
      assert head + (Filter(xs[1..], p) + Filter(ys, p)) == (head + Filter(xs[1..], p)) + Filter(ys, p);
    }
  }

  lemma {:induction false} MapAppend<T, U>(xs: seq<T>, ys: seq<T>, f: T -> U)
    ensures Map(xs + ys, f) == Map(xs, f) + Map(ys, f)
  {
    if xs == [] {
      assert xs + ys == ys;
    } else {
      assert (xs + ys)[1..] == xs[1..] + ys;
      MapAppend(xs[1..], ys, f);
    }
  }

  lemma {:induction false} SumAppend(xs: seq<int>, ys: seq<int>)
    ensures Sum(xs + ys) == Sum(xs) + Sum(ys)
  {
    if xs == [] {
      assert xs + ys == ys;
    } else {
      assert (xs + ys)[1..] == xs[1..] + ys;
      SumAppend(xs[1..], ys);
    }
  }

  lemma {:induction false} JoiningAppend(xs: seq<string>, ys: seq<string>)
    ensures Joining(xs + ys) == Joining(xs) + Joining(ys)
  {
    if xs == [] {
      assert xs + ys == ys;
    } else {
      assert (xs + ys)[1..] == xs[1..] + ys;
      JoiningAppend(xs[1..], ys);
    }
  }

  lemma {:induction false} InsertPermutes<T>(x: T, ys: seq<T>, le: (T, T) -> bool)
    ensures multiset(Insert(x, ys, le)) == multiset(ys) + multiset{x}
  {
    if ys != [] && !le(x, ys[0]) {
      var rest := Insert(x, ys[1..], le);
      InsertPermutes(x, ys[1..], le);
      assert Insert(x, ys, le) == [ys[0]] + rest;
      assert ys == [ys[0]] + ys[1..];
    }
  }

  /** sorted() returns a permutation of its input. */
  lemma {:induction false} SortPermutes<T>(xs: seq<T>, le: (T, T) -> bool)
    ensures multiset(InsertionSort(xs, le)) == multiset(xs)
  {
    if xs != [] {
      SortPermutes(xs[1..], le);
      InsertPermutes(xs[0], InsertionSort(xs[1..], le), le);
      assert xs == [xs[0]] + xs[1..];
    }
  }

  lemma {:induction false} InsertSorted<T(!new)>(x: T, ys: seq<T>, le: (T, T) -> bool)
    requires Total(le) && Transitive(le) && SortedBy(ys, le)
    ensures SortedBy(Insert(x, ys, le), le)
  {
    if ys == [] {
    } else if le(x, ys[0]) {
      var r := [x] + ys;
      forall i, j | 0 <= i < j < |r| ensures le(r[i], r[j]) {
        if i == 0 && j > 1 {
          assert le(x, ys[0]) && le(ys[0], ys[j - 1]);
        }
      }
    } else {
      var rest := Insert(x, ys[1..], le);
      InsertSorted(x, ys[1..], le);
      InsertPermutes(x, ys[1..], le);
      assert le(ys[0], x);
      forall k | 0 <= k < |rest| ensures le(ys[0], rest[k]) {
        assert rest[k] in multiset(rest);
        if rest[k] != x {
          assert rest[k] in ys[1..];
          var m :| 0 <= m < |ys[1..]| && ys[1..][m] == rest[k];
          assert ys[m + 1] == rest[k];
        }
      }
      var r := [ys[0]] + rest;
      assert Insert(x, ys, le) == r;
      forall i, j | 0 <= i < j < |r| ensures le(r[i], r[j]) {
        assert r[j] == rest[j - 1];
        if i > 0 {
          assert r[i] == rest[i - 1];
        }
      }
    }
  }

  /** sorted() puts the elements in order, for any total, transitive natural order. */
  lemma {:induction false} SortSorted<T(!new)>(xs: seq<T>, le: (T, T) -> bool)
    requires Total(le) && Transitive(le)
    ensures SortedBy(InsertionSort(xs, le), le)
  {
    if xs != [] {
      SortSorted(xs[1..], le);
      InsertSorted(xs[0], InsertionSort(xs[1..], le), le);
    }
  }

  /** Insertion passes only elements above x, so it never moves x past an element equivalent
      to it: for each class of equivalent elements, inserting x keeps that class's order. */
  lemma {:induction false} InsertKeepsEquivalentOrder<T(!new)>(x: T, ys: seq<T>, le: (T, T) -> bool, a: T)
    requires Transitive(le)
    ensures Filter(Insert(x, ys, le), EquivalentTo(le, a)) == Filter([x] + ys, EquivalentTo(le, a))
  {
    var p := EquivalentTo(le, a);
    if ys == [] {
    } else if le(x, ys[0]) {
      assert Insert(x, ys, le) == [x] + ys;
    } else {
      var rest := Insert(x, ys[1..], le);
      InsertKeepsEquivalentOrder(x, ys[1..], le, a);
      assert Insert(x, ys, le) == [ys[0]] + rest;
      assert ([ys[0]] + rest)[1..] == rest;
      assert ([x] + ys[1..])[1..] == ys[1..];
      assert ([x] + ys)[1..] == ys;
      var hx := if p(x) then [x] else [];
      var hy := if p(ys[0]) then [ys[0]] else [];
      assert Filter(Insert(x, ys, le), p) == hy + (hx + Filter(ys[1..], p));
      assert Filter([x] + ys, p) == hx + (hy + Filter(ys[1..], p));
    }
  }

  /** sorted() is stable: the elements equivalent to any a keep their encounter order. */
  lemma {:induction false} SortStable<T(!new)>(xs: seq<T>, le: (T, T) -> bool, a: T)
    requires Transitive(le)
    ensures Filter(InsertionSort(xs, le), EquivalentTo(le, a)) == Filter(xs, EquivalentTo(le, a))
  {
    if xs != [] {
      var sorted := InsertionSort(xs[1..], le);
      SortStable(xs[1..], le, a);
      InsertKeepsEquivalentOrder(xs[0], sorted, le, a);
      assert ([xs[0]] + sorted)[0] == xs[0] && ([xs[0]] + sorted)[1..] == sorted;
    }
  }
}
