/** ExampleInfiniteStream: the total of twice the first n integers from k on that are even and
    whose square root exceeds 20, computed by a lazy pipeline over Stream.iterate(k, e -> e + 1)
    and by a while loop. */
module InfiniteStream {
  import opened Wrappers
  import opened Streams

  /** The exception Stream.limit throws for a negative size. */
  datatype StreamError = IllegalArgument

  /** Both filters: `e % 2 == 0` and `Math.sqrt(e) > 20`. On integers the square root exceeds 20
      exactly when e > 400 (for a negative e it is NaN, and the comparison is false). */
  predicate Qualifies(e: int)
  {
    e % 2 == 0 && e > 400
  }

  /** How far e is from the next qualifying value; it shrinks at every non-qualifying step. */
  function Gap(e: int): nat
  {
    if e <= 401 then 403 - e else if e % 2 == 0 then 0 else 1
  }

  /** Stream.iterate(e, e -> e + 1) with both filters and limit(n): the first n qualifying
      values from e on, in the order the iteration produces them. */
  function Qualifying(e: int, n: nat): seq<int>
    decreases n, Gap(e)
  {
    if n == 0 then []
    else if Qualifies(e) then [e] + Qualifying(e + 1, n - 1)
    else Qualifying(e + 1, n)
  }

  /** mapToInt(e -> e * 2). */
  function TimesTwo(e: int): int { e * 2 }

  /** computeDeclarative: limit refuses a negative size, otherwise the sum of the doubled values. */
  function ComputeDeclarative(k: int, n: int): Result<int, StreamError>
  {
    if n < 0 then Err(IllegalArgument) else Ok(Sum(Map(Qualifying(k, n as nat), TimesTwo)))
  }

  /** The qualifying values in [lo, hi), ascending: what the loop has accepted so far. */
  function QualifyingBetween(lo: int, hi: int): seq<int>
    decreases hi - lo
  {
    if hi <= lo then [] else QualifyingBetween(lo, hi - 1) + (if Qualifies(hi - 1) then [hi - 1] else [])
  }

  /** One step of the scan: the index is accepted exactly when it qualifies, and what is still
      to be found shrinks accordingly. */
  lemma ScanStep(k: int, index: int, n: nat, count: nat)
    requires k <= index && count < n
    requires Qualifying(k, n) == QualifyingBetween(k, index) + Qualifying(index, n - count)
    ensures QualifyingBetween(k, index + 1)
         == QualifyingBetween(k, index) + (if Qualifies(index) then [index] else [])
    ensures Qualifying(k, n)
         == QualifyingBetween(k, index + 1) + Qualifying(index + 1, n - count - (if Qualifies(index) then 1 else 0))
  {
    var before := QualifyingBetween(k, index);
    if Qualifies(index) {
      assert Qualifying(index, n - count) == [index] + Qualifying(index + 1, n - count - 1);
      assert before + ([index] + Qualifying(index + 1, n - count - 1))
          == (before + [index]) + Qualifying(index + 1, n - count - 1);
    } else {
      assert before + [] == before;
    }
  }

  /** Adding one more doubled value to the running total. */
  lemma SumDoubledAppend(s: seq<int>, x: int)
    ensures Sum(Map(s + [x], TimesTwo)) == Sum(Map(s, TimesTwo)) + x * 2
  {
    MapAppend(s, [x], TimesTwo);
    assert Map([x], TimesTwo) == [x * 2];
    SumAppend(Map(s, TimesTwo), [x * 2]);
  }

  /** computeImperative: scans index = k, k + 1, ... and adds twice every qualifying index until
      n of them were found. */
  method ComputeImperative(k: int, n: int) returns (result: int)
    ensures n <= 0 ==> result == 0
    ensures n >= 0 ==> ComputeDeclarative(k, n) == Ok(result)
    ensures n < 0 ==> ComputeDeclarative(k, n) == Err(IllegalArgument)
  {
    result := 0;
    var index := k;
    var count := 0;
    while count < n
      invariant k <= index && 0 <= count
      invariant count <= n || count == 0
      invariant count == 0 ==> result == 0
      invariant count == |QualifyingBetween(k, index)|
      invariant result == Sum(Map(QualifyingBetween(k, index), TimesTwo))
      invariant n >= 0 ==> Qualifying(k, n) == QualifyingBetween(k, index) + Qualifying(index, n - count)
      decreases n - count, Gap(index)
    {
      ScanStep(k, index, n, count);
      if index % 2 == 0 && index > 400 {
        SumDoubledAppend(QualifyingBetween(k, index), index);
        result := result + index * 2;
        count := count + 1;
      } else {
        assert QualifyingBetween(k, index) + [] == QualifyingBetween(k, index);
      }
      index := index + 1;
    }
    if n >= 0 {
      assert QualifyingBetween(k, index) + [] == QualifyingBetween(k, index);
    }
  }

  /** The first qualifying value from e on. */
  function FirstQualifying(e: int): (f: int)
    ensures f >= e && Qualifies(f)
    ensures forall x :: e <= x < f ==> !Qualifies(x)
  {
    if e <= 402 then 402 else if e % 2 == 0 then e else e + 1
  }

  /** The first n qualifying values from e on are the n consecutive even numbers starting at
      FirstQualifying(e); so no qualifying value is skipped and none is taken twice. */
  lemma {:induction false} QualifyingClosedForm(e: int, n: nat)
    ensures |Qualifying(e, n)| == n
    ensures forall i :: 0 <= i < n ==> Qualifying(e, n)[i] == FirstQualifying(e) + 2 * i
    decreases n, Gap(e)
  {
    if n > 0 {
      if Qualifies(e) {
        QualifyingClosedForm(e + 1, n - 1);
        assert FirstQualifying(e + 1) == e + 2;
      } else {
        QualifyingClosedForm(e + 1, n);
        assert FirstQualifying(e + 1) == FirstQualifying(e);
      }
    }
  }

  /** Every value the pipeline sums qualifies, and every qualifying value from e up to the last
      one summed is among them. */
  lemma QualifyingAreTheFirst(e: int, n: nat)
    ensures |Qualifying(e, n)| == n
    ensures forall x :: x in Qualifying(e, n) ==> e <= x && Qualifies(x)
    ensures n > 0 ==> forall x :: e <= x <= Qualifying(e, n)[n - 1] && Qualifies(x) ==> x in Qualifying(e, n)
  {
    QualifyingClosedForm(e, n);
    var q, f := Qualifying(e, n), FirstQualifying(e);
    forall x | x in q ensures e <= x && Qualifies(x) {
      var i :| 0 <= i < n && q[i] == x;
    }
    if n > 0 {
      forall x | e <= x <= q[n - 1] && Qualifies(x) ensures x in q {
        assert x >= f;
        assert (x - f) % 2 == 0;
        var i := (x - f) / 2;
        assert q[i] == x;
      }
    }
  }

  /** The sum in closed form: 2 * n * (FirstQualifying(e) + n - 1). */
  lemma {:induction false} SumClosedForm(e: int, n: nat)
    ensures Sum(Map(Qualifying(e, n), TimesTwo)) == 2 * n * (FirstQualifying(e) + n - 1)
    decreases n, Gap(e)
  {
    if n > 0 {
      if Qualifies(e) {
        SumClosedForm(e + 1, n - 1);
        assert FirstQualifying(e + 1) == e + 2;
        assert 2 * e + 2 * (n - 1) * (e + n) == 2 * n * (e + n - 1);
      } else {
        SumClosedForm(e + 1, n);
      }
    }
  }

  /** Each summed term is twice an even number, so the total is a multiple of 4. */
  lemma {:induction false} SumIsMultipleOfFour(e: int, n: nat)
    ensures Sum(Map(Qualifying(e, n), TimesTwo)) % 4 == 0
    decreases n, Gap(e)
  {
    if n > 0 {
      if Qualifies(e) {
        SumIsMultipleOfFour(e + 1, n - 1);
      } else {
        SumIsMultipleOfFour(e + 1, n);
      }
    }
  }

  /** main: compute(1, 3) = 2 * (402 + 404 + 406). */
  lemma SampleCompute()
    ensures ComputeDeclarative(1, 3) == Ok(2424)
  {
    SumClosedForm(1, 3);
  }
}
