/** ExampleStreamFindFirst: twice the first element of a list that is greater than 3 and even,
    as a filter/filter/map/findFirst pipeline and as a for loop with break. */
module FindFirst {
  import opened Wrappers
  import opened Streams

  /** The element the search stops at. */
  predicate Matches(e: int)
  {
    e > 3 && e % 2 == 0
  }

  /** declarativeStyle. */
  function DeclarativeStyle(numbers: seq<int>): Option<int>
  {
    FindFirst(Map(Filter(Filter(numbers, e => e > 3), e => e % 2 == 0), e => e * 2))
  }

  /** isGT3, isEven and doubleIt, without their printing. */
  function IsGT3(number: int): bool { number > 3 }
  function IsEven(number: int): bool { number % 2 == 0 }
  function DoubleIt(number: int): int { number * 2 }

  /** declarativeStyleBadDebugging: the same pipeline through the named methods. */
  function DeclarativeStyleBadDebugging(numbers: seq<int>): Option<int>
  {
    FindFirst(Map(Filter(Filter(numbers, IsGT3), IsEven), DoubleIt))
  }

  lemma FindFirstAppend<T>(xs: seq<T>, ys: seq<T>)
    ensures FindFirst(xs + ys) == if xs != [] then Some(xs[0]) else FindFirst(ys)
  {
    if xs == [] {
      assert xs + ys == ys;
    }
  }

  /** The pipeline looks at the head first and only moves on when it does not match. */
  lemma DeclarativeStep(numbers: seq<int>)
    requires numbers != []
    ensures DeclarativeStyle(numbers)
         == if Matches(numbers[0]) then Some(numbers[0] * 2) else DeclarativeStyle(numbers[1..])
    ensures DeclarativeStyleBadDebugging(numbers)
         == if Matches(numbers[0]) then Some(numbers[0] * 2) else DeclarativeStyleBadDebugging(numbers[1..])
  {
    var x, rest := numbers[0], numbers[1..];
    var gt := Filter(rest, e => e > 3);
    var head := if x > 3 then [x] else [];
    FilterAppend(head, gt, e => e % 2 == 0);
    var evenHead := Filter(head, e => e % 2 == 0);
    MapAppend(evenHead, Filter(gt, e => e % 2 == 0), e => e * 2);
    FindFirstAppend(Map(evenHead, e => e * 2), Map(Filter(gt, e => e % 2 == 0), e => e * 2));
    var gt' := Filter(rest, IsGT3);
    var head' := if IsGT3(x) then [x] else [];
    FilterAppend(head', gt', IsEven);
    var evenHead' := Filter(head', IsEven);
    MapAppend(evenHead', Filter(gt', IsEven), DoubleIt);
    FindFirstAppend(Map(evenHead', DoubleIt), Map(Filter(gt', IsEven), DoubleIt));
  }

  /** The reference meaning of both pipelines: twice the first matching element, if any. */
  function FirstMatchDoubled(numbers: seq<int>): Option<int>
  {
    if numbers == [] then None
    else if Matches(numbers[0]) then Some(numbers[0] * 2)
    else FirstMatchDoubled(numbers[1..])
  }

  /** Both pipelines compute the reference result. */
  lemma {:induction false} DeclarativeIsReference(numbers: seq<int>)
    ensures DeclarativeStyle(numbers) == FirstMatchDoubled(numbers)
    ensures DeclarativeStyleBadDebugging(numbers) == FirstMatchDoubled(numbers)
  {
    if numbers != [] {
      DeclarativeStep(numbers);
      DeclarativeIsReference(numbers[1..]);
    }
  }

  lemma {:induction false} ReferenceIsFirstMatch(numbers: seq<int>)
    ensures FirstMatchDoubled(numbers).None? <==> forall i :: 0 <= i < |numbers| ==> !Matches(numbers[i])
    ensures FirstMatchDoubled(numbers).Some? ==>
      exists i :: 0 <= i < |numbers| && Matches(numbers[i]) && FirstMatchDoubled(numbers).value == numbers[i] * 2
        && forall j :: 0 <= j < i ==> !Matches(numbers[j])
  {
    if numbers != [] {
      var rest := numbers[1..];
      ReferenceIsFirstMatch(rest);
      assert forall j :: 0 <= j < |rest| ==> rest[j] == numbers[j + 1];
      if !Matches(numbers[0]) && FirstMatchDoubled(numbers).Some? {
        var i :| 0 <= i < |rest| && Matches(rest[i]) && FirstMatchDoubled(rest).value == rest[i] * 2
          && forall j :: 0 <= j < i ==> !Matches(rest[j]);
        assert Matches(numbers[i + 1]) && forall j :: 0 <= j < i + 1 ==> !Matches(numbers[j]);
      }
    }
  }

  /** The result is twice the first matching element, and empty exactly when nothing matches. */
  lemma DeclarativeIsFirstMatch(numbers: seq<int>)
    ensures DeclarativeStyle(numbers).None? <==> forall i :: 0 <= i < |numbers| ==> !Matches(numbers[i])
    ensures DeclarativeStyle(numbers).Some? ==>
      exists i :: 0 <= i < |numbers| && Matches(numbers[i]) && DeclarativeStyle(numbers).value == numbers[i] * 2
        && forall j :: 0 <= j < i ==> !Matches(numbers[j])
  {
    DeclarativeIsReference(numbers);
    ReferenceIsFirstMatch(numbers);
  }

  lemma {:induction false} ReferenceIgnoresLater(numbers: seq<int>, more: seq<int>)
    requires FirstMatchDoubled(numbers).Some?
    ensures FirstMatchDoubled(numbers + more) == FirstMatchDoubled(numbers)
  {
    assert (numbers + more)[0] == numbers[0];
    if !Matches(numbers[0]) {
      assert (numbers + more)[1..] == numbers[1..] + more;
      ReferenceIgnoresLater(numbers[1..], more);
    }
  }

  /** Elements after the first match do not affect the result. */
  lemma LaterElementsIgnored(numbers: seq<int>, more: seq<int>)
    requires DeclarativeStyle(numbers).Some?
    ensures DeclarativeStyle(numbers + more) == DeclarativeStyle(numbers)
  {
    DeclarativeIsReference(numbers);
    DeclarativeIsReference(numbers + more);
    ReferenceIgnoresLater(numbers, more);
  }

  /** The method-reference variant computes the same result as the lambda one. */
  lemma BadDebuggingSameResult(numbers: seq<int>)
    ensures DeclarativeStyleBadDebugging(numbers) == DeclarativeStyle(numbers)
  {
    DeclarativeIsReference(numbers);
  }

  /** imperativeStyle: 0 when no element matches. */
  method ImperativeStyle(numbers: seq<int>) returns (result: int)
    ensures result == DeclarativeStyle(numbers).GetOr(0)
  {
    result := 0;
    var i := 0;
    while i < |numbers|
      invariant 0 <= i <= |numbers|
      invariant result == 0
      invariant DeclarativeStyle(numbers) == DeclarativeStyle(numbers[i..])
    {
      var e := numbers[i];
      DeclarativeStep(numbers[i..]);
      if e > 3 && e % 2 == 0 {
        result := e * 2;
        break;
      }
      assert numbers[i..][1..] == numbers[i + 1..];
      i := i + 1;
    }
  }

  /** The static list, with 4 and 5 swapped. */
  function Numbers(): seq<int>
  {
    [1, 2, 3, 5, 4, 6, 7, 8, 9, 10, 11, 12, 13, 14, 15, 16, 17, 18, 19, 20]
  }

  lemma SampleDeclarative()
    ensures DeclarativeStyle(Numbers()) == Some(8)
  {
    DeclarativeIsReference(Numbers());
  }

  method RunImperativeSample() returns (printed: int)
    ensures printed == 8
  {
    SampleDeclarative();
    printed := ImperativeStyle(Numbers());
  }
}
