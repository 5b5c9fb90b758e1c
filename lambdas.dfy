/** ExampleLambdas: reductions and renderings of a list of integers. */
module Lambdas {
  import opened Streams
  import Decimal

  /** Integer::sum. */
  function IntegerSum(a: int, b: int): int { a + b }

  /** String::concat. */
  function Concat(a: string, b: string): string { a + b }

  /** String::toString on a string: the string itself. */
  function StringToString(s: string): string { s }

  /** twoArgLambdaAMethodReference: reduce(0, Integer::sum). */
  function ReduceSum(numbers: seq<int>): int
  {
    Reduce(numbers, 0, IntegerSum)
  }

  /** twoArgLambdaBMethodReference: map(String::valueOf).reduce("", String::concat). */
  function ReduceConcat(numbers: seq<int>): string
  {
    Reduce(Map(numbers, Decimal.ValueOf), "", Concat)
  }

  /** printListOfIntA: the text that forEach(System.out::print) writes, one piece after the other. */
  function PrintListOfIntA(numbers: seq<int>): string
  {
    Joining(Map(numbers, Decimal.ValueOf))
  }

  /** printListOfIntB: the same with an extra map(String::toString). */
  function PrintListOfIntB(numbers: seq<int>): string
  {
    Joining(Map(Map(numbers, Decimal.ValueOf), StringToString))
  }

  /** The lambdas e -> e % 2 == 0 and e -> e * 2. */
  function IsEven(e: int): bool { e % 2 == 0 }
  function TimesTwo(e: int): int { e * 2 }

  /** doubleEvensAndSumLambda: filter(even).mapToInt(e -> e * 2).sum(). */
  function DoubleEvensAndSum(numbers: seq<int>): int
  {
    Sum(Map(Filter(numbers, IsEven), TimesTwo))
  }

  lemma {:induction false} ReduceSumFrom(numbers: seq<int>, acc: int)
    ensures Reduce(numbers, acc, IntegerSum) == acc + Sum(numbers)
  {
    if numbers != [] {
      ReduceSumFrom(numbers[1..], IntegerSum(acc, numbers[0]));
    }
  }

  /** The reduce is the sum of the list (0 for the empty list). */
  lemma ReduceSumIsSum(numbers: seq<int>)
    ensures ReduceSum(numbers) == Sum(numbers)
  {
    ReduceSumFrom(numbers, 0);
  }

  lemma {:induction false} ReduceConcatFrom(pieces: seq<string>, acc: string)
    ensures Reduce(pieces, acc, Concat) == acc + Joining(pieces)
  {
    if pieces != [] {
      ReduceConcatFrom(pieces[1..], Concat(acc, pieces[0]));
      assert acc + pieces[0] + Joining(pieces[1..]) == acc + (pieces[0] + Joining(pieces[1..]));
    } else {
      assert acc + "" == acc;
    }
  }

  /** The concat reduce is the in-order concatenation of the decimal renderings, which is also
      the text printListOfIntA prints ("" for the empty list). */
  lemma ReduceConcatIsPrintedText(numbers: seq<int>)
    ensures ReduceConcat(numbers) == PrintListOfIntA(numbers)
    ensures numbers == [] ==> ReduceConcat(numbers) == ""
  {
    ReduceConcatFrom(Map(numbers, Decimal.ValueOf), "");
    assert "" + Joining(Map(numbers, Decimal.ValueOf)) == Joining(Map(numbers, Decimal.ValueOf));
  }

  lemma {:induction false} MapStringToString(pieces: seq<string>)
    ensures Map(pieces, StringToString) == pieces
  {
    if pieces != [] {
      MapStringToString(pieces[1..]);
    }
  }

  /** String::toString is the identity, so both print methods write the same text. */
  lemma PrintVariantsAgree(numbers: seq<int>)
    ensures PrintListOfIntB(numbers) == PrintListOfIntA(numbers)
  {
    MapStringToString(Map(numbers, Decimal.ValueOf));
  }

  /** The sum of the doubled evens is twice the sum of the evens. */
  lemma {:induction false} DoubleEvensIsTwiceEvenSum(numbers: seq<int>)
    ensures DoubleEvensAndSum(numbers) == 2 * Sum(Filter(numbers, IsEven))
  {
    if numbers != [] {
      var rest := numbers[1..];
      DoubleEvensIsTwiceEvenSum(rest);
      var head := if numbers[0] % 2 == 0 then [numbers[0]] else [];
      var evens := Filter(rest, IsEven);
      MapAppend(head, evens, TimesTwo);
      SumAppend(Map(head, TimesTwo), Map(evens, TimesTwo));
      SumAppend(head, evens);
    }
  }

  /** The list main uses. */
  function Numbers(): seq<int> { [1, 2, 3, 4, 5, 1, 2, 3, 4, 5] }

  lemma SampleSum()
    ensures ReduceSum(Numbers()) == 30
  {
    ReduceSumIsSum(Numbers());
  }

  /** Each half of the sample list. */
  function Half(): seq<int> { [1, 2, 3, 4, 5] }

  /** The sample list is 1..5 twice. */
  lemma NumbersHalves()
    ensures Numbers() == Half() + Half()
  {
  }

  lemma HalfText()
    ensures PrintListOfIntA(Half()) == "12345"
  {
    assert Map(Half(), Decimal.ValueOf) == ["1", "2", "3", "4", "5"];
    assert Joining(["1", "2", "3", "4", "5"]) == "12345";
  }

  lemma SamplePrinted()
    ensures PrintListOfIntA(Numbers()) == "1234512345"
  {
    var half := Half();
    NumbersHalves();
    MapAppend(half, half, Decimal.ValueOf);
    JoiningAppend(Map(half, Decimal.ValueOf), Map(half, Decimal.ValueOf));
    HalfText();
    assert Map(Numbers(), Decimal.ValueOf) == Map(half, Decimal.ValueOf) + Map(half, Decimal.ValueOf);
    assert PrintListOfIntA(Numbers()) == PrintListOfIntA(half) + PrintListOfIntA(half);
    assert "12345" + "12345" == "1234512345";
  }

  lemma SampleText()
    ensures ReduceConcat(Numbers()) == "1234512345"
    ensures PrintListOfIntA(Numbers()) == PrintListOfIntB(Numbers()) == "1234512345"
  {
    ReduceConcatIsPrintedText(Numbers());
    PrintVariantsAgree(Numbers());
    SamplePrinted();
  }

  lemma HalfEvens()
    ensures Sum(Filter(Half(), IsEven)) == 6
  {
    assert Filter(Half(), IsEven) == [2, 4];
    assert Sum([2, 4]) == 6;
  }

  lemma SampleDoubleEvens()
    ensures DoubleEvensAndSum(Numbers()) == 24
  {
    DoubleEvensIsTwiceEvenSum(Numbers());
    var half := Half();
    NumbersHalves();
    FilterAppend(half, half, IsEven);
    SumAppend(Filter(half, IsEven), Filter(half, IsEven));
    HalfEvens();
    assert Filter(Numbers(), IsEven) == Filter(half, IsEven) + Filter(half, IsEven);
  }
}
