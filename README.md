# Java stream katas, modelled in Dafny

This project models the computational core of a small collection of Java katas built on
`java.util.stream`:

- **Population rounding.** Two versions of `millionsRounding` update an array of
  (name, population) entries in place. One uses an indexed `for` loop; the other uses
  `IntStream.range(...).forEach`. A population under 500000 becomes 0; any other becomes the
  nearest multiple of a million, with halves rounding up.
- **Ordered-string check.** Two versions of `isInOrder`. One copies the string into a
  `char[]`, sorts it with `Arrays.sort` and compares. The other splits the string into
  one-character strings, sorts them with `Stream.sorted` and joins them.
- **Bounded search.** This is
  `ExampleInfiniteStream`. It sums twice the first `n` integers from `k` on that are even and
  whose square root exceeds 20. One version is a lazy pipeline over `Stream.iterate`, the
  other a `while` loop.
- **First match.** This is
  `ExampleStreamFindFirst`. It finds twice the first element greater than 3 that is even. There
  are three versions: a pipeline, the same pipeline through named methods, and a `for`
  loop with `break`.
- **Folds.** These are in
  `ExampleLambdas`:
  - the sum by `reduce`;
  - the concatenation of decimal renderings by `reduce`;
  - the text the two print methods write;
  - the sum of the doubled evens.
- **Records.** This covers `Person` (an immutable record with a `toString`) and the two collectors over
  the sample list of people:
  - `toMap` keyed by `name + "-" + age`, which fails on a duplicate key;
  - `groupingBy(Person::getName)`.

The layout:

- **One module per Java file.** Each kata is a module named after its file.
- **Shared stream stages.** The module `Streams` defines the stream stages the katas use as
  functions on the finite sequence of elements in encounter order: `filter`, `map`,
  `findFirst`, `sum`, `joining`, `reduce`, `IntStream.range` and `sorted`.
- **Decimal rendering.** The module `Decimal` models `String.valueOf(int)`.
- **The sample people.** The module `People` holds `Person` and the `createPeople` list.
  The two collector examples share it.
- **Imperative code stays imperative.** Where the Java code changes state, that code is
  imperative Dafny:
  - the rounding loops work on an `array` with `modifies` clauses;
  - `isInOrder` sorts a fresh `char` array in place;
  - `computeImperative` and `imperativeStyle` are `while` loops with invariants.
- **Pipelines are functions.** Pipelines and collectors are recursive functions.
- **Partner definitions.** Each operation is connected by a lemma or a method contract to a
  partner: the other Java version, a reference definition, or a closed form.

## Model

| member | source | states |
|---|---|---|
| Decimal.ValueOf | src/main/java/get/a/taste/of/lambdas/and/get/addicted/to/streams/by/venkat/subramaniam/ExampleLambdas.java:20 | Definition without a contract. String.valueOf(int): an optional minus sign, then the digits. Its meaning is stated by NatToStringRoundTrip and ValueOfInjective. |
| Decimal.NatToStringRoundTrip | src/main/java/get/a/taste/of/lambdas/and/get/addicted/to/streams/by/venkat/subramaniam/ExampleLambdas.java:20 | The decimal rendering of a natural number is a non-empty run of digits. It starts with '0' only for 0 itself. Read back as a number, it gives the original value. |
| Decimal.ValueOfInjective | src/main/java/get/a/taste/of/lambdas/and/get/addicted/to/streams/by/venkat/subramaniam/ExampleLambdas.java:43 | String.valueOf is injective on int: equal renderings come from equal numbers. |
| Streams.Filter | src/main/java/get/a/taste/of/lambdas/and/get/addicted/to/streams/by/venkat/subramaniam/ExampleStreamFindFirst.java:24-25 | Definition without a contract. filter(p). Its meaning is stated by FilterAppend, and for the katas by DeclarativeIsFirstMatch and DoubleEvensIsTwiceEvenSum. |
| Streams.Map | src/main/java/get/a/taste/of/lambdas/and/get/addicted/to/streams/by/venkat/subramaniam/ExampleStreamFindFirst.java:26 | Definition without a contract. map(f)/mapToInt(f). Its meaning is stated by MapAppend and MapStringToString. |
| Streams.FindFirst | src/main/java/get/a/taste/of/lambdas/and/get/addicted/to/streams/by/venkat/subramaniam/ExampleStreamFindFirst.java:27 | Definition without a contract. findFirst(). Its meaning is stated by FindFirstAppend. |
| Streams.Sum | src/main/java/get/a/taste/of/lambdas/and/get/addicted/to/streams/by/venkat/subramaniam/ExampleLambdas.java:54 | Definition without a contract. IntStream.sum(). Its meaning is stated by SumAppend, ReduceSumIsSum and SumClosedForm. |
| Streams.Joining | src/main/java/EdabitIsTheStringInOrderStreamVersion.java:15 | Definition without a contract. Collectors.joining(""). Its meaning is stated by JoiningAppend and JoiningPieces. |
| Streams.Reduce | src/main/java/get/a/taste/of/lambdas/and/get/addicted/to/streams/by/venkat/subramaniam/ExampleLambdas.java:37 | Definition without a contract. reduce(identity, op) as a left fold. Its meaning is stated by ReduceSumFrom and ReduceConcatFrom. |
| Streams.InsertionSort | src/main/java/EdabitIsTheStringInOrderStreamVersion.java:14 | Definition without a contract. sorted(). Its meaning is stated by SortPermutes, SortSorted and SortStable. |
| Streams.Range | src/main/java/edabit/stream/EdabitRoundingInMillionsStream.java:18 | range(lo, hi) has hi - lo entries (none when hi <= lo), and entry i is lo + i. |
| Streams.RangeVisitsEachOnce | src/main/java/edabit/stream/EdabitRoundingInMillionsStream.java:18 | The indices of range(lo, hi) strictly ascend, and they are exactly the integers x with lo <= x < hi. |
| Streams.FilterAppend | src/main/java/get/a/taste/of/lambdas/and/get/addicted/to/streams/by/venkat/subramaniam/ExampleStreamFindFirst.java:24-25 | filter on a concatenation is the concatenation of the filters: encounter order is kept. |
| Streams.MapAppend | src/main/java/get/a/taste/of/lambdas/and/get/addicted/to/streams/by/venkat/subramaniam/ExampleStreamFindFirst.java:26 | map on a concatenation is the concatenation of the maps. |
| Streams.SumAppend | src/main/java/get/a/taste/of/lambdas/and/get/addicted/to/streams/by/venkat/subramaniam/ExampleLambdas.java:54 | sum of a concatenation is the sum of the parts. |
| Streams.JoiningAppend | src/main/java/EdabitIsTheStringInOrderStreamVersion.java:15 | joining("") of a concatenation is the concatenation of the joins. |
| Streams.InsertPermutes | src/main/java/EdabitIsTheStringInOrderStreamVersion.java:14 | One insertion step of the sort adds exactly the inserted element to the multiset. |
| Streams.SortPermutes | src/main/java/EdabitIsTheStringInOrderStreamVersion.java:14 | sorted() returns a permutation of its input: the multisets are equal. |
| Streams.InsertSorted | src/main/java/EdabitIsTheStringInOrderStreamVersion.java:14 | For a total, transitive order, inserting into a sorted list keeps it sorted. |
| Streams.SortSorted | src/main/java/EdabitIsTheStringInOrderStreamVersion.java:14 | For a total, transitive natural order, sorted() returns its elements with each one at or below every later one. |
| Streams.InsertKeepsEquivalentOrder | src/main/java/EdabitIsTheStringInOrderStreamVersion.java:14 | Insertion never moves an element past one the order cannot tell apart from it. So for every class of equivalent elements, the class keeps its relative order. |
| Streams.SortStable | src/main/java/EdabitIsTheStringInOrderStreamVersion.java:14 | sorted() is stable: for every a, the elements equivalent to a appear in the result in their encounter order. |
| RoundingInMillions.RoundToNearestMillion | src/main/java/EdabitRoundingInMillions.java:23-25 | The result is a multiple of 1000000. The population lies in the half-open window [r - 500000, r + 500000), so halves round up. |
| RoundingInMillions.RoundPopulation | src/main/java/EdabitRoundingInMillions.java:17 | Below 500000 the result is 0. From 500000 on it is a multiple of a million, at least 1000000, whose window holds the population. It is never negative. |
| RoundingInMillions.MillionsRounding | src/main/java/EdabitRoundingInMillions.java:14-21 | It returns the same array. Its length is unchanged. Each entry i becomes entry i of the input with its name kept and its population rounded. |
| RoundingInMillions.RoundToNearestMillionIsNearest | src/main/java/EdabitRoundingInMillions.java:23-25 | No multiple of a million is closer to the population than the result. Of two equally close multiples, the larger one is the result. |
| RoundingInMillions.RoundToNearestMillionUnique | src/main/java/EdabitRoundingInMillions.java:23-25 | Any multiple of a million whose half-open window holds the population is the result, so the rounding rule has one answer. |
| RoundingInMillions.RoundPopulationIdempotent | src/main/java/EdabitRoundingInMillions.java:17 | Rounding a rounded population changes nothing. |
| RoundingInMillions.RoundAllIdempotent | src/main/java/EdabitRoundingInMillions.java:14-21 | Applying millionsRounding's effect twice gives the same array contents as applying it once. |
| RoundingInMillions.RoundPopulationFitsInt | src/main/java/EdabitRoundingInMillions.java:24 | For a population in the Java int range, the rounded value is between 0 and 2147000000, so the (int) cast does not change it. |
| RoundingInMillions.SampleRounding | src/main/java/EdabitRoundingInMillions.java:5-10 | The sample becomes Nice 1000000, Abu Dhabi 1000000, Naples 2000000 and Vatican City 0. |
| RoundingInMillions.RunSample | src/main/java/EdabitRoundingInMillions.java:11 | main prints 1000000. |
| RoundingInMillionsStream.MillionsRounding | src/main/java/edabit/stream/EdabitRoundingInMillionsStream.java:16-24 | The forEach over range(0, length) returns the same array. Each entry i becomes the rounded entry i, with the same threshold and rounding rule as the loop version. |
| RoundingInMillionsStream.VersionsAgree | src/main/java/edabit/stream/EdabitRoundingInMillionsStream.java:16-24 | On every input the loop version and the stream version produce the same array contents. |
| RoundingInMillionsStream.RunSample | src/main/java/edabit/stream/EdabitRoundingInMillionsStream.java:7-13 | main prints 1000000. |
| StringInOrder.SortedPermutationUnique | src/main/java/edabit/stream/EdabitIsTheStringInOrder.java:13-17 | Two non-decreasing strings with the same multiset of characters are equal. So the sorted copy equals the string exactly when the string is already sorted. |
| StringInOrder.HeadIsLeast | src/main/java/edabit/stream/EdabitIsTheStringInOrder.java:13 | In a non-decreasing string, the first character is at most any character of the string. |
| StringInOrder.Sort | src/main/java/edabit/stream/EdabitIsTheStringInOrder.java:13 | Arrays.sort leaves the array non-decreasing and a permutation of its old contents. |
| StringInOrder.IsInOrder | src/main/java/edabit/stream/EdabitIsTheStringInOrder.java:11-18 | The result is true exactly when the characters of the string are non-decreasing by char value. The string is a value, and only the fresh copy is sorted. |
| StringInOrder.ShortStringsInOrder | src/main/java/edabit/stream/EdabitIsTheStringInOrder.java:12-17 | isInOrder is true for the empty string and every one-character string. |
| StringInOrder.RunSample | src/main/java/edabit/stream/EdabitIsTheStringInOrder.java:8 | isInOrder("edabit") is false. |
| StringInOrderStream.StringLe | src/main/java/EdabitIsTheStringInOrderStreamVersion.java:14 | Definition without a contract. String.compareTo(a, b) <= 0, the natural order sorted() uses. Its meaning for one-character pieces is stated by InsertPiece and EquivalentPiecesAreEqual. |
| StringInOrderStream.Split | src/main/java/EdabitIsTheStringInOrderStreamVersion.java:13 | Definition without a contract. str.split(""). Its meaning is stated by JoiningPieces and EmptyStringInOrder: "" gives [""], any other string gives its one-character pieces. |
| StringInOrderStream.IsInOrder | src/main/java/EdabitIsTheStringInOrderStreamVersion.java:11-16 | Definition without a contract. isInOrder, the stream version. Its meaning is stated by IsInOrderIffOrdered and VersionsAgree. |
| StringInOrderStream.SortPieces | src/main/java/EdabitIsTheStringInOrderStreamVersion.java:13-14 | Sorting the one-character pieces by String order is the same as sorting the characters. |
| StringInOrderStream.JoiningPieces | src/main/java/EdabitIsTheStringInOrderStreamVersion.java:13-15 | Joining the one-character pieces of a string gives the string back. |
| StringInOrderStream.InsertPiece | src/main/java/EdabitIsTheStringInOrderStreamVersion.java:14 | Inserting a one-character piece into the pieces of a string gives the pieces of the string with the character inserted. |
| StringInOrderStream.SortOrdered | src/main/java/EdabitIsTheStringInOrderStreamVersion.java:14 | Sorting the characters gives a non-decreasing string. It follows from Streams.SortSorted, since char order is total and transitive. |
| StringInOrderStream.EquivalentPiecesAreEqual | src/main/java/EdabitIsTheStringInOrderStreamVersion.java:14 | Two one-character pieces that String order ranks equal are the same piece, so a stable sort and any other sort join to the same string. |
| StringInOrderStream.SortedJoinIsSortedPermutation | src/main/java/EdabitIsTheStringInOrderStreamVersion.java:13-15 | The joined sorted pieces are a permutation of the string's characters, and they are non-decreasing. |
| StringInOrderStream.IsInOrderIffOrdered | src/main/java/EdabitIsTheStringInOrderStreamVersion.java:11-16 | The stream version is true exactly when the characters are non-decreasing. |
| StringInOrderStream.EmptyStringInOrder | src/main/java/EdabitIsTheStringInOrderStreamVersion.java:13-15 | "" splits into one empty piece, and the sorted join gives "" back, so the result is true. |
| StringInOrderStream.SampleEdabit | src/main/java/EdabitIsTheStringInOrderStreamVersion.java:8 | isInOrder("edabit") is false. |
| StringInOrderStream.VersionsAgree | src/main/java/EdabitIsTheStringInOrderStreamVersion.java:11-16 | The stream version and the char-array version give the same answer on every string. |
| InfiniteStream.ComputeDeclarative | src/main/java/get/a/taste/of/lambdas/and/get/addicted/to/streams/by/venkat/subramaniam/ExampleInfiniteStream.java:22-29 | Definition without a contract. computeDeclarative: Err for a negative n, as limit throws, and otherwise the doubled sum of the n qualifying values. Its meaning is stated by QualifyingClosedForm, QualifyingAreTheFirst, SumClosedForm and ComputeImperative. |
| InfiniteStream.ComputeImperative | src/main/java/get/a/taste/of/lambdas/and/get/addicted/to/streams/by/venkat/subramaniam/ExampleInfiniteStream.java:31-44 | The loop always terminates. For n <= 0 it returns 0. For n >= 0 it returns what the pipeline returns: twice the sum of the first n even integers from k on that exceed 400. For n < 0 the loop returns 0, while the pipeline fails because limit throws IllegalArgumentException. |
| InfiniteStream.ScanStep | src/main/java/get/a/taste/of/lambdas/and/get/addicted/to/streams/by/venkat/subramaniam/ExampleInfiniteStream.java:36-41 | One step of the loop: the index is added to the accepted values exactly when it qualifies, and the values still to be found shrink to match. |
| InfiniteStream.SumDoubledAppend | src/main/java/get/a/taste/of/lambdas/and/get/addicted/to/streams/by/venkat/subramaniam/ExampleInfiniteStream.java:26-28 | Adding one more value to the stream adds twice that value to the doubled sum, which is the update result += index * 2 of the loop. |
| InfiniteStream.FirstQualifying | src/main/java/get/a/taste/of/lambdas/and/get/addicted/to/streams/by/venkat/subramaniam/ExampleInfiniteStream.java:23-25 | It is the first value from e on that passes both filters: it qualifies, and nothing between e and it qualifies. |
| InfiniteStream.QualifyingClosedForm | src/main/java/get/a/taste/of/lambdas/and/get/addicted/to/streams/by/venkat/subramaniam/ExampleInfiniteStream.java:23-27 | The limited stream has n elements, and element i is FirstQualifying(e) + 2i. |
| InfiniteStream.QualifyingAreTheFirst | src/main/java/get/a/taste/of/lambdas/and/get/addicted/to/streams/by/venkat/subramaniam/ExampleInfiniteStream.java:23-27 | Every summed value qualifies. Every qualifying value up to the last summed one is summed. |
| InfiniteStream.SumClosedForm | src/main/java/get/a/taste/of/lambdas/and/get/addicted/to/streams/by/venkat/subramaniam/ExampleInfiniteStream.java:22-29 | The pipeline's sum is 2n(FirstQualifying(k) + n - 1). |
| InfiniteStream.SumIsMultipleOfFour | src/main/java/get/a/taste/of/lambdas/and/get/addicted/to/streams/by/venkat/subramaniam/ExampleInfiniteStream.java:24-26 | The total is a multiple of 4, because each term is twice an even number. |
| InfiniteStream.SampleCompute | src/main/java/get/a/taste/of/lambdas/and/get/addicted/to/streams/by/venkat/subramaniam/ExampleInfiniteStream.java:14-19 | compute(1, 3) = 2 * (402 + 404 + 406) = 2424. |
| FindFirst.DeclarativeStyle | src/main/java/get/a/taste/of/lambdas/and/get/addicted/to/streams/by/venkat/subramaniam/ExampleStreamFindFirst.java:21-28 | Definition without a contract. declarativeStyle. Its meaning is stated by DeclarativeIsFirstMatch and LaterElementsIgnored. |
| FindFirst.IsGT3 | src/main/java/get/a/taste/of/lambdas/and/get/addicted/to/streams/by/venkat/subramaniam/ExampleStreamFindFirst.java:42-45 | Definition without a contract. isGT3 without its println. Its meaning is stated by BadDebuggingSameResult. |
| FindFirst.IsEven | src/main/java/get/a/taste/of/lambdas/and/get/addicted/to/streams/by/venkat/subramaniam/ExampleStreamFindFirst.java:46-49 | Definition without a contract. isEven without its println. Its meaning is stated by BadDebuggingSameResult. |
| FindFirst.DoubleIt | src/main/java/get/a/taste/of/lambdas/and/get/addicted/to/streams/by/venkat/subramaniam/ExampleStreamFindFirst.java:50-53 | Definition without a contract. doubleIt without its println. Its meaning is stated by BadDebuggingSameResult. |
| FindFirst.DeclarativeStyleBadDebugging | src/main/java/get/a/taste/of/lambdas/and/get/addicted/to/streams/by/venkat/subramaniam/ExampleStreamFindFirst.java:54-61 | Definition without a contract. declarativeStyleBadDebugging. Its meaning is stated by BadDebuggingSameResult. |
| FindFirst.FindFirstAppend | src/main/java/get/a/taste/of/lambdas/and/get/addicted/to/streams/by/venkat/subramaniam/ExampleStreamFindFirst.java:27 | findFirst of a concatenation is the head of the first part when that part is non-empty, and otherwise findFirst of the second. |
| FindFirst.DeclarativeStep | src/main/java/get/a/taste/of/lambdas/and/get/addicted/to/streams/by/venkat/subramaniam/ExampleStreamFindFirst.java:21-28 | Both pipelines return twice the head when it matches, and otherwise go on with the rest. |
| FindFirst.DeclarativeIsReference | src/main/java/get/a/taste/of/lambdas/and/get/addicted/to/streams/by/venkat/subramaniam/ExampleStreamFindFirst.java:21-28 | The lambda pipeline and the method-reference pipeline both equal the reference: twice the first element that is > 3 and even, or nothing. |
| FindFirst.ReferenceIsFirstMatch | src/main/java/get/a/taste/of/lambdas/and/get/addicted/to/streams/by/venkat/subramaniam/ExampleStreamFindFirst.java:21-28 | The reference is empty exactly when nothing matches. Otherwise it is twice a matching element with no match before it. |
| FindFirst.DeclarativeIsFirstMatch | src/main/java/get/a/taste/of/lambdas/and/get/addicted/to/streams/by/venkat/subramaniam/ExampleStreamFindFirst.java:21-28 | declarativeStyle is empty exactly when nothing matches. Otherwise it is Some(2e) for the first e in list order with e > 3 and e even. |
| FindFirst.ReferenceIgnoresLater | src/main/java/get/a/taste/of/lambdas/and/get/addicted/to/streams/by/venkat/subramaniam/ExampleStreamFindFirst.java:21-28 | Once the reference has found a match, appending elements does not change it. |
| FindFirst.LaterElementsIgnored | src/main/java/get/a/taste/of/lambdas/and/get/addicted/to/streams/by/venkat/subramaniam/ExampleStreamFindFirst.java:21-28 | Elements after the first match do not affect declarativeStyle. |
| FindFirst.BadDebuggingSameResult | src/main/java/get/a/taste/of/lambdas/and/get/addicted/to/streams/by/venkat/subramaniam/ExampleStreamFindFirst.java:42-60 | isGT3, isEven and doubleIt return what the lambdas return, so declarativeStyleBadDebugging gives the same result on every list. |
| FindFirst.ImperativeStyle | src/main/java/get/a/taste/of/lambdas/and/get/addicted/to/streams/by/venkat/subramaniam/ExampleStreamFindFirst.java:30-39 | The loop with break returns the pipeline's value when there is a match, and 0 otherwise. |
| FindFirst.SampleDeclarative | src/main/java/get/a/taste/of/lambdas/and/get/addicted/to/streams/by/venkat/subramaniam/ExampleStreamFindFirst.java:7-8 | On the sample list, where 4 and 5 are swapped, the pipeline gives Some(8). |
| FindFirst.RunImperativeSample | src/main/java/get/a/taste/of/lambdas/and/get/addicted/to/streams/by/venkat/subramaniam/ExampleStreamFindFirst.java:30-39 | The loop prints 8 on the sample list. |
| Lambdas.PrintListOfIntA | src/main/java/get/a/taste/of/lambdas/and/get/addicted/to/streams/by/venkat/subramaniam/ExampleLambdas.java:18-22 | Definition without a contract. The text printListOfIntA writes. Its meaning is stated by ReduceConcatIsPrintedText and SampleText. |
| Lambdas.PrintListOfIntB | src/main/java/get/a/taste/of/lambdas/and/get/addicted/to/streams/by/venkat/subramaniam/ExampleLambdas.java:24-31 | Definition without a contract. The text printListOfIntB writes. Its meaning is stated by PrintVariantsAgree. |
| Lambdas.ReduceSum | src/main/java/get/a/taste/of/lambdas/and/get/addicted/to/streams/by/venkat/subramaniam/ExampleLambdas.java:33-38 | Definition without a contract. reduce(0, Integer::sum). Its meaning is stated by ReduceSumIsSum and SampleSum. |
| Lambdas.ReduceConcat | src/main/java/get/a/taste/of/lambdas/and/get/addicted/to/streams/by/venkat/subramaniam/ExampleLambdas.java:40-46 | Definition without a contract. map(String::valueOf).reduce("", String::concat). Its meaning is stated by ReduceConcatIsPrintedText. |
| Lambdas.DoubleEvensAndSum | src/main/java/get/a/taste/of/lambdas/and/get/addicted/to/streams/by/venkat/subramaniam/ExampleLambdas.java:48-55 | Definition without a contract. doubleEvensAndSumLambda. Its meaning is stated by DoubleEvensIsTwiceEvenSum and SampleDoubleEvens. |
| Lambdas.ReduceSumFrom | src/main/java/get/a/taste/of/lambdas/and/get/addicted/to/streams/by/venkat/subramaniam/ExampleLambdas.java:37 | reduce(acc, Integer::sum) is acc plus the sum of the list. |
| Lambdas.ReduceSumIsSum | src/main/java/get/a/taste/of/lambdas/and/get/addicted/to/streams/by/venkat/subramaniam/ExampleLambdas.java:33-38 | The reduce is the sum of the list, and so 0 for the empty list. |
| Lambdas.ReduceConcatFrom | src/main/java/get/a/taste/of/lambdas/and/get/addicted/to/streams/by/venkat/subramaniam/ExampleLambdas.java:45 | reduce(acc, String::concat) is acc followed by the pieces in order. |
| Lambdas.ReduceConcatIsPrintedText | src/main/java/get/a/taste/of/lambdas/and/get/addicted/to/streams/by/venkat/subramaniam/ExampleLambdas.java:18-22 | The concat reduce is the in-order concatenation of the decimal renderings, which is the text printListOfIntA writes. It is "" for the empty list. |
| Lambdas.MapStringToString | src/main/java/get/a/taste/of/lambdas/and/get/addicted/to/streams/by/venkat/subramaniam/ExampleLambdas.java:29 | map(String::toString) leaves a list of strings unchanged. |
| Lambdas.PrintVariantsAgree | src/main/java/get/a/taste/of/lambdas/and/get/addicted/to/streams/by/venkat/subramaniam/ExampleLambdas.java:18-31 | printListOfIntA and printListOfIntB write the same text for every list. |
| Lambdas.DoubleEvensIsTwiceEvenSum | src/main/java/get/a/taste/of/lambdas/and/get/addicted/to/streams/by/venkat/subramaniam/ExampleLambdas.java:48-55 | doubleEvensAndSumLambda is twice the sum of the even elements. |
| Lambdas.SampleSum | src/main/java/get/a/taste/of/lambdas/and/get/addicted/to/streams/by/venkat/subramaniam/ExampleLambdas.java:9 | The sum reduce is 30 on the sample list. |
| Lambdas.SampleText | src/main/java/get/a/taste/of/lambdas/and/get/addicted/to/streams/by/venkat/subramaniam/ExampleLambdas.java:40-46 | On the sample list the concat reduce and both print methods give "1234512345". |
| Lambdas.SampleDoubleEvens | src/main/java/get/a/taste/of/lambdas/and/get/addicted/to/streams/by/venkat/subramaniam/ExampleLambdas.java:48-55 | The doubled evens sum to 24 on the sample list. |
| People.Person | src/main/java/get/a/taste/of/lambdas/and/get/addicted/to/streams/by/venkat/subramaniam/people/Person.java:3-13 | Definition without a contract. Person as an immutable record of name, gender and age. The getters at lines 20-30 are its destructors. |
| People.GenderName | src/main/java/get/a/taste/of/lambdas/and/get/addicted/to/streams/by/venkat/subramaniam/people/Person.java:17 | Definition without a contract. The rendering of the `gender` field in toString. It stands in for Gender.java, which is not modelled (see Gender under Left out): the datatype `Gender` has the two constants FEMALE and MALE, each printed by its name. Its meaning is stated by TailInjective. |
| People.ToString | src/main/java/get/a/taste/of/lambdas/and/get/addicted/to/streams/by/venkat/subramaniam/people/Person.java:15-18 | Definition without a contract. toString. Its meaning is stated by ToStringShape, TailInjective and ToStringInjective. |
| People.CreatePeople | src/main/java/get/a/taste/of/lambdas/and/get/addicted/to/streams/by/venkat/subramaniam/people/ExampleStreamToMap.java:9-20 | Definition without a contract. createPeople, the eight sample people. Its content is stated by SampleKeys and SampleNames. |
| People.ToStringShape | src/main/java/get/a/taste/of/lambdas/and/get/addicted/to/streams/by/venkat/subramaniam/people/Person.java:15-18 | toString is '{', then the name, then a tail that starts with a comma. |
| People.SplitAtSeparator | src/main/java/get/a/taste/of/lambdas/and/get/addicted/to/streams/by/venkat/subramaniam/people/Person.java:17 | A name free of the separator, followed by a part that starts with the separator, splits in only one way. This is what lets toString's ", " and the toMap key's "-" be read back. |
| People.TailInjective | src/main/java/get/a/taste/of/lambdas/and/get/addicted/to/streams/by/venkat/subramaniam/people/Person.java:15-18 | The part of toString after the name determines the gender and the age. |
| People.ToStringInjective | src/main/java/get/a/taste/of/lambdas/and/get/addicted/to/streams/by/venkat/subramaniam/people/Person.java:15-18 | When names contain no comma, equal renderings mean equal name, gender and age. |
| People.SampleToString | src/main/java/get/a/taste/of/lambdas/and/get/addicted/to/streams/by/venkat/subramaniam/people/Person.java:15-18 | Sara, female, 20 renders as "{Sara, FEMALE, 20}". |
| StreamToMap.ToMap | src/main/java/get/a/taste/of/lambdas/and/get/addicted/to/streams/by/venkat/subramaniam/people/ExampleStreamToMap.java:29-34 | Definition without a contract. Collectors.toMap without a merge function. Its meaning is stated by ToMapOkIffDistinct and ToMapReportsFirstClash. |
| StreamToMap.KeyOf | src/main/java/get/a/taste/of/lambdas/and/get/addicted/to/streams/by/venkat/subramaniam/people/ExampleStreamToMap.java:31 | Definition without a contract. The key mapper name + "-" + age. Its meaning is stated by KeyInjective and KeysCanCollide. |
| StreamToMap.PeopleByNameAge | src/main/java/get/a/taste/of/lambdas/and/get/addicted/to/streams/by/venkat/subramaniam/people/ExampleStreamToMap.java:27-34 | Definition without a contract. The collect in main. Its meaning is stated by SampleToMap and DuplicateRecordsFail. |
| StreamToMap.FreshKeyStaysDistinct | src/main/java/get/a/taste/of/lambdas/and/get/addicted/to/streams/by/venkat/subramaniam/people/ExampleStreamToMap.java:29-33 | Accumulating an element whose key is not yet in the map keeps the keys distinct. |
| StreamToMap.FreshKeyStaysKeyed | src/main/java/get/a/taste/of/lambdas/and/get/addicted/to/streams/by/venkat/subramaniam/people/ExampleStreamToMap.java:29-33 | Accumulating an element whose key is not yet in the map keeps it keyed. Every element is stored under its own key, every key belongs to an element, and there is one entry per element. |
| StreamToMap.KeyAlreadyPresent | src/main/java/get/a/taste/of/lambdas/and/get/addicted/to/streams/by/venkat/subramaniam/people/ExampleStreamToMap.java:29-34 | An element whose key is already in the map clashes with an earlier element. |
| StreamToMap.ToMapOkIffDistinct | src/main/java/get/a/taste/of/lambdas/and/get/addicted/to/streams/by/venkat/subramaniam/people/ExampleStreamToMap.java:27-34 | toMap without a merge function succeeds exactly when no two elements share a key. The map then holds every element as the value under its key, has no other keys, and has one entry per element. |
| StreamToMap.ToMapReportsFirstClash | src/main/java/get/a/taste/of/lambdas/and/get/addicted/to/streams/by/venkat/subramaniam/people/ExampleStreamToMap.java:27-34 | On failure, the reported key is shared by two elements, and the elements before the second of them have distinct keys. So the failure is at the first clash in encounter order. |
| StreamToMap.SampleKeys | src/main/java/get/a/taste/of/lambdas/and/get/addicted/to/streams/by/venkat/subramaniam/people/ExampleStreamToMap.java:9-20 | The sample people have the keys Sara-20, Sara-22, Bob-20, Paula-32, Paul-32, Jack-2, Jack-72 and Jill-12, in that order. |
| StreamToMap.SampleKeysDistinct | src/main/java/get/a/taste/of/lambdas/and/get/addicted/to/streams/by/venkat/subramaniam/people/ExampleStreamToMap.java:9-20 | The eight sample keys are pairwise different. |
| StreamToMap.SampleDistinct | src/main/java/get/a/taste/of/lambdas/and/get/addicted/to/streams/by/venkat/subramaniam/people/ExampleStreamToMap.java:9-20 | No two sample people share a name-age key. |
| StreamToMap.SampleToMapOk | src/main/java/get/a/taste/of/lambdas/and/get/addicted/to/streams/by/venkat/subramaniam/people/ExampleStreamToMap.java:27-34 | The sample collect does not throw, and the map it builds holds every person under their own key. |
| StreamToMap.KeyedMapHas | src/main/java/get/a/taste/of/lambdas/and/get/addicted/to/streams/by/venkat/subramaniam/people/ExampleStreamToMap.java:29-33 | A keyed map's keys are exactly the listed keys of its elements. |
| StreamToMap.SampleToMap | src/main/java/get/a/taste/of/lambdas/and/get/addicted/to/streams/by/venkat/subramaniam/people/ExampleStreamToMap.java:22-34 | The sample collect succeeds with exactly the eight listed keys and eight entries. |
| StreamToMap.DuplicateRecordsFail | src/main/java/get/a/taste/of/lambdas/and/get/addicted/to/streams/by/venkat/subramaniam/people/ExampleStreamToMap.java:29-34 | Two records with the same name and age make toMap fail with that key, even as separate list elements. |
| StreamToMap.KeysCanCollide | src/main/java/get/a/taste/of/lambdas/and/get/addicted/to/streams/by/venkat/subramaniam/people/ExampleStreamToMap.java:31 | The key mapper is not injective in general: ("A", -1) and ("A-", 1) both give "A--1". |
| StreamToMap.KeyInjective | src/main/java/get/a/taste/of/lambdas/and/get/addicted/to/streams/by/venkat/subramaniam/people/ExampleStreamToMap.java:31 | When names contain no '-', equal keys mean equal name and age. |
| GroupingBy.GroupBy | src/main/java/get/a/taste/of/lambdas/and/get/addicted/to/streams/by/venkat/subramaniam/people/ExampleStreamGroupingByOneParam.java:30 | Definition without a contract. Collectors.groupingBy(classifier). Its meaning is stated by GroupAt, MembersKeepOrder, GroupsAreNonEmpty and GroupSizesSum. |
| GroupingBy.GroupingByName | src/main/java/get/a/taste/of/lambdas/and/get/addicted/to/streams/by/venkat/subramaniam/people/ExampleStreamGroupingByOneParam.java:28-30 | Definition without a contract. The collect in main, grouping by Person::getName. Its meaning is stated by SampleNames, SampleGroups and SampleGrouping. |
| GroupingBy.MembersAppend | src/main/java/get/a/taste/of/lambdas/and/get/addicted/to/streams/by/venkat/subramaniam/people/ExampleStreamGroupingByOneParam.java:30 | The filter on one key, applied to a list with one more element, gains that element at the end exactly when the element has the key. |
| GroupingBy.MembersAreThoseWithKey | src/main/java/get/a/taste/of/lambdas/and/get/addicted/to/streams/by/venkat/subramaniam/people/ExampleStreamGroupingByOneParam.java:30 | An element is in the filter on key k exactly when it is in the list and has key k. |
| GroupingBy.NoMembers | src/main/java/get/a/taste/of/lambdas/and/get/addicted/to/streams/by/venkat/subramaniam/people/ExampleStreamGroupingByOneParam.java:30 | When no element has key k, the filter on k is empty. |
| GroupingBy.MembersKeepOrder | src/main/java/get/a/taste/of/lambdas/and/get/addicted/to/streams/by/venkat/subramaniam/people/ExampleStreamGroupingByOneParam.java:30 | Two elements with the same key appear in their group in the order they had in the input. |
| GroupingBy.GroupAt | src/main/java/get/a/taste/of/lambdas/and/get/addicted/to/streams/by/venkat/subramaniam/people/ExampleStreamGroupingByOneParam.java:28-30 | A key is in the groupingBy map exactly when some element has it. Its group is then the elements with that key, in encounter order. |
| GroupingBy.GroupAtIsNonEmpty | src/main/java/get/a/taste/of/lambdas/and/get/addicted/to/streams/by/venkat/subramaniam/people/ExampleStreamGroupingByOneParam.java:28-30 | The group of a present key is non-empty. |
| GroupingBy.GroupsAreNonEmpty | src/main/java/get/a/taste/of/lambdas/and/get/addicted/to/streams/by/venkat/subramaniam/people/ExampleStreamGroupingByOneParam.java:28-30 | No group is empty. |
| GroupingBy.KeysInOrderDistinct | src/main/java/get/a/taste/of/lambdas/and/get/addicted/to/streams/by/venkat/subramaniam/people/ExampleStreamGroupingByOneParam.java:28-30 | The list of distinct keys, in order of first appearance, has no repeats. |
| GroupingBy.KeysInOrderAt | src/main/java/get/a/taste/of/lambdas/and/get/addicted/to/streams/by/venkat/subramaniam/people/ExampleStreamGroupingByOneParam.java:28-30 | A key is in the distinct-key list exactly when some element has it. |
| GroupingBy.SizesUnchanged | src/main/java/get/a/taste/of/lambdas/and/get/addicted/to/streams/by/venkat/subramaniam/people/ExampleStreamGroupingByOneParam.java:30 | Changing a group whose key is not listed leaves the total of the listed group sizes unchanged. |
| GroupingBy.SizesGrow | src/main/java/get/a/taste/of/lambdas/and/get/addicted/to/streams/by/venkat/subramaniam/people/ExampleStreamGroupingByOneParam.java:30 | Appending one element to a group that is listed once adds one to the total. |
| GroupingBy.GroupSizesSum | src/main/java/get/a/taste/of/lambdas/and/get/addicted/to/streams/by/venkat/subramaniam/people/ExampleStreamGroupingByOneParam.java:28-30 | The map has one entry per distinct key, and the group sizes add up to the number of elements. So each element is in exactly one group. |
| GroupingBy.SampleNames | src/main/java/get/a/taste/of/lambdas/and/get/addicted/to/streams/by/venkat/subramaniam/people/ExampleStreamGroupingByOneParam.java:9-20 | The sample's keys are Sara, Bob, Paula, Paul, Jack and Jill. |
| GroupingBy.SampleGroups | src/main/java/get/a/taste/of/lambdas/and/get/addicted/to/streams/by/venkat/subramaniam/people/ExampleStreamGroupingByOneParam.java:11-17 | Sara's group is Sara/20 then Sara/22, and Jack's group is Jack/2 then Jack/72. |
| GroupingBy.SampleGrouping | src/main/java/get/a/taste/of/lambdas/and/get/addicted/to/streams/by/venkat/subramaniam/people/ExampleStreamGroupingByOneParam.java:22-31 | The sample map has exactly six keys. |

## Left out

- **Console output.** Every `main` and `println`, the debug prints inside the char-array
  `isInOrder`, and the prints in `isGT3`/`isEven`/`doubleIt` are not modelled. The
  `RunSample` methods return the value that `main` would print.
- **Printed forms.** How Java prints an `Optional` or a `HashMap`, including the map's
  iteration order.
- **Object[] entries.** The untyped `Object[]` entries of the rounding katas, with their casts,
  are a typed `City(name, population)` record.
- **The inner-array write-back (aliasing).** At `EdabitRoundingInMillions.java:17` and
  `EdabitRoundingInMillionsStream.java:20` the Java code first writes the rounded population
  into the caller's own inner `Object[]`. Only then does it replace the entry with a fresh
  array. That write is not captured: the model has no inner arrays, so a caller that kept a
  reference to an inner array would see it change in Java but not in the model. An inner
  array that sits at two indices is rounded twice in Java; `RoundPopulationIdempotent` shows
  that this gives the same population as rounding once. `main` keeps no reference to its
  inner arrays, so it sees no difference.
- **Floating point.** Both uses are replaced by integer arithmetic:
  - `Math.round(p / 1e6) * 1e6` is replaced by exact integer half-up rounding;
  - `Math.sqrt(e) > 20` is replaced by `e > 400`, and a negative `e` never qualifies.
- **Java int overflow.** Integers are unbounded, so overflow is not modelled.
  `RoundPopulationFitsInt` shows that rounding stays inside the int range. The sums of
  `computeImperative`, `computeDeclarative` and the folds would wrap around in Java for very
  large inputs; the model gives the mathematical value instead. The search index wraps too:
  `index++` in `computeImperative` and `e -> e + 1` in `Stream.iterate` go from 2147483647 to
  -2147483648. So `computeImperative(2147483647, 1)` is 804 in Java (it wraps round to 402),
  while the model gives 2 * 2147483648.
- **computeDeclarative for a negative n** is modelled as an error, because `Stream.limit`
  rejects a negative size. `computeImperative` returns 0 in that case. The `ensures` of
  `ComputeImperative` state both outcomes.
- **Laziness.** The streams are modelled by their results. Laziness,
  the infinite `Stream.iterate` and short-circuiting are not modelled. The search is a
  recursive function with a decreasing measure.
- **StringInOrder.Sort** is an insertion sort of the `char` array, not the algorithm the
  JDK uses. Its `ensures` state what `Arrays.sort` promises: non-decreasing order and a
  permutation.
- **Streams.InsertionSort** stands in for `Stream.sorted`, and it too is an insertion sort,
  not the JDK's algorithm. What `sorted()` promises is proved about it as lemmas:
  - a permutation for every order (`SortPermutes`);
  - sorted for every total, transitive order (`SortSorted`);
  - stable for every transitive order (`SortStable`).

  In the string kata it sorts one-character strings by `StringLe`. There, order follows
  through `SortPieces`, which reduces the sort to sorting the characters. Stability does not
  matter there, because two equivalent one-character pieces are equal.
- **Strings** are Dafny strings, whose `char`s are Unicode scalar values, not Java's UTF-16
  code units. A supplementary character is therefore one element, and it orders above every
  character of the Basic Multilingual Plane. Java stores it as a surrogate pair. Both
  `Arrays.sort` and `split("")`/`sorted()` sort the two surrogate halves separately, as
  units of their own. So Java's `isInOrder` is false on every string with two or more
  supplementary characters, since each low half sorts above the next high half. It is also
  false when a character from U+E000 to U+FFFF comes before a supplementary one. It is true
  when one supplementary character is followed by characters from U+E000 to U+FFFF. On all
  these strings the model's `isInOrder` can differ from Java's. Lone surrogates cannot be
  represented at all. Locale
  and the regular-expression semantics of `String.split` are not modelled, beyond splitting
  into single characters.
- **Person identity.** Person's getters are the datatype's destructors, and its final fields
  are the datatype's immutability. Java compares two `Person` objects by identity, while
  Dafny compares datatype values structurally. The model keeps records with equal fields as
  separate list elements, and no property depends on telling them apart.
- **Gender.** Gender.java is not modelled. The enum is taken to have the constants FEMALE and
  MALE, printed by name.
- **ExampleLamdasTwo.java** is not part of this model. Its content is parallel streams,
  `Thread.sleep` and timing with a third-party stopwatch.
- **JavaStreams1.java** is not part of this model. It only prints a range.
