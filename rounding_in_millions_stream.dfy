/** EdabitRoundingInMillionsStream: the same rounding, driven by IntStream.range(0, length)
    .forEach over the indices instead of an indexed for loop. Its private roundToNearestMillion
    is the same code as the loop version's, so the one in RoundingInMillions is used. */
module RoundingInMillionsStream {
  import Streams
  import opened RoundingInMillions

  /** millionsRounding: the lambda body runs once for every index that range(0, length) yields,
      in the order it yields them; the same array comes back. */
  method MillionsRounding(cities: array<City>) returns (r: array<City>)
    modifies cities
    ensures r == cities
    ensures cities[..] == RoundAll(old(cities[..]))
  {
    var indices := Streams.Range(0, cities.Length);
    Streams.RangeVisitsEachOnce(0, cities.Length);
    var k := 0;
    while k < |indices|
      invariant 0 <= k <= |indices|
      invariant forall j :: 0 <= j < k ==> cities[j] == RoundCity(old(cities[j]))
      invariant forall j :: k <= j < cities.Length ==> cities[j] == old(cities[j])
    {
      var i := indices[k];
      var city := cities[i];
      var population := if city.population < Threshold then 0 else RoundToNearestMillion(city.population);
      cities[i] := City(city.name, population);
      k := k + 1;
    }
    r := cities;
  }

  /** Both versions turn the same input into the same array contents. */
  method VersionsAgree(input: seq<City>) returns (byLoop: seq<City>, byStream: seq<City>)
    ensures byLoop == byStream == RoundAll(input)
  {
    var a := new City[|input|](i requires 0 <= i < |input| => input[i]);
    var b := new City[|input|](i requires 0 <= i < |input| => input[i]);
    assert a[..] == input && b[..] == input;
    var ra := RoundingInMillions.MillionsRounding(a);
    var rb := MillionsRounding(b);
    byLoop, byStream := ra[..], rb[..];
  }

  /** main: the first population of the rounded sample array. */
  method RunSample() returns (printed: int)
    ensures printed == 1000000
  {
    var arr := new City[] [City("Nice", 942208), City("Abu Dhabi", 1482816), City("Naples", 2186853), City("Vatican City", 572)];
    assert arr[..] == SampleCities();
    SampleRounding();
    var rounded := MillionsRounding(arr);
    printed := rounded[0].population;
  }
}
