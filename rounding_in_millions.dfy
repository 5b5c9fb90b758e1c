/** EdabitRoundingInMillions: rounds the population of every (name, population) entry of an
    array in place: below 500000 it becomes 0, otherwise the nearest multiple of a million,
    halves rounding up. */
module RoundingInMillions {

  /** One entry of the cities array: the name and the population. */
  datatype City = City(name: string, population: int)

  const Threshold: int := 500000
  const Million: int := 1000000

  /** roundToNearestMillion: Math.round(pop / 1e6) * 1e6, that is floor(pop / 1e6 + 1/2)
      millions, written with integer (floor) division; exact for every int. */
  function RoundToNearestMillion(pop: int): (r: int)
    ensures r % Million == 0
    ensures r - Million / 2 <= pop < r + Million / 2
  {
    ((pop + Million / 2) / Million) * Million
  }

  /** The new population of one entry: `pop < 5e5 ? 0 : roundToNearestMillion(pop)`. */
  function RoundPopulation(pop: int): (r: int)
    ensures r >= 0 && r % Million == 0
    ensures pop < Threshold ==> r == 0
    ensures pop >= Threshold ==> r >= Million && r - Million / 2 <= pop < r + Million / 2
  {
    if pop < Threshold then 0 else RoundToNearestMillion(pop)
  }

  /** The entry written back at one index: the same name, the rounded population. */
  function RoundCity(c: City): City
  {
    City(c.name, RoundPopulation(c.population))
  }

  /** The whole array after millionsRounding, position by position. */
  function RoundAll(cities: seq<City>): seq<City>
  {
    seq(|cities|, i requires 0 <= i < |cities| => RoundCity(cities[i]))
  }

  /** millionsRounding, the indexed for loop: rewrites every entry in place and returns the
      array it was given. */
  method MillionsRounding(cities: array<City>) returns (r: array<City>)
    modifies cities
    ensures r == cities
    ensures cities[..] == RoundAll(old(cities[..]))
  {
    for i := 0 to cities.Length
      invariant forall j :: 0 <= j < i ==> cities[j] == RoundCity(old(cities[j]))
      invariant forall j :: i <= j < cities.Length ==> cities[j] == old(cities[j])
    {
      var city := cities[i];
      var population := if city.population < Threshold then 0 else RoundToNearestMillion(city.population);
      cities[i] := City(city.name, population);
    }
    r := cities;
  }

  /** The distance between two integers. */
  function Distance(a: int, b: int): nat { if a >= b then a - b else b - a }

  /** The result is the nearest multiple of a million: no multiple is closer, and of two equally
      close multiples the larger is chosen. */
  lemma RoundToNearestMillionIsNearest(pop: int, m: int)
    requires m % Million == 0
    ensures Distance(RoundToNearestMillion(pop), pop) <= Distance(m, pop)
    ensures Distance(RoundToNearestMillion(pop), pop) == Distance(m, pop) ==> m <= RoundToNearestMillion(pop)
  {
    var r := RoundToNearestMillion(pop);
    var q, qr := m / Million, r / Million;
    assert m == q * Million && r == qr * Million;
    if q > qr {
      assert m >= r + Million;
    } else if q < qr {
      assert m <= r - Million;
    }
  }

  /** Rounding halves up has exactly one answer: any multiple of a million within the half-open
      window around pop is the result. */
  lemma RoundToNearestMillionUnique(pop: int, m: int)
    requires m % Million == 0 && m - Million / 2 <= pop < m + Million / 2
    ensures RoundToNearestMillion(pop) == m
  {
    var r := RoundToNearestMillion(pop);
    var q, qr := m / Million, r / Million;
    assert m == q * Million && r == qr * Million;
    assert -Million < m - r < Million;
  }

  /** Every rounded population is left as it is by a second rounding, so applying
      millionsRounding twice changes nothing. */
  lemma RoundPopulationIdempotent(pop: int)
    ensures RoundPopulation(RoundPopulation(pop)) == RoundPopulation(pop)
  {
    var r := RoundPopulation(pop);
    if r >= Threshold {
      RoundToNearestMillionUnique(r, r);
    }
  }

  lemma RoundAllIdempotent(cities: seq<City>)
    ensures RoundAll(RoundAll(cities)) == RoundAll(cities)
  {
    forall i | 0 <= i < |cities| ensures RoundCity(RoundCity(cities[i])) == RoundCity(cities[i]) {
      RoundPopulationIdempotent(cities[i].population);
    }
  }

  /** For a Java int population the result is again a Java int (at most 2147000000), so the
      (int) cast of the rounded double never saturates. */
  lemma RoundPopulationFitsInt(pop: int)
    requires -0x8000_0000 <= pop < 0x8000_0000
    ensures 0 <= RoundPopulation(pop) <= 2147000000
  {
    var r := RoundPopulation(pop);
    var q := r / Million;
    assert r == q * Million;
  }

  /** The array main builds. */
  function SampleCities(): seq<City>
  {
    [City("Nice", 942208), City("Abu Dhabi", 1482816), City("Naples", 2186853), City("Vatican City", 572)]
  }

  lemma SampleRounding()
    ensures RoundAll(SampleCities())
         == [City("Nice", 1000000), City("Abu Dhabi", 1000000), City("Naples", 2000000), City("Vatican City", 0)]
  {
  }

  /** main: rounds the sample array and prints the first population. */
  method RunSample() returns (printed: int)
    ensures printed == 1000000
  {
    var arr := new City[] [City("Nice", 942208), City("Abu Dhabi", 1482816), City("Naples", 2186853), City("Vatican City", 572)];
    assert arr[..] == SampleCities();
    SampleRounding();
    var rounded := MillionsRounding(arr);
    printed := rounded[0].population;
  }
}
