/** ExampleStreamToMap: collects people into a map keyed by name + "-" + age, with the person
    as the value. toMap without a merge function throws IllegalStateException ("Duplicate
    key ...") on the first element whose key is already present. */
module StreamToMap {
  import opened Wrappers
  import opened People
  import Decimal

  /** The IllegalStateException toMap throws, with the clashing key. */
  datatype CollectError<K> = DuplicateKey(key: K)

  /** collect(toMap(key, e -> e)) on a sequential stream: the elements are accumulated in
      encounter order, and an element whose key is already present is an error. */
  function ToMap<T(==), K(==)>(xs: seq<T>, key: T -> K): Result<map<K, T>, CollectError<K>>
    decreases |xs|
  {
    if xs == [] then Ok(map[])
    else
      match ToMap(xs[..|xs| - 1], key)
      case Err(e) => Err(e)
      case Ok(m) =>
        var x := xs[|xs| - 1];
        if key(x) in m then Err(DuplicateKey(key(x))) else Ok(m[key(x) := x])
  }

  /** No two elements share a key. */
  predicate DistinctKeys<T(==), K(==)>(xs: seq<T>, key: T -> K)
  {
    forall i, j :: 0 <= i < j < |xs| ==> key(xs[i]) != key(xs[j])
  }

  /** Every element is the value under its own key, every key belongs to an element, and there
      is one entry per element. */
  predicate IsKeyedMap<T(==), K(==)>(xs: seq<T>, key: T -> K, m: map<K, T>)
  {
    && (forall i :: 0 <= i < |xs| ==> key(xs[i]) in m && m[key(xs[i])] == xs[i])
    && (forall k :: k in m ==> exists i :: 0 <= i < |xs| && key(xs[i]) == k)
    && |m| == |xs|
  }

  /** Adding an element with a fresh key keeps the keys distinct. */
  lemma FreshKeyStaysDistinct<T, K>(init: seq<T>, x: T, key: T -> K, m: map<K, T>)
    requires DistinctKeys(init, key) && IsKeyedMap(init, key, m) && key(x) !in m
    ensures DistinctKeys(init + [x], key)
  {
    var xs := init + [x];
    assert forall i :: 0 <= i < |init| ==> xs[i] == init[i];
    assert xs[|init|] == x;
    forall i, j | 0 <= i < j < |xs| ensures key(xs[i]) != key(xs[j]) {
      if j == |init| {
        assert key(init[i]) in m;
      }
    }
  }

  /** Adding an element with a fresh key keeps the map keyed. */
  lemma FreshKeyStaysKeyed<T, K>(init: seq<T>, x: T, key: T -> K, m: map<K, T>)
    requires IsKeyedMap(init, key, m) && key(x) !in m
    ensures IsKeyedMap(init + [x], key, m[key(x) := x])
  {
    var xs, m' := init + [x], m[key(x) := x];
    var last := |init|;
    assert forall i :: 0 <= i < last ==> xs[i] == init[i];
    assert xs[last] == x;
    forall i | 0 <= i < |xs| ensures key(xs[i]) in m' && m'[key(xs[i])] == xs[i] {
      if i < last {
        assert key(init[i]) in m;
      }
    }
    forall k | k in m' ensures exists i :: 0 <= i < |xs| && key(xs[i]) == k {
      if k != key(x) {
        var i :| 0 <= i < |init| && key(init[i]) == k;
        assert key(xs[i]) == k;
      } else {
        assert key(xs[last]) == k;
      }
    }
    assert m'.Keys == m.Keys + {key(x)};
    assert |m'.Keys| == |m.Keys| + 1;
  }

  /** A key already in the map is a clash with an earlier element. */
  lemma KeyAlreadyPresent<T, K>(init: seq<T>, x: T, key: T -> K, m: map<K, T>)
    requires IsKeyedMap(init, key, m) && key(x) in m
    ensures !DistinctKeys(init + [x], key)
  {
    var i :| 0 <= i < |init| && key(init[i]) == key(x);
    assert (init + [x])[i] == init[i] && (init + [x])[|init|] == x;
  }

  /** toMap succeeds exactly when the keys are distinct, and then it builds the keyed map. */
  lemma {:induction false} ToMapOkIffDistinct<T, K>(xs: seq<T>, key: T -> K)
    ensures ToMap(xs, key).Ok? <==> DistinctKeys(xs, key)
    ensures ToMap(xs, key).Ok? ==> IsKeyedMap(xs, key, ToMap(xs, key).value)
    decreases |xs|
  {
    if xs != [] {
      var last := |xs| - 1;
      var init, x := xs[..last], xs[last];
      assert xs == init + [x];
      ToMapOkIffDistinct(init, key);
      if ToMap(init, key).Err? {
        assert !DistinctKeys(xs, key) by {
          var i, j :| 0 <= i < j < |init| && key(init[i]) == key(init[j]);
          assert xs[i] == init[i] && xs[j] == init[j];
        }
      } else {
        var m := ToMap(init, key).value;
        if key(x) in m {
          KeyAlreadyPresent(init, x, key, m);
        } else {
          FreshKeyStaysDistinct(init, x, key, m);
          FreshKeyStaysKeyed(init, x, key, m);
        }
      }
    }
  }

  /** On a failure the reported key is shared by two elements, and the elements before the
      second of them have distinct keys: it is the first clash in encounter order. */
  lemma {:induction false} ToMapReportsFirstClash<T, K>(xs: seq<T>, key: T -> K)
    ensures ToMap(xs, key).Err? ==>
      exists i, j :: 0 <= i < j < |xs| && key(xs[i]) == key(xs[j]) == ToMap(xs, key).error.key
        && DistinctKeys(xs[..j], key)
    decreases |xs|
  {
    if xs != [] && ToMap(xs, key).Err? {
      var last := |xs| - 1;
      var init, x := xs[..last], xs[last];
      if ToMap(init, key).Err? {
        ToMapReportsFirstClash(init, key);
        var i, j :| 0 <= i < j < |init| && key(init[i]) == key(init[j]) == ToMap(init, key).error.key
          && DistinctKeys(init[..j], key);
        assert init[..j] == xs[..j];
        assert xs[i] == init[i] && xs[j] == init[j];
      } else {
        ToMapOkIffDistinct(init, key);
        var i :| 0 <= i < |init| && key(init[i]) == key(x);
        assert xs[..last] == init;
        assert xs[i] == init[i];
      }
    }
  }

  /** The key mapper: person.getName() + "-" + person.getAge(). */
  function KeyOf(p: Person): string
  {
    p.name + "-" + Decimal.ValueOf(p.age)
  }

  /** The collect in main: toMap(person -> name + "-" + age, person -> person). */
  function PeopleByNameAge(people: seq<Person>): Result<map<string, Person>, CollectError<string>>
  {
    ToMap(people, KeyOf)
  }

  /** The keys of the people createPeople returns, in order. */
  function SampleKeyList(): seq<string>
  {
    ["Sara-20", "Sara-22", "Bob-20", "Paula-32", "Paul-32", "Jack-2", "Jack-72", "Jill-12"]
  }

  lemma SampleKeysFirstHalf()
    ensures forall i :: 0 <= i < 4 ==> KeyOf(CreatePeople()[i]) == SampleKeyList()[i]
  {
    var people := CreatePeople();
    assert KeyOf(people[0]) == "Sara-20" && KeyOf(people[1]) == "Sara-22";
    assert KeyOf(people[2]) == "Bob-20" && KeyOf(people[3]) == "Paula-32";
  }

  lemma SampleKeysSecondHalf()
    ensures forall i :: 4 <= i < 8 ==> KeyOf(CreatePeople()[i]) == SampleKeyList()[i]
  {
    var people := CreatePeople();
    assert KeyOf(people[4]) == "Paul-32" && KeyOf(people[5]) == "Jack-2";
    assert KeyOf(people[6]) == "Jack-72" && KeyOf(people[7]) == "Jill-12";
  }

  lemma SampleKeys()
    ensures forall i :: 0 <= i < 8 ==> KeyOf(CreatePeople()[i]) == SampleKeyList()[i]
  {
    SampleKeysFirstHalf();
    SampleKeysSecondHalf();
  }

  lemma SampleKeysDistinct()
    ensures forall i, j :: 0 <= i < j < 8 ==> SampleKeyList()[i] != SampleKeyList()[j]
  {
    var ks := SampleKeyList();
    forall i, j | 0 <= i < j < 8 ensures ks[i] != ks[j] {
      assert |ks[i]| != |ks[j]| || ks[i][0] != ks[j][0] || ks[i][|ks[i]| - 1] != ks[j][|ks[j]| - 1]
          || ks[i][1] != ks[j][1];
    }
  }

  lemma SampleDistinct()
    ensures DistinctKeys(CreatePeople(), KeyOf)
  {
    SampleKeys();
    SampleKeysDistinct();
  }

  /** A keyed map's keys are the listed keys of its elements. */
  lemma KeyedMapHas<T, K>(xs: seq<T>, key: T -> K, m: map<K, T>, ks: seq<K>, k: K)
    requires IsKeyedMap(xs, key, m)
    requires |ks| == |xs| && forall i :: 0 <= i < |xs| ==> key(xs[i]) == ks[i]
    ensures k in m <==> k in ks
  {
    if k in m {
      var i :| 0 <= i < |xs| && key(xs[i]) == k;
      assert ks[i] == k;
    }
    if k in ks {
      var i :| 0 <= i < |ks| && ks[i] == k;
      assert key(xs[i]) in m;
    }
  }

  lemma SampleToMapOk()
    ensures PeopleByNameAge(CreatePeople()).Ok?
    ensures IsKeyedMap(CreatePeople(), KeyOf, PeopleByNameAge(CreatePeople()).value)
  {
    SampleDistinct();
    ToMapOkIffDistinct(CreatePeople(), KeyOf);
  }

  /** main: the sample has no clashing keys, so the map has eight entries, one per listed key. */
  lemma SampleToMap()
    ensures PeopleByNameAge(CreatePeople()).Ok?
    ensures forall k :: k in PeopleByNameAge(CreatePeople()).value <==> k in SampleKeyList()
    ensures |PeopleByNameAge(CreatePeople()).value| == 8
  {
    SampleToMapOk();
    SampleKeys();
    var people, m := CreatePeople(), PeopleByNameAge(CreatePeople()).value;
    forall k ensures k in m <==> k in SampleKeyList() {
      KeyedMapHas(people, KeyOf, m, SampleKeyList(), k);
    }
  }

  /** Two records with the same name and age clash, even as different objects. */
  lemma DuplicateRecordsFail(p: Person, q: Person)
    requires p.name == q.name && p.age == q.age
    ensures PeopleByNameAge([p, q]) == Err(DuplicateKey(KeyOf(p)))
  {
    assert [p][..0] == [];
    assert ToMap([p], KeyOf) == Ok(map[KeyOf(p) := p]);
    assert [p, q][..1] == [p];
  }

  /** The key is not injective for every record: a name ending in '-' or a negative age lets
      two different (name, age) pairs share a key. */
  lemma KeysCanCollide()
    ensures KeyOf(Person("A", MALE, -1)) == KeyOf(Person("A-", MALE, 1)) == "A--1"
  {
  }

  /** When no name contains '-', equal keys mean equal name and age. */
  lemma KeyInjective(p: Person, q: Person)
    requires '-' !in p.name && '-' !in q.name
    ensures KeyOf(p) == KeyOf(q) ==> p.name == q.name && p.age == q.age
  {
    if KeyOf(p) == KeyOf(q) {
      var u, v := "-" + Decimal.ValueOf(p.age), "-" + Decimal.ValueOf(q.age);
      assert KeyOf(p) == p.name + u && KeyOf(q) == q.name + v;
      SplitAtSeparator('-', p.name, u, q.name, v);
      assert Decimal.ValueOf(p.age) == u[1..] && Decimal.ValueOf(q.age) == v[1..];
      Decimal.ValueOfInjective(p.age, q.age);
    }
  }
}
