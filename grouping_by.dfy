/** ExampleStreamGroupingByOneParam: groups people by name with groupingBy(Person::getName).
    The collector keeps, for each key, the list of the elements with that key in encounter
    order; a key is present exactly when some element has it. */
module GroupingBy {
  import opened People

  /** collect(groupingBy(key)) on a sequential stream: each element is appended to the list
      of its key, a new key starting a new list. */
  function GroupBy<T, K>(xs: seq<T>, key: T -> K): map<K, seq<T>>
    decreases |xs|
  {
    if xs == [] then map[]
    else
      var m := GroupBy(xs[..|xs| - 1], key);
      var x := xs[|xs| - 1];
      m[key(x) := (if key(x) in m then m[key(x)] else []) + [x]]
  }

  /** The reference for one group: the elements whose key is k, in order (a filter). */
  function Members<T, K(==)>(xs: seq<T>, key: T -> K, k: K): seq<T>
  {
    if xs == [] then []
    else (if key(xs[0]) == k then [xs[0]] else []) + Members(xs[1..], key, k)
  }

  /** The distinct keys in order of first appearance. */
  function KeysInOrder<T, K(==)>(xs: seq<T>, key: T -> K): seq<K>
    decreases |xs|
  {
    if xs == [] then []
    else
      var ks := KeysInOrder(xs[..|xs| - 1], key);
      var k := key(xs[|xs| - 1]);
      if k in ks then ks else ks + [k]
  }

  /** The total size of the groups listed in ks. */
  function GroupSizes<T, K>(ks: seq<K>, m: map<K, seq<T>>): nat
    decreases |ks|
  {
    if ks == [] then 0
    else
      var k := ks[|ks| - 1];
      GroupSizes(ks[..|ks| - 1], m) + (if k in m then |m[k]| else 0)
  }

  lemma {:induction false} MembersAppend<T, K>(xs: seq<T>, x: T, key: T -> K, k: K)
    ensures Members(xs + [x], key, k) == Members(xs, key, k) + (if key(x) == k then [x] else [])
    decreases |xs|
  {
    if xs == [] {
      assert [] + [x] == [x];
      assert Members([x], key, k) == (if key(x) == k then [x] else []) + Members([], key, k);
    } else {
      var head, tail := if key(xs[0]) == k then [xs[0]] else [], if key(x) == k then [x] else [];
      assert (xs + [x])[0] == xs[0] && (xs + [x])[1..] == xs[1..] + [x];
      assert Members(xs + [x], key, k) == head + Members(xs[1..] + [x], key, k);
      MembersAppend(xs[1..], x, key, k);
      assert head + (Members(xs[1..], key, k) + tail) == (head + Members(xs[1..], key, k)) + tail;
    }
  }

  /** A group holds exactly the elements with its key. */
  lemma {:induction false} MembersAreThoseWithKey<T, K>(xs: seq<T>, key: T -> K, k: K)
    ensures forall x :: x in Members(xs, key, k) <==> x in xs && key(x) == k
    decreases |xs|
  {
    if xs != [] {
      MembersAreThoseWithKey(xs[1..], key, k);
      assert xs == [xs[0]] + xs[1..];
    }
  }

  lemma {:induction false} NoMembers<T, K>(xs: seq<T>, key: T -> K, k: K)
    requires forall i :: 0 <= i < |xs| ==> key(xs[i]) != k
    ensures Members(xs, key, k) == []
    decreases |xs|
  {
    if xs != [] {
      assert forall i :: 0 <= i < |xs| - 1 ==> xs[1..][i] == xs[i + 1];
      NoMembers(xs[1..], key, k);
    }
  }

  /** Within a group the encounter order is kept: two elements with the same key appear in
      the group in the order they had in the input. */
  lemma {:induction false} MembersKeepOrder<T, K>(xs: seq<T>, key: T -> K, i: int, j: int)
    requires 0 <= i < j < |xs| && key(xs[i]) == key(xs[j])
    ensures var g := Members(xs, key, key(xs[i]));
      exists p, q :: 0 <= p < q < |g| && g[p] == xs[i] && g[q] == xs[j]
    decreases |xs|
  {
    var k := key(xs[i]);
    var rest := Members(xs[1..], key, k);
    assert Members(xs, key, k) == (if key(xs[0]) == k then [xs[0]] else []) + rest;
    if i == 0 {
      MembersAreThoseWithKey(xs[1..], key, k);
      assert xs[j] == xs[1..][j - 1];
      var q :| 0 <= q < |rest| && rest[q] == xs[j];
      assert Members(xs, key, k)[0] == xs[0] && Members(xs, key, k)[q + 1] == xs[j];
    } else {
      MembersKeepOrder(xs[1..], key, i - 1, j - 1);
      assert xs[1..][i - 1] == xs[i] && xs[1..][j - 1] == xs[j];
      var p, q :| 0 <= p < q < |rest| && rest[p] == xs[i] && rest[q] == xs[j];
      var d := if key(xs[0]) == k then 1 else 0;
      assert Members(xs, key, k)[p + d] == xs[i] && Members(xs, key, k)[q + d] == xs[j];
    }
  }

  /** One key of groupingBy: it is present exactly when some element has it, and then its
      group is the filter of the input on it. */
  lemma {:induction false} GroupAt<T, K>(xs: seq<T>, key: T -> K, k: K)
    ensures k in GroupBy(xs, key) <==> exists i :: 0 <= i < |xs| && key(xs[i]) == k
    ensures k in GroupBy(xs, key) ==> GroupBy(xs, key)[k] == Members(xs, key, k)
    decreases |xs|
  {
    if xs != [] {
      var init, x := xs[..|xs| - 1], xs[|xs| - 1];
      assert xs == init + [x];
      assert forall i :: 0 <= i < |init| ==> xs[i] == init[i];
      GroupAt(init, key, k);
      MembersAppend(init, x, key, k);
      if k == key(x) {
        assert key(xs[|init|]) == k;
        if k !in GroupBy(init, key) {
          NoMembers(init, key, k);
        }
      }
    }
  }

  lemma GroupAtIsNonEmpty<T, K>(xs: seq<T>, key: T -> K, k: K)
    requires k in GroupBy(xs, key)
    ensures |GroupBy(xs, key)[k]| > 0
  {
    GroupAt(xs, key, k);
    var i :| 0 <= i < |xs| && key(xs[i]) == k;
    MembersAreThoseWithKey(xs, key, k);
    assert xs[i] in Members(xs, key, k);
  }

  /** No group is empty. */
  lemma GroupsAreNonEmpty<T, K>(xs: seq<T>, key: T -> K)
    ensures forall k :: k in GroupBy(xs, key) ==> |GroupBy(xs, key)[k]| > 0
  {
    forall k | k in GroupBy(xs, key) ensures |GroupBy(xs, key)[k]| > 0 {
      GroupAtIsNonEmpty(xs, key, k);
    }
  }

  /** The key list has no repeats. */
  lemma {:induction false} KeysInOrderDistinct<T, K>(xs: seq<T>, key: T -> K)
    ensures forall i, j :: 0 <= i < j < |KeysInOrder(xs, key)| ==>
      KeysInOrder(xs, key)[i] != KeysInOrder(xs, key)[j]
    decreases |xs|
  {
    if xs != [] {
      KeysInOrderDistinct(xs[..|xs| - 1], key);
    }
  }

  /** The key list lists exactly the keys of the elements. */
  lemma {:induction false} KeysInOrderAt<T, K>(xs: seq<T>, key: T -> K, k: K)
    ensures k in KeysInOrder(xs, key) <==> exists i :: 0 <= i < |xs| && key(xs[i]) == k
    decreases |xs|
  {
    if xs != [] {
      var init, x := xs[..|xs| - 1], xs[|xs| - 1];
      assert xs == init + [x];
      assert forall i :: 0 <= i < |init| ==> xs[i] == init[i];
      KeysInOrderAt(init, key, k);
      if k == key(x) {
        assert key(xs[|init|]) == k;
      }
    }
  }

  /** Updating a group that is not listed leaves the total unchanged. */
  lemma {:induction false} SizesUnchanged<T, K>(ks: seq<K>, m: map<K, seq<T>>, k: K, v: seq<T>)
    requires k !in ks
    ensures GroupSizes(ks, m[k := v]) == GroupSizes(ks, m)
    decreases |ks|
  {
    if ks != [] {
      assert ks[|ks| - 1] in ks;
      assert forall c :: c in ks[..|ks| - 1] ==> c in ks;
      SizesUnchanged(ks[..|ks| - 1], m, k, v);
    }
  }

  /** Appending one element to a group listed once adds one to the total. */
  lemma {:induction false} SizesGrow<T, K>(ks: seq<K>, m: map<K, seq<T>>, k: K, x: T)
    requires forall i, j :: 0 <= i < j < |ks| ==> ks[i] != ks[j]
    requires k in ks && k in m
    ensures GroupSizes(ks, m[k := m[k] + [x]]) == GroupSizes(ks, m) + 1
    decreases |ks|
  {
    var init, last := ks[..|ks| - 1], ks[|ks| - 1];
    if last == k {
      assert forall i :: 0 <= i < |init| ==> init[i] == ks[i] != last;
      SizesUnchanged(init, m, k, m[k] + [x]);
    } else {
      assert k in init by {
        var i :| 0 <= i < |ks| && ks[i] == k;
        assert init[i] == k;
      }
      SizesGrow(init, m, k, x);
    }
  }

  /** Every element is in exactly one group: the groups have one entry per distinct key and
      their sizes add up to the number of elements. */
  lemma {:induction false} GroupSizesSum<T, K>(xs: seq<T>, key: T -> K)
    ensures |GroupBy(xs, key)| == |KeysInOrder(xs, key)|
    ensures GroupSizes(KeysInOrder(xs, key), GroupBy(xs, key)) == |xs|
    decreases |xs|
  {
    if xs != [] {
      var init, x := xs[..|xs| - 1], xs[|xs| - 1];
      assert xs == init + [x];
      GroupSizesSum(init, key);
      var m, ks, k := GroupBy(init, key), KeysInOrder(init, key), key(x);
      GroupAt(init, key, k);
      KeysInOrderAt(init, key, k);
      KeysInOrderDistinct(init, key);
      if k in m {
        SizesGrow(ks, m, k, x);
        assert GroupBy(xs, key).Keys == m.Keys;
      } else {
        var m' := m[k := [x]];
        assert k !in ks;
        assert [] + [x] == [x];
        assert GroupBy(xs, key) == m[key(x) := [] + [x]];
        assert GroupBy(xs, key) == m';
        assert KeysInOrder(xs, key) == ks + [k];
        SizesUnchanged(ks, m, k, [x]);
        assert (ks + [k])[..|ks|] == ks;
        assert GroupSizes(ks + [k], m') == GroupSizes(ks, m') + 1;
        assert m'.Keys == m.Keys + {k};
        assert |m'.Keys| == |m.Keys| + 1;
      }
    }
  }

  /** The classifier Person::getName. */
  function GetName(p: Person): string
  {
    p.name
  }

  /** The collect in main: groupingBy(Person::getName). */
  function GroupingByName(people: seq<Person>): map<string, seq<Person>>
  {
    GroupBy(people, GetName)
  }

  lemma SampleSaras()
    ensures Members(CreatePeople(), GetName, "Sara") == [Person("Sara", FEMALE, 20), Person("Sara", FEMALE, 22)]
  {
  }

  lemma SampleJacks()
    ensures Members(CreatePeople(), GetName, "Jack") == [Person("Jack", MALE, 2), Person("Jack", MALE, 72)]
  {
  }

  lemma SampleNames()
    ensures forall n :: n in GroupingByName(CreatePeople()) <==> n in {"Sara", "Bob", "Paula", "Paul", "Jack", "Jill"}
  {
    var people := CreatePeople();
    forall n ensures n in GroupingByName(people) <==> exists i :: 0 <= i < |people| && GetName(people[i]) == n {
      GroupAt(people, GetName, n);
    }
    assert GetName(people[0]) == "Sara" && GetName(people[2]) == "Bob" && GetName(people[3]) == "Paula";
    assert GetName(people[4]) == "Paul" && GetName(people[5]) == "Jack" && GetName(people[7]) == "Jill";
    assert forall i :: 0 <= i < |people| ==> GetName(people[i]) in {"Sara", "Bob", "Paula", "Paul", "Jack", "Jill"};
  }

  /** main: Sara and Jack each have two people, in input order. */
  lemma SampleGroups()
    ensures "Sara" in GroupingByName(CreatePeople()) && "Jack" in GroupingByName(CreatePeople())
    ensures GroupingByName(CreatePeople())["Sara"] == [Person("Sara", FEMALE, 20), Person("Sara", FEMALE, 22)]
    ensures GroupingByName(CreatePeople())["Jack"] == [Person("Jack", MALE, 2), Person("Jack", MALE, 72)]
  {
    var people := CreatePeople();
    assert GetName(people[0]) == "Sara" && GetName(people[5]) == "Jack";
    GroupAt(people, GetName, "Sara");
    GroupAt(people, GetName, "Jack");
    SampleSaras();
    SampleJacks();
  }

  /** main: six names. */
  lemma SampleGrouping()
    ensures GroupingByName(CreatePeople()).Keys == {"Sara", "Bob", "Paula", "Paul", "Jack", "Jill"}
    ensures |GroupingByName(CreatePeople())| == 6
  {
    SampleNames();
  }
}
