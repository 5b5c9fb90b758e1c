/** Person: an immutable record of a name, a gender and an age. The fields are set once by the
    constructor, and getName, getGender and getAge are the datatype's destructors name, gender
    and age. Person has no equals override: two records with equal fields are different
    objects, so lists of people keep such records as separate elements. */
module People {
  import Decimal

  /** Gender, rendered by its constant name. */
  datatype Gender = FEMALE | MALE

  function GenderName(g: Gender): string
  {
    match g
    case FEMALE => "FEMALE"
    case MALE => "MALE"
  }

  datatype Person = Person(name: string, gender: Gender, age: int)

  /** toString: "{" + name + ", " + gender + ", " + age + "}". */
  function ToString(p: Person): string
  {
    "{" + p.name + ", " + GenderName(p.gender) + ", " + Decimal.ValueOf(p.age) + "}"
  }

  /** createPeople, the fixture both collector examples start from. */
  function CreatePeople(): seq<Person>
  {
    [ Person("Sara", FEMALE, 20), Person("Sara", FEMALE, 22), Person("Bob", MALE, 20),
      Person("Paula", FEMALE, 32), Person("Paul", MALE, 32), Person("Jack", MALE, 2),
      Person("Jack", MALE, 72), Person("Jill", FEMALE, 12) ]
  }

  /** The rendering as text of the tail of toString, after the name. */
  function Tail(p: Person): string
  {
    ", " + GenderName(p.gender) + ", " + Decimal.ValueOf(p.age) + "}"
  }

  /** A prefix free of the separator, followed by a part that starts with it, splits uniquely. */
  lemma SplitAtSeparator(sep: char, a: string, b: string, c: string, d: string)
    requires sep !in a && sep !in c
    requires b != [] && b[0] == sep && d != [] && d[0] == sep
    requires a + b == c + d
    ensures a == c && b == d
  {
    if |a| < |c| {
      IndexInConcat(a, b, |a|);
      IndexInConcat(c, d, |a|);
      assert false;
    } else if |c| < |a| {
      IndexInConcat(a, b, |c|);
      IndexInConcat(c, d, |c|);
      assert false;
    } else {
      assert a == (a + b)[..|a|] && c == (c + d)[..|c|];
      assert b == (a + b)[|a|..] && d == (c + d)[|c|..];
    }
  }

  lemma IndexInConcat(x: string, y: string, i: int)
    ensures 0 <= i < |x| ==> (x + y)[i] == x[i]
    ensures |x| <= i < |x| + |y| ==> (x + y)[i] == y[i - |x|]
  {
  }

  lemma ToStringShape(p: Person)
    ensures ToString(p) == ['{'] + (p.name + Tail(p))
    ensures Tail(p) != [] && Tail(p)[0] == ','
  {
  }

  /** The part after the name determines gender and age. */
  lemma TailInjective(p: Person, q: Person)
    ensures Tail(p) == Tail(q) ==> p.gender == q.gender && p.age == q.age
  {
    if Tail(p) == Tail(q) {
      var u, v := Decimal.ValueOf(p.age), Decimal.ValueOf(q.age);
      assert Tail(p) == ", " + GenderName(p.gender) + ", " + u + "}";
      assert Tail(p)[2] == GenderName(p.gender)[0];
      assert Tail(q)[2] == GenderName(q.gender)[0];
      assert p.gender == q.gender;
      var g := |GenderName(p.gender)|;
      assert u == Tail(p)[4 + g..|Tail(p)| - 1];
      assert v == Tail(q)[4 + g..|Tail(q)| - 1];
      Decimal.ValueOfInjective(p.age, q.age);
    }
  }

  /** When names contain no comma, toString tells people apart: equal renderings mean equal
      name, gender and age. */
  lemma ToStringInjective(p: Person, q: Person)
    requires ',' !in p.name && ',' !in q.name
    ensures ToString(p) == ToString(q) ==> p == q
  {
    if ToString(p) == ToString(q) {
      ToStringShape(p);
      ToStringShape(q);
      assert p.name + Tail(p) == ToString(p)[1..] == q.name + Tail(q);
      SplitAtSeparator(',', p.name, Tail(p), q.name, Tail(q));
      TailInjective(p, q);
    }
  }

  lemma SampleToString()
    ensures ToString(Person("Sara", FEMALE, 20)) == "{Sara, FEMALE, 20}"
  {
  }
}
