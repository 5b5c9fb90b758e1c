/** EdabitIsTheStringInOrder: a string is in order when sorting a copy of its characters gives
    the string back. */
module StringInOrder {

  /** The characters are non-decreasing by char value. */
  predicate Ordered(s: string)
  {
    forall i, j :: 0 <= i < j < |s| ==> s[i] <= s[j]
  }

  /** The first character of a non-decreasing string is its least. */
  lemma HeadIsLeast(s: string, c: char)
    requires Ordered(s) && c in s
    ensures s[0] <= c
  {
    var i :| 0 <= i < |s| && s[i] == c;
    if i > 0 {
      assert s[0] <= s[i];
    }
  }

  lemma OrderedTail(s: string)
    requires Ordered(s) && s != []
    ensures Ordered(s[1..]) && multiset(s[1..]) == multiset(s) - multiset{s[0]}
  {
    assert s == [s[0]] + s[1..];
  }

  lemma SameHead(x: string, y: string)
    requires Ordered(x) && Ordered(y) && multiset(x) == multiset(y) && x != []
    ensures y != [] && x[0] == y[0]
  {
    assert x[0] in multiset(x);
    assert y[0] in multiset(y);
    HeadIsLeast(x, y[0]);
    HeadIsLeast(y, x[0]);
  }

  /** Two non-decreasing arrangements of the same characters are the same string: a sorted
      permutation is unique. */
  lemma {:induction false} SortedPermutationUnique(x: string, y: string)
    requires Ordered(x) && Ordered(y) && multiset(x) == multiset(y)
    ensures x == y
  {
    if x != [] {
      SameHead(x, y);
      OrderedTail(x);
      OrderedTail(y);
      SortedPermutationUnique(x[1..], y[1..]);
      assert x == [x[0]] + x[1..] && y == [y[0]] + y[1..];
    }
  }

  method Swap(a: array<char>, i: int, j: int)
    requires 0 <= i < a.Length && 0 <= j < a.Length
    modifies a
    ensures a[i] == old(a[j]) && a[j] == old(a[i])
    ensures forall k :: 0 <= k < a.Length && k != i && k != j ==> a[k] == old(a[k])
    ensures multiset(a[..]) == old(multiset(a[..]))
  {
    a[i], a[j] := a[j], a[i];
  }

  /** Arrays.sort(char[]): afterwards the array holds the same characters, non-decreasing. */
  method Sort(a: array<char>)
    modifies a
    ensures Ordered(a[..])
    ensures multiset(a[..]) == old(multiset(a[..]))
  {
    for i := 0 to a.Length
      invariant forall p, q :: 0 <= p < q < i ==> a[p] <= a[q]
      invariant multiset(a[..]) == old(multiset(a[..]))
    {
      var j := i;
      while j > 0 && a[j - 1] > a[j]
        invariant 0 <= j <= i
        invariant forall p, q :: 0 <= p < q <= i && q != j ==> a[p] <= a[q]
        invariant multiset(a[..]) == old(multiset(a[..]))
      {
        Swap(a, j - 1, j);
        j := j - 1;
      }
    }
  }

  /** isInOrder: copies the characters into a fresh char[], sorts the copy and compares the
      result with the string; the string itself is a value and stays as it was. */
  method IsInOrder(str: string) returns (b: bool)
    ensures b <==> Ordered(str)
  {
    var charArray := new char[|str|](i requires 0 <= i < |str| => str[i]);
    assert charArray[..] == str;
    Sort(charArray);
    var str2 := charArray[..];
    b := str2 == str;
    if Ordered(str) {
      SortedPermutationUnique(str2, str);
    }
  }

  /** isInOrder is true for the empty string and for every one-character string. */
  method ShortStringsInOrder(s: string) returns (b: bool)
    requires |s| <= 1
    ensures b
  {
    b := IsInOrder(s);
  }

  /** main: isInOrder("edabit") is false. */
  method RunSample() returns (printed: bool)
    ensures !printed
  {
    assert "edabit"[0] > "edabit"[1];
    printed := IsInOrder("edabit");
  }
}
