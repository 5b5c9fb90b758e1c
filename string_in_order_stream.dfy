/** EdabitIsTheStringInOrderStreamVersion: splits the string into one-character strings, sorts
    them by String's natural order, joins them and compares with the original. */
module StringInOrderStream {
  import opened Streams
  import StringInOrder

  /** String.compareTo(a, b) <= 0: lexicographic by char value, a proper prefix first. */
  function StringLe(a: string, b: string): bool
  {
    if a == [] then true
    else if b == [] then false
    else if a[0] != b[0] then a[0] < b[0]
    else StringLe(a[1..], b[1..])
  }

  /** Character order, as Arrays.sort(char[]) uses it. */
  function CharLe(a: char, b: char): bool { a <= b }

  /** One one-character string per character, in order. */
  function Pieces(s: string): seq<string>
  {
    if s == [] then [] else [[s[0]]] + Pieces(s[1..])
  }

  /** str.split(""): the one-character pieces; the empty string splits into one empty piece. */
  function Split(s: string): seq<string>
  {
    if s == "" then [""] else Pieces(s)
  }

  /** isInOrder. */
  function IsInOrder(str: string): bool
  {
    str == Joining(InsertionSort(Split(str), StringLe))
  }

  lemma {:induction false} JoiningPieces(s: string)
    ensures Joining(Pieces(s)) == s
  {
    if s != [] {
      JoiningPieces(s[1..]);
      assert s == [s[0]] + s[1..];
    }
  }

  lemma {:induction false} InsertPiece(c: char, s: string)
    ensures Insert([c], Pieces(s), StringLe) == Pieces(Insert(c, s, CharLe))
  {
    if s != [] {
      assert StringLe([c], [s[0]]) == CharLe(c, s[0]) by {
        assert [c][1..] == [] && [s[0]][1..] == [];
      }
      if !CharLe(c, s[0]) {
        InsertPiece(c, s[1..]);
      } else {
        assert Insert(c, s, CharLe) == [c] + s;
        assert ([c] + s)[1..] == s;
      }
    }
  }

  /** Sorting the one-character pieces is sorting the characters. */
  lemma {:induction false} SortPieces(s: string)
    ensures InsertionSort(Pieces(s), StringLe) == Pieces(InsertionSort(s, CharLe))
  {
    if s != [] {
      SortPieces(s[1..]);
      InsertPiece(s[0], InsertionSort(s[1..], CharLe));
    }
  }

  /** Two one-character pieces that String order cannot tell apart are the same piece, so the
      stability of sorted() makes no difference to the joined result. */
  lemma EquivalentPiecesAreEqual(a: char, b: char)
    ensures EquivalentTo(StringLe, [a])([b]) ==> a == b
  {
    assert [a][1..] == [] && [b][1..] == [];
    assert StringLe([b], [a]) == (b <= a);
    assert StringLe([a], [b]) == (a <= b);
    assert EquivalentTo(StringLe, [a])([b]) == (StringLe([b], [a]) && StringLe([a], [b]));
  }

  /** The characters joined back after the sort do not decrease: char order is total and
      transitive, so the sort orders them. */
  lemma SortOrdered(s: string)
    ensures StringInOrder.Ordered(InsertionSort(s, CharLe))
  {
    SortSorted(s, CharLe);
  }

  /** The joined result is the characters of str rearranged into non-decreasing order. */
  lemma SortedJoinIsSortedPermutation(str: string)
    ensures multiset(Joining(InsertionSort(Split(str), StringLe))) == multiset(str)
    ensures StringInOrder.Ordered(Joining(InsertionSort(Split(str), StringLe)))
  {
    if str != "" {
      SortPieces(str);
      JoiningPieces(InsertionSort(str, CharLe));
      SortPermutes(str, CharLe);
      SortOrdered(str);
    }
  }

  /** isInOrder holds exactly when the characters are non-decreasing; so it agrees with the
      char-array version on every string. */
  lemma IsInOrderIffOrdered(str: string)
    ensures IsInOrder(str) <==> StringInOrder.Ordered(str)
  {
    SortedJoinIsSortedPermutation(str);
    var joined := Joining(InsertionSort(Split(str), StringLe));
    if StringInOrder.Ordered(str) {
      StringInOrder.SortedPermutationUnique(joined, str);
    }
  }

  /** The empty string splits into one empty piece, which joins back to "", so it is in order. */
  lemma EmptyStringInOrder()
    ensures Split("") == [""] && IsInOrder("")
  {
  }

  /** main: isInOrder("edabit") is false. */
  lemma SampleEdabit()
    ensures !IsInOrder("edabit")
  {
    IsInOrderIffOrdered("edabit");
    assert "edabit"[0] > "edabit"[1];
  }

  /** Both versions give the same answer. */
  method VersionsAgree(str: string) returns (byArray: bool, byStream: bool)
    ensures byArray == byStream
  {
    byArray := StringInOrder.IsInOrder(str);
    byStream := IsInOrder(str);
    IsInOrderIffOrdered(str);
  }
}
