/** The two `java.util.ArrayList` operations the model relies on:
    `contains` (membership) and `remove(Object)`, which deletes the FIRST
    occurrence of an element and reports whether there was one. */
module Lists {

  /** `list.remove(x)`: the list without its first occurrence of `x`, and
      whether an occurrence existed. */
  function RemoveFirst<T(==)>(s: seq<T>, x: T): (r: (bool, seq<T>))
    ensures r.0 <==> x in s
    ensures r.0 ==> |r.1| == |s| - 1
    ensures !r.0 ==> r.1 == s
    ensures multiset(r.1) == multiset(s) - multiset{x}
  {
    if s == [] then (false, s)
    else
      assert s == [s[0]] + s[1..];
      if s[0] == x then (true, s[1..])
      else
        var rest := RemoveFirst(s[1..], x);
        (rest.0, [s[0]] + rest.1)
  }

  /** Removing one occurrence keeps every other occurrence: an element listed
      twice is still listed after one removal. */
  lemma RemoveFirstKeepsDuplicates<T>(s: seq<T>, x: T)
    requires multiset(s)[x] >= 2
    ensures x in RemoveFirst(s, x).1
  {
    var r := RemoveFirst(s, x).1;
    assert multiset(r)[x] == multiset(s)[x] - 1;
  }

  /** Removal never touches another element's occurrences. */
  lemma RemoveFirstKeepsOthers<T>(s: seq<T>, x: T, y: T)
    requires y != x
    ensures (y in RemoveFirst(s, x).1) <==> (y in s)
  {
    var r := RemoveFirst(s, x).1;
    assert multiset(r)[y] == multiset(s)[y];
  }
}
