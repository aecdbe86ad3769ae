/** Lists without repeats, and reading a list page by page. */
module ListUtil {
  function Min(a: int, b: int): int { if a < b then a else b }

  /** Math.ceil(count / size). */
  function Ceil(count: nat, size: nat): nat
    requires size > 0
  {
    (count + size - 1) / size
  }

  lemma CeilCovers(count: nat, size: nat)
    requires size > 0
    ensures (Ceil(count, size) - 1) * size < count <= Ceil(count, size) * size || (count == 0 && Ceil(count, size) == 0)
  {
  }

  /** LIMIT size OFFSET offset. */
  function PageAt<T>(s: seq<T>, offset: nat, size: nat): seq<T> {
    s[Min(offset, |s|)..Min(offset + size, |s|)]
  }

  predicate NoRepeats<T(==)>(s: seq<T>) { forall i, j | 0 <= i < j < |s| :: s[i] != s[j] }

  function Elements<T(==)>(s: seq<T>): set<T> { set e | e in s }

  /** The list holds exactly the elements of the set, each once. */
  ghost predicate Enumerates<T(!new)>(s: seq<T>, x: set<T>) {
    NoRepeats(s) && forall e :: e in s <==> e in x
  }

  lemma {:induction false} SizeOfElements<T>(s: seq<T>)
    requires NoRepeats(s)
    ensures |Elements(s)| == |s|
  {
    if s == [] {
      assert Elements(s) == {};
    } else {
      var rest, last := s[..|s| - 1], s[|s| - 1];
      SizeOfElements(rest);
      assert s == rest + [last];
      assert Elements(s) == Elements(rest) + {last};
      assert last !in Elements(rest);
    }
  }

  lemma EnumerationSize<T(!new)>(s: seq<T>, x: set<T>)
    requires Enumerates(s, x)
    ensures |s| == |x| && Elements(s) == x
  {
    assert Elements(s) == x;
    SizeOfElements(s);
  }

  lemma {:induction false} SomeEnumeration<T(!new)>(x: set<T>) returns (s: seq<T>)
    ensures Enumerates(s, x)
  {
    if x == {} {
      s := [];
    } else {
      var e :| e in x;
      var rest := SomeEnumeration(x - {e});
      s := rest + [e];
    }
  }
}
