/** The data every other module speaks about: bytes, optional values, and two facts about finite sets. */
module Wrappers {

  type byte = b: int | 0 <= b < 256

  type Bytes = seq<byte>

  datatype Option<+T> = None | Some(value: T)

  /** No element of `s` occurs twice. */
  ghost predicate NoDuplicates<T(!new)>(s: seq<T>) {
    forall i, j :: 0 <= i < j < |s| ==> s[i] != s[j]
  }

  /** A proper subset is strictly smaller. */
  lemma ProperSubsetIsSmaller<T>(small: set<T>, large: set<T>)
    requires small < large
    ensures |small| < |large|
  {
    var x :| x in large && x !in small;
    SubsetIsNotLarger(small, large - {x});
  }

  lemma {:induction false} SubsetIsNotLarger<T>(small: set<T>, large: set<T>)
    requires small <= large
    ensures |small| <= |large|
    decreases |small|
  {
    if small != {} {
      var x :| x in small;
      SubsetIsNotLarger(small - {x}, large - {x});
    }
  }

  lemma SomeElement<T>(s: set<T>) returns (x: T)
    requires s != {}
    ensures x in s
  {
    x :| x in s;
  }

  /** Every finite nonempty set of integers has a least element. */
  lemma {:induction false} LeastExists(s: set<int>)
    requires s != {}
    ensures exists x :: x in s && forall y :: y in s ==> x <= y
    decreases |s|
  {
    var z := SomeElement(s);
    var rest := s - {z};
    if rest == {} {
      assert forall y :: y in s ==> y == z || y in rest;
      assert z in s && forall y :: y in s ==> z <= y;
    } else {
      LeastExists(rest);
      var x :| x in rest && forall y :: y in rest ==> x <= y;
      var m := if x <= z then x else z;
      assert forall y :: y in s ==> y == z || y in rest;
      assert m in s && forall y :: y in s ==> m <= y;
    }
  }
}
