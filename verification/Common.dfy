/** Option and Result, and the few facts about sequences that several components share. */
module Common {
  datatype Option<+T> = None | Some(value: T)

  datatype Result<+T, +E> = Success(value: T) | Failure(error: E)

  function Reverse<T>(s: seq<T>): (r: seq<T>)
    ensures |r| == |s|
    ensures forall i :: 0 <= i < |s| ==> r[i] == s[|s| - 1 - i]
  {
    if s == [] then [] else Reverse(s[1..]) + [s[0]]
  }

  /** The first element moves to the end. */
  function RotateLeft<T>(s: seq<T>): (r: seq<T>)
    ensures |r| == |s|
  {
    if s == [] then [] else s[1..] + [s[0]]
  }

  lemma ConcatAssociates<T>(a: seq<T>, b: seq<T>, c: seq<T>)
    ensures a + b + c == a + (b + c)
  {
  }

  lemma ReverseTwice<T>(s: seq<T>)
    ensures Reverse(Reverse(s)) == s
  {
  }

  lemma ReverseAppend<T>(s: seq<T>, x: T)
    ensures Reverse(s + [x]) == [x] + Reverse(s)
  {
  }

  function Flip2<T>(s: seq<T>): seq<T>
    requires |s| == 2
  {
    [s[1], s[0]]
  }

  function Flip4<T>(s: seq<T>): seq<T>
    requires |s| == 4
  {
    [s[3], s[2], s[1], s[0]]
  }

  function Flip8<T>(s: seq<T>): seq<T>
    requires |s| == 8
  {
    [s[7], s[6], s[5], s[4], s[3], s[2], s[1], s[0]]
  }

  lemma ReverseOf2<T>(s: seq<T>)
    requires |s| == 2
    ensures Reverse(s) == Flip2(s)
  {
  }

  lemma ReverseOf4<T>(s: seq<T>)
    requires |s| == 4
    ensures Reverse(s) == Flip4(s)
  {
  }

  lemma ReverseOf8<T>(s: seq<T>)
    requires |s| == 8
    ensures Reverse(s) == Flip8(s)
  {
  }

  /** The order in which the elements of a set, or the keys of a map, are visited. */
  ghost predicate Enumerates<T(!new)>(order: seq<T>, keys: set<T>) {
    && (forall x :: x in order <==> x in keys)
    && forall i, j :: 0 <= i < j < |order| ==> order[i] != order[j]
  }

  /** Every finite set can be enumerated. */
  lemma {:induction false} SomeOrder<T(!new)>(keys: set<T>) returns (order: seq<T>)
    ensures Enumerates(order, keys)
  {
    if keys == {} {
      order := [];
    } else {
      var x :| x in keys;
      var rest := SomeOrder(keys - {x});
      order := [x] + rest;
      assert forall y :: y in order <==> y == x || y in rest;
    }
  }
}
