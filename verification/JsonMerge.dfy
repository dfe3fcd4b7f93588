/** Merging one JSON object into another, in depth. */
module JsonMerge {
  import opened Common

  datatype Json =
    | Null
    | Bool(flag: bool)
    | Number(literal: string)
    | Text(text: string)
    | Array(items: seq<Json>)
    | Object(members: map<string, Json>)

  /** What `merge` makes of its left side. */
  function Merge(l: Json, r: Json): Json
    decreases r
  {
    if !l.Object? || !r.Object? then l
    else Object(map name | name in l.members.Keys + r.members.Keys :: MergeMember(l, r, name))
  }

  /** A member after the merge: objects are merged, anything else gives way to the right side. */
  function MergeMember(l: Json, r: Json, name: string): Json
    requires l.Object? && r.Object? && name in l.members.Keys + r.members.Keys
    decreases r, 0
  {
    if name !in r.members then l.members[name]
    else if name in l.members && l.members[name].Object? then Merge(l.members[name], r.members[name])
    else r.members[name]
  }

  /** Two merged objects are the same if they have the same members. */
  lemma SameMembers(a: Json, b: Json)
    requires a.Object? && b.Object? && a.members.Keys == b.members.Keys
    requires forall name :: name in a.members ==> a.members[name] == b.members[name]
    ensures a == b
  {
    assert a.members == b.members;
  }

  lemma MemberOf(l: Json, r: Json, name: string)
    requires l.Object? && r.Object? && name in l.members.Keys + r.members.Keys
    ensures Merge(l, r).Object? && Merge(l, r).members.Keys == l.members.Keys + r.members.Keys
    ensures Merge(l, r).members[name]
         == if name !in r.members then l.members[name]
            else if name in l.members && l.members[name].Object? then Merge(l.members[name], r.members[name])
            else r.members[name]
  {
  }

  /** The merged object has the members of both. */
  lemma MergedKeys(l: Json, r: Json)
    requires l.Object? && r.Object?
    ensures Merge(l, r).Object? && Merge(l, r).members.Keys == l.members.Keys + r.members.Keys
  {
  }

  lemma NotMerged(a: Json, b: Json)
    ensures !a.Object? || !b.Object? ==> Merge(a, b) == a
    ensures Merge(a, b).Object? <==> a.Object?
  {
  }

  // ----- Algebra ------------------------------------------------------------------------------

  lemma {:induction false} Associative(a: Json, b: Json, c: Json)
    requires a.Object? && b.Object?
    ensures Merge(Merge(a, b), c) == Merge(a, Merge(b, c))
    decreases c
  {
    if c.Object? {
      var l, r := Merge(Merge(a, b), c), Merge(a, Merge(b, c));
      forall name | name in l.members ensures l.members[name] == r.members[name] {
        AssociativeMember(a, b, c, name);
      }
      SameMembers(l, r);
    }
  }

  lemma {:induction false} AssociativeMember(a: Json, b: Json, c: Json, name: string)
    requires a.Object? && b.Object? && c.Object? && name in a.members.Keys + b.members.Keys + c.members.Keys
    ensures Merge(Merge(a, b), c).members[name] == Merge(a, Merge(b, c)).members[name]
    decreases c, 0
  {
    hide Merge;
    if name in a.members || name in b.members {
      MemberOf(a, b, name);
    }
    if name in b.members || name in c.members {
      MemberOf(b, c, name);
    }
    MergedKeys(a, b);
    MergedKeys(b, c);
    MemberOf(Merge(a, b), c, name);
    MemberOf(a, Merge(b, c), name);
    if name in a.members && name in b.members {
      NotMerged(a.members[name], b.members[name]);
      if name in c.members {
        NotMerged(b.members[name], c.members[name]);
        if a.members[name].Object? && b.members[name].Object? {
          Associative(a.members[name], b.members[name], c.members[name]);
        }
      }
    }
  }

  /**
   * `r` brings nothing new to `l`: every member it has is there already, with the same value or as an
   * object to which it brings nothing new.
   */
  predicate Covers(l: Json, r: Json)
    decreases r
  {
    l.Object? && r.Object? ==>
      forall name :: name in r.members ==> name in l.members && CoversMember(l, r, name)
  }

  predicate CoversMember(l: Json, r: Json, name: string)
    requires l.Object? && r.Object? && name in l.members && name in r.members
    decreases r, 0
  {
    if l.members[name].Object? then Covers(l.members[name], r.members[name]) else l.members[name] == r.members[name]
  }

  lemma {:induction false} UnchangedExactlyIf(l: Json, r: Json)
    ensures Merge(l, r) == l <==> Covers(l, r)
    decreases r
  {
    if l.Object? && r.Object? {
      hide Merge;
      MergedKeys(l, r);
      forall name | name in l.members && name in r.members
        ensures Merge(l, r).members[name] == l.members[name] <==> CoversMember(l, r, name)
      {
        MemberOf(l, r, name);
        UnchangedExactlyIf(l.members[name], r.members[name]);
      }
      if Covers(l, r) {
        forall name | name in l.members ensures Merge(l, r).members[name] == l.members[name] {
          MemberOf(l, r, name);
        }
        assert r.members.Keys <= l.members.Keys;
        SameMembers(Merge(l, r), l);
      }
      if Merge(l, r) == l {
        assert forall name :: name in r.members ==> name in l.members.Keys + r.members.Keys;
      }
    } else {
      NotMerged(l, r);
    }
  }

  /**
   * Merging is associative exactly if the middle is an object, or the outer two are not both objects,
   * or the right one brings nothing new to the left one. Otherwise the first merge from the left fails
   * and the second does not, while from the right both fail.
   */
  lemma AssociativeExactlyIf(a: Json, b: Json, c: Json)
    ensures Merge(Merge(a, b), c) == Merge(a, Merge(b, c)) <==> b.Object? || Covers(a, c)
  {
    UnchangedExactlyIf(a, c);
    if a.Object? && b.Object? {
      Associative(a, b, c);
    }
  }

  lemma {:induction false} MergeItself(a: Json)
    ensures Merge(a, a) == a
    decreases a
  {
    if !a.Object? {
    } else {
      forall name | name in a.members ensures MergeMember(a, a, name) == a.members[name] {
        MergeItself(a.members[name]);
      }
      SameMembers(Merge(a, a), a);
    }
  }

  /** Merging the same right side a second time changes nothing. */
  lemma MergeTwice(a: Json, b: Json)
    ensures Merge(Merge(a, b), b) == Merge(a, b)
  {
    hide Merge;
    AssociativeExactlyIf(a, b, b);
    MergeItself(b);
    NotMerged(a, b);
  }

  /** The empty object is a unit: on the right of anything, and on the left of exactly the objects. */
  lemma EmptyIsUnit(a: Json)
    ensures Merge(a, Object(map[])) == a
    ensures Merge(Object(map[]), a) == a <==> a.Object?
  {
    var none := Object(map[]);
    if a.Object? {
      hide Merge;
      MergedKeys(a, none);
      MergedKeys(none, a);
      forall name | name in a.members
        ensures Merge(a, none).members[name] == Merge(none, a).members[name] == a.members[name]
      {
        MemberOf(a, none, name);
        MemberOf(none, a, name);
      }
      SameMembers(Merge(a, none), a);
      SameMembers(Merge(none, a), a);
    }
  }

  // ----- Members ------------------------------------------------------------------------------

  /** The value at the end of a path of member names. */
  function At(j: Json, path: seq<string>): Option<Json>
    decreases |path|
  {
    if path == [] then Some(j)
    else if j.Object? && path[0] in j.members then At(j.members[path[0]], path[1..])
    else None
  }

  /** No path of the left side is lost, and where it leads to an object it still does, however deep. */
  lemma {:induction false} ObjectsStay(l: Json, r: Json, path: seq<string>)
    requires At(l, path).Some? && At(l, path).value.Object?
    ensures At(Merge(l, r), path).Some? && At(Merge(l, r), path).value.Object?
    decreases |path|
  {
    if path == [] {
    } else if r.Object? && path[0] in r.members && l.members[path[0]].Object? {
      ObjectsStay(l.members[path[0]], r.members[path[0]], path[1..]);
    }
  }

  /** Nothing is made up: what is not an object stands at the same path in one of the two. */
  lemma {:induction false} ValuesComeFromEither(l: Json, r: Json, path: seq<string>)
    requires At(Merge(l, r), path).Some? && !At(Merge(l, r), path).value.Object?
    ensures At(Merge(l, r), path) == At(l, path) || At(Merge(l, r), path) == At(r, path)
    decreases |path|
  {
    if path == [] {
    } else if
      && l.Object? && r.Object?
      && path[0] in r.members && path[0] in l.members && l.members[path[0]].Object?
    {
      ValuesComeFromEither(l.members[path[0]], r.members[path[0]], path[1..]);
    }
  }

  /** Inside an object both have, the right side wins where the left one has nothing, or something that is no object. */
  lemma {:induction false} RightSideWins(l: Json, r: Json, path: seq<string>, name: string)
    requires At(l, path).Some? && At(l, path).value.Object? && At(r, path).Some? && At(r, path).value.Object?
    requires name in At(r, path).value.members
    requires name in At(l, path).value.members ==> !At(l, path).value.members[name].Object?
    ensures At(Merge(l, r), path + [name]) == Some(At(r, path).value.members[name])
    decreases |path|
  {
    if path == [] {
      assert ([] + [name])[1..] == [];
      assert path + [name] == [name];
    } else {
      RightSideWins(l.members[path[0]], r.members[path[0]], path[1..], name);
      assert (path + [name])[1..] == path[1..] + [name];
      ObjectsAbove(l, path);
    }
  }

  lemma ObjectsAbove(j: Json, path: seq<string>)
    requires path != [] && At(j, path).Some? && At(j, path).value.Object?
    ensures j.Object? && path[0] in j.members && j.members[path[0]].Object?
  {
  }

  // ----- The code -----------------------------------------------------------------------------

  /** Members that are merged already, and members that are not. */
  ghost predicate MergedExcept(l: Json, r: Json, rest: set<string>, members: map<string, Json>)
    requires l.Object? && r.Object? && rest <= r.members.Keys
  {
    && members.Keys == l.members.Keys + (r.members.Keys - rest)
    && forall name :: name in members ==>
         members[name] == if name in rest then l.members[name] else MergeMember(l, r, name)
  }

  /** A mutable JSON value, such as a member that is merged into. */
  class JsonValue {
    var value: Json

    constructor (value: Json)
      ensures this.value == value
    {
      this.value := value;
    }

    /** The members of the right side are visited in an arbitrary order. */
    method MergeFrom(rhs: Json) returns (merged: bool)
      modifies this
      ensures value == Merge(old(value), rhs)
      ensures merged <==> old(value).Object? && rhs.Object?
      decreases rhs
    {
      if !value.Object? || !rhs.Object? {
        return false;
      }
      ghost var l := value;
      var rest := rhs.members.Keys;
      while rest != {}
        invariant rest <= rhs.members.Keys && value.Object?
        invariant MergedExcept(l, rhs, rest, value.members)
      {
        var name :| name in rest;
        ghost var before := value.members;
        if name in value.members && value.members[name].Object? {
          var member := new JsonValue(value.members[name]);
          var _ := member.MergeFrom(rhs.members[name]);
          value := Object(value.members[name := member.value]);
        } else {
          value := Object(value.members[name := rhs.members[name]]);
        }
        assert value.members[name] == MergeMember(l, rhs, name);
        OneMoreMerged(l, rhs, rest, name, before, value.members);
        rest := rest - {name};
      }
      SameMembers(value, Merge(l, rhs));
      return true;
    }
  }

  lemma OneMoreMerged(
    l: Json, r: Json, rest: set<string>, name: string, members: map<string, Json>, members': map<string, Json>)
    requires l.Object? && r.Object? && rest <= r.members.Keys && name in rest
    requires MergedExcept(l, r, rest, members)
    requires members' == members[name := MergeMember(l, r, name)]
    ensures MergedExcept(l, r, rest - {name}, members')
  {
    hide MergeMember;
  }
}
