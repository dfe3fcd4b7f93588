/**
 * The priority queue of scheduled actions: a binary heap of action numbers, pushed to and popped
 * from as by `std::push_heap` and `std::pop_heap`. Every comparison reads the clock, once for each
 * side, so one push or pop sees many instants: `clock` says which.
 */
module Heaps {
  import opened Deadlines

  type Tree = seq<nat>

  /** The readings of the clock, for each comparison of one push or pop. */
  type Clock = nat -> Reading

  function Due(entries: seq<Entry>, id: nat): int {
    if id < |entries| then entries[id].Deadline() else 0
  }

  /** `std::greater` on two actions. */
  predicate Later(entries: seq<Entry>, a: nat, b: nat, at: Reading) {
    a < |entries| && b < |entries| && Compare(entries[a], entries[b], at.first, at.second) == Greater
  }

  function Parent(i: nat): (p: nat)
    requires i > 0
    ensures p < i
  {
    (i - 1) / 2
  }

  /** `id` goes into the hole, or up: a later parent moves down into the hole. */
  function SiftUp(tree: Tree, hole: nat, id: nat, entries: seq<Entry>, clock: Clock): (r: Tree)
    requires hole < |tree|
    ensures |r| == |tree|
    decreases hole
  {
    if hole > 0 && Later(entries, tree[Parent(hole)], id, clock(2 * hole + 1))
    then SiftUp(tree[hole := tree[Parent(hole)]], Parent(hole), id, entries, clock)
    else tree[hole := id]
  }

  function Push(tree: Tree, id: nat, entries: seq<Entry>, clock: Clock): (r: Tree)
    ensures |r| == |tree| + 1
  {
    SiftUp(tree + [id], |tree|, id, entries, clock)
  }

  /** The hole goes down to a leaf: each time the earlier child moves up into it. */
  function Descend(tree: Tree, hole: nat, entries: seq<Entry>, clock: Clock): (r: (Tree, nat))
    requires hole < |tree|
    ensures |r.0| == |tree| && r.1 < |tree|
    decreases |tree| - hole
  {
    var right := 2 * hole + 2;
    if right < |tree| then
      var child := if Later(entries, tree[right], tree[right - 1], clock(2 * hole)) then right - 1 else right;
      Descend(tree[hole := tree[child]], child, entries, clock)
    else if right == |tree| then (tree[hole := tree[right - 1]], right - 1)
    else (tree, hole)
  }

  /** The root is removed: the hole it leaves goes down, and the last leaf goes up from there. */
  function Pop(tree: Tree, entries: seq<Entry>, clock: Clock): (r: Tree)
    requires tree != []
    ensures |r| == |tree| - 1
  {
    var n := |tree| - 1;
    if n == 0 then []
    else
      var (rest, hole) := Descend(tree[..n], 0, entries, clock);
      SiftUp(rest, hole, tree[n], entries, clock)
  }

  // ----- Nothing is lost ----------------------------------------------------------------------

  /** The numbers in a tree whose hole is filled with `id`. */
  ghost function Filled(tree: Tree, hole: nat, id: nat): multiset<nat>
    requires hole < |tree|
  {
    multiset(tree[hole := id])
  }

  lemma MoveHole(tree: Tree, hole: nat, from: nat, id: nat)
    requires hole < |tree| && from < |tree| && hole != from
    ensures Filled(tree[hole := tree[from]], from, id) == Filled(tree, hole, id)
  {
  }

  lemma {:induction false} SiftUpKeeps(tree: Tree, hole: nat, id: nat, entries: seq<Entry>, clock: Clock)
    requires hole < |tree|
    ensures multiset(SiftUp(tree, hole, id, entries, clock)) == Filled(tree, hole, id)
    decreases hole
  {
    hide Later;
    if hole == 0 {
    } else if Later(entries, tree[Parent(hole)], id, clock(2 * hole + 1)) {
      hide Filled;
      var parent := Parent(hole);
      SiftUpKeeps(tree[hole := tree[parent]], parent, id, entries, clock);
      MoveHole(tree, hole, parent, id);
    }
  }

  lemma {:induction false} DescendKeeps(tree: Tree, hole: nat, entries: seq<Entry>, clock: Clock, id: nat)
    requires hole < |tree|
    ensures var (r, leaf) := Descend(tree, hole, entries, clock);
            Filled(r, leaf, id) == Filled(tree, hole, id)
    decreases |tree| - hole
  {
    hide Later, Filled;
    var right := 2 * hole + 2;
    if right < |tree| {
      var child := if Later(entries, tree[right], tree[right - 1], clock(2 * hole)) then right - 1 else right;
      DescendKeeps(tree[hole := tree[child]], child, entries, clock, id);
      MoveHole(tree, hole, child, id);
    } else if right == |tree| {
      MoveHole(tree, hole, right - 1, id);
    }
  }

  /** A push adds the pushed number. */
  lemma PushKeeps(tree: Tree, id: nat, entries: seq<Entry>, clock: Clock)
    ensures multiset(Push(tree, id, entries, clock)) == multiset(tree) + multiset{id}
  {
    hide SiftUp;
    SiftUpKeeps(tree + [id], |tree|, id, entries, clock);
    assert (tree + [id])[|tree| := id] == tree + [id];
  }

  /** A pop removes the root, and nothing else. */
  lemma PopKeeps(tree: Tree, entries: seq<Entry>, clock: Clock)
    requires tree != []
    ensures multiset(Pop(tree, entries, clock)) == multiset(tree) - multiset{tree[0]}
  {
    hide SiftUp, Descend;
    var n := |tree| - 1;
    assert tree == tree[..n] + [tree[n]];
    if n > 0 {
      var (rest, hole) := Descend(tree[..n], 0, entries, clock);
      DescendKeeps(tree[..n], 0, entries, clock, tree[n]);
      SiftUpKeeps(rest, hole, tree[n], entries, clock);
      assert tree[..n] == [tree[0]] + tree[1..n];
      assert tree[..n][0 := tree[n]] == [tree[n]] + tree[1..n];
    }
  }

  // ----- Order --------------------------------------------------------------------------------

  /*
   * Comparisons do not tell deadlines that are close together. They do tell those on the two sides
   * of an instant before which nothing is due for a while, and the order below is about those: of two
   * actions, one due from the instant `c` on and one due before, the former is never above the latter.
   */

  ghost predicate Known(tree: Tree, entries: seq<Entry>) {
    forall i :: 0 <= i < |tree| ==> tree[i] < |entries|
  }

  /** The action is due at `c` or later. */
  predicate DueFrom(entries: seq<Entry>, c: int, id: nat) {
    id < |entries| && entries[id].Deadline() >= c
  }

  /** `a` may stand above `b`. */
  predicate MayLead(entries: seq<Entry>, c: int, a: nat, b: nat) {
    DueFrom(entries, c, a) ==> DueFrom(entries, c, b)
  }

  predicate InOrder(tree: Tree, i: nat, entries: seq<Entry>, c: int)
    requires 0 < i < |tree|
  {
    MayLead(entries, c, tree[Parent(i)], tree[i])
  }

  ghost predicate Ordered(tree: Tree, entries: seq<Entry>, c: int) {
    forall i :: 0 < i < |tree| ==> InOrder(tree, i, entries, c)
  }

  /** `id` may stand above the children of the hole. */
  ghost predicate FitsAbove(tree: Tree, hole: nat, id: nat, entries: seq<Entry>, c: int) {
    forall i :: 0 < i < |tree| && Parent(i) == hole ==> MayLead(entries, c, id, tree[i])
  }

  /** A tree with a hole: all else is in order, and what is above the hole with what is below it. */
  ghost predicate OrderedAround(tree: Tree, hole: nat, entries: seq<Entry>, c: int) {
    && hole < |tree|
    && (forall i :: 0 < i < |tree| && i != hole && Parent(i) != hole ==> InOrder(tree, i, entries, c))
    && (hole > 0 ==> FitsAbove(tree, hole, tree[Parent(hole)], entries, c))
  }

  ghost predicate KnownAround(tree: Tree, hole: nat, entries: seq<Entry>) {
    forall i :: 0 <= i < |tree| && i != hole ==> tree[i] < |entries|
  }

  /** With these readings every comparison tells what may stand above what. */
  ghost predicate Faithful(entries: seq<Entry>, c: int, clock: Clock) {
    forall a: nat, b: nat, k: nat :: a < |entries| && b < |entries| ==> Tells(entries, c, a, b, clock(k))
  }

  predicate Tells(entries: seq<Entry>, c: int, a: nat, b: nat, at: Reading) {
    if Later(entries, a, b, at) then MayLead(entries, c, b, a) else MayLead(entries, c, a, b)
  }

  /** No action is due in the `width` before `c`. */
  ghost predicate ClearBefore(entries: seq<Entry>, c: int, width: nat) {
    forall i :: 0 <= i < |entries| ==> IsClear(entries[i], c, width)
  }

  predicate IsClear(e: Entry, c: int, width: nat) {
    e.Deadline() + width <= c || e.Deadline() >= c
  }

  ghost predicate SteadyClock(clock: Clock, width: nat) {
    forall k :: Steady(clock(k), width)
  }

  /** On any clock: so it is if no more passes between the two readings of a comparison than is clear before `c`. */
  lemma ClearIsFaithful(entries: seq<Entry>, c: int, width: nat, clock: Clock)
    requires ClearBefore(entries, c, width) && SteadyClock(clock, width) && width >= MS
    requires forall i, k: nat :: 0 <= i < |entries| ==> entries[i].created <= clock(k).first
    ensures Faithful(entries, c, clock)
  {
    hide Compare;
    forall a: nat, b: nat, k: nat | a < |entries| && b < |entries| ensures Tells(entries, c, a, b, clock(k)) {
      assert IsClear(entries[a], c, width) && IsClear(entries[b], c, width) && Steady(clock(k), width);
      SteadyTells(entries[a], entries[b], clock(k), width);
    }
  }

  lemma ParentMovesDown(tree: Tree, hole: nat, id: nat, entries: seq<Entry>, c: int)
    requires OrderedAround(tree, hole, entries, c) && FitsAbove(tree, hole, id, entries, c)
    requires hole > 0 && MayLead(entries, c, id, tree[Parent(hole)])
    ensures var tree' := tree[hole := tree[Parent(hole)]];
            OrderedAround(tree', Parent(hole), entries, c) && FitsAbove(tree', Parent(hole), id, entries, c)
  {
    hide DueFrom;
    var parent := Parent(hole);
    var tree' := tree[hole := tree[parent]];
    hide Parent;
    forall i | 0 < i < |tree'| && i != parent && Parent(i) != parent ensures InOrder(tree', i, entries, c) {
      if Parent(i) != hole {
        assert InOrder(tree, i, entries, c);
      }
    }
    if parent > 0 {
      assert InOrder(tree, parent, entries, c);
    }
    forall i | 0 < i < |tree'| && Parent(i) == parent
      ensures MayLead(entries, c, id, tree'[i])
      ensures parent > 0 ==> MayLead(entries, c, tree'[Parent(parent)], tree'[i])
    {
      if i != hole {
        assert InOrder(tree, i, entries, c);
      }
    }
  }

  lemma HoleIsFilled(tree: Tree, hole: nat, id: nat, entries: seq<Entry>, c: int)
    requires OrderedAround(tree, hole, entries, c) && FitsAbove(tree, hole, id, entries, c)
    requires hole > 0 ==> MayLead(entries, c, tree[Parent(hole)], id)
    ensures Ordered(tree[hole := id], entries, c)
  {
    hide DueFrom, Parent;
    var tree' := tree[hole := id];
    forall i | 0 < i < |tree'| ensures InOrder(tree', i, entries, c) {
      if i != hole && Parent(i) != hole {
        assert InOrder(tree, i, entries, c);
      }
    }
  }

  lemma ChildMovesUp(tree: Tree, hole: nat, child: nat, entries: seq<Entry>, c: int)
    requires OrderedAround(tree, hole, entries, c)
    requires 0 < child < |tree| && Parent(child) == hole && FitsAbove(tree, hole, tree[child], entries, c)
    ensures OrderedAround(tree[hole := tree[child]], child, entries, c)
  {
    hide DueFrom, Parent;
    var tree' := tree[hole := tree[child]];
    forall i | 0 < i < |tree'| && i != child && Parent(i) != child ensures InOrder(tree', i, entries, c) {
      if i != hole && Parent(i) != hole {
        assert InOrder(tree, i, entries, c);
      }
    }
    forall i | 0 < i < |tree'| && Parent(i) == child ensures MayLead(entries, c, tree[child], tree'[i]) {
      assert InOrder(tree, i, entries, c);
    }
  }

  lemma {:induction false} SiftUpOrders(tree: Tree, hole: nat, id: nat, entries: seq<Entry>, c: int, clock: Clock)
    requires hole < |tree| && OrderedAround(tree, hole, entries, c) && FitsAbove(tree, hole, id, entries, c)
    requires KnownAround(tree, hole, entries) && id < |entries| && Faithful(entries, c, clock)
    ensures Ordered(SiftUp(tree, hole, id, entries, clock), entries, c)
    decreases hole
  {
    hide Later, DueFrom, Ordered, OrderedAround, FitsAbove, Parent;
    if hole > 0 {
      assert Tells(entries, c, tree[Parent(hole)], id, clock(2 * hole + 1));
    }
    if hole > 0 && Later(entries, tree[Parent(hole)], id, clock(2 * hole + 1)) {
      ParentMovesDown(tree, hole, id, entries, c);
      SiftUpOrders(tree[hole := tree[Parent(hole)]], Parent(hole), id, entries, c, clock);
    } else {
      HoleIsFilled(tree, hole, id, entries, c);
    }
  }

  lemma Children(hole: nat, i: nat)
    requires i > 0
    ensures Parent(i) == hole <==> i == 2 * hole + 1 || i == 2 * hole + 2
  {
  }

  lemma EarlierChild(tree: Tree, hole: nat, child: nat, entries: seq<Entry>, c: int)
    requires 0 < child < |tree| && Parent(child) == hole
    requires forall i :: 2 * hole + 1 <= i <= 2 * hole + 2 && i < |tree| ==>
               MayLead(entries, c, tree[child], tree[i])
    ensures FitsAbove(tree, hole, tree[child], entries, c)
  {
    hide DueFrom, Parent;
    forall i | 0 < i < |tree| && Parent(i) == hole ensures MayLead(entries, c, tree[child], tree[i]) {
      Children(hole, i);
    }
  }

  lemma {:induction false} DescendOrders(tree: Tree, hole: nat, entries: seq<Entry>, c: int, clock: Clock, id: nat)
    requires OrderedAround(tree, hole, entries, c) && KnownAround(tree, hole, entries)
    requires Faithful(entries, c, clock)
    ensures var (r, leaf) := Descend(tree, hole, entries, clock);
            OrderedAround(r, leaf, entries, c) && KnownAround(r, leaf, entries) && FitsAbove(r, leaf, id, entries, c)
    decreases |tree| - hole
  {
    hide Later, DueFrom, OrderedAround, FitsAbove, Parent;
    var right := 2 * hole + 2;
    if right <= |tree| {
      Children(hole, right - 1);
      Children(hole, right);
      var child := right - 1;
      if right < |tree| {
        assert Tells(entries, c, tree[right], tree[right - 1], clock(2 * hole));
        child := if Later(entries, tree[right], tree[right - 1], clock(2 * hole)) then right - 1 else right;
      }
      EarlierChild(tree, hole, child, entries, c);
      ChildMovesUp(tree, hole, child, entries, c);
      if right < |tree| {
        DescendOrders(tree[hole := tree[child]], child, entries, c, clock, id);
      } else {
        LeafHasNoChildren(tree[hole := tree[child]], child, id, entries, c);
      }
    } else {
      LeafHasNoChildren(tree, hole, id, entries, c);
    }
  }

  lemma LeafHasNoChildren(tree: Tree, leaf: nat, id: nat, entries: seq<Entry>, c: int)
    requires 2 * leaf + 1 >= |tree|
    ensures FitsAbove(tree, leaf, id, entries, c)
  {
  }

  /** A push keeps the order, whatever the instants of its comparisons. */
  lemma PushOrders(tree: Tree, id: nat, entries: seq<Entry>, c: int, clock: Clock)
    requires Ordered(tree, entries, c) && Known(tree, entries) && id < |entries|
    requires Faithful(entries, c, clock)
    ensures Ordered(Push(tree, id, entries, clock), entries, c)
  {
    hide DueFrom, Faithful, SiftUp, Parent;
    var n := |tree|;
    forall i | 0 < i < n ensures InOrder(tree + [id], i, entries, c) {
      assert InOrder(tree, i, entries, c);
    }
    SiftUpOrders(tree + [id], n, id, entries, c, clock);
  }

  /** A pop keeps the order, whatever the instants of its comparisons. */
  lemma PopOrders(tree: Tree, entries: seq<Entry>, c: int, clock: Clock)
    requires tree != [] && Ordered(tree, entries, c) && Known(tree, entries)
    requires Faithful(entries, c, clock)
    ensures Ordered(Pop(tree, entries, clock), entries, c)
  {
    hide DueFrom, Faithful, SiftUp, Descend, Parent, Ordered, OrderedAround, FitsAbove, KnownAround;
    var n := |tree| - 1;
    if n > 0 {
      RootBecomesHole(tree, n, entries, c);
      DescendOrders(tree[..n], 0, entries, c, clock, tree[n]);
      var (rest, hole) := Descend(tree[..n], 0, entries, clock);
      SiftUpOrders(rest, hole, tree[n], entries, c, clock);
    } else {
      assert Ordered([], entries, c) by { NothingToOrder(entries, c); }
    }
  }

  lemma NothingToOrder(entries: seq<Entry>, c: int)
    ensures Ordered([], entries, c)
  {
  }

  lemma RootBecomesHole(tree: Tree, n: nat, entries: seq<Entry>, c: int)
    requires Ordered(tree, entries, c) && Known(tree, entries) && 0 < n <= |tree|
    ensures OrderedAround(tree[..n], 0, entries, c) && KnownAround(tree[..n], 0, entries)
  {
    hide DueFrom, Parent;
    forall i | 0 < i < n ensures InOrder(tree[..n], i, entries, c) {
      assert InOrder(tree, i, entries, c);
    }
  }

  /** What is due before `c`, if anything, is above all else: if the root is due from `c` on, everything is. */
  lemma {:induction false} RootLeads(tree: Tree, entries: seq<Entry>, c: int, i: nat)
    requires Ordered(tree, entries, c) && i < |tree|
    ensures MayLead(entries, c, tree[0], tree[i])
  {
    hide DueFrom, Parent;
    if i == 0 {
    } else {
      RootLeads(tree, entries, c, Parent(i));
      assert InOrder(tree, i, entries, c);
    }
  }

  // ----- How far back a clear instant is ------------------------------------------------------

  function DueBefore(entries: seq<Entry>, c: int): nat {
    if entries == [] then 0
    else DueBefore(entries[..|entries| - 1], c) + if entries[|entries| - 1].Deadline() < c then 1 else 0
  }

  lemma {:induction false} DueBeforeBound(entries: seq<Entry>, c: int)
    ensures DueBefore(entries, c) <= |entries|
  {
    if entries == [] {
    } else {
      DueBeforeBound(entries[..|entries| - 1], c);
    }
  }

  lemma {:induction false} DueBeforeGrows(entries: seq<Entry>, c: int, d: int)
    requires c <= d
    ensures DueBefore(entries, c) <= DueBefore(entries, d)
    ensures (exists i :: 0 <= i < |entries| && c <= entries[i].Deadline() < d) ==>
              DueBefore(entries, c) < DueBefore(entries, d)
  {
    if entries == [] {
    } else {
      var front := entries[..|entries| - 1];
      DueBeforeGrows(front, c, d);
      if i :| 0 <= i < |entries| && c <= entries[i].Deadline() < d {
        assert i < |front| ==> front[i] == entries[i];
      }
    }
  }

  /** From any instant back to a clear one it is less than `width` for each action that is due before. */
  lemma {:induction false} ClearInstant(entries: seq<Entry>, d: int, width: nat) returns (c: int)
    requires width > 0
    ensures c <= d && ClearBefore(entries, c, width)
    ensures d - c <= (width - 1) * DueBefore(entries, d)
    decreases DueBefore(entries, d)
  {
    if ClearBefore(entries, d, width) {
      c := d;
    } else {
      var i :| 0 <= i < |entries| && !IsClear(entries[i], d, width);
      var e := entries[i].Deadline();
      assert e <= entries[i].Deadline() < d;
      DueBeforeGrows(entries, e, d);
      c := ClearInstant(entries, e, width);
      OneStepFurther(width - 1, DueBefore(entries, e), DueBefore(entries, d));
    }
  }

  lemma {:induction false} OneStepFurther(w: nat, m: nat, n: nat)
    requires m < n
    ensures w * m + w <= w * n
  {
    if n == m + 1 {
      assert w * n == w * m + w;
    } else {
      OneStepFurther(w, m, n - 1);
      assert w * n == w * (n - 1) + w;
    }
  }
}
