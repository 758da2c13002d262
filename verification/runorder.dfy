/** The order in which applyUpdate runs its actions (update.go). */
module RunOrders {
  import opened Permutations
  import opened Values
  import opened Paths
  import opened Expressions
  import opened Updates
  import opened RemoveSort
  import opened UpdateOrder

  /** SET, ADD and DELETE as written, then the REMOVEs as sorted. */
  function RunOrder(actions: seq<Action>): seq<Action> {
    Others(actions) + SortRemoves(Removes(actions))
  }

  lemma UpdateIsRun(item: Item, actions: seq<Action>, env: Env)
    ensures ApplyUpdate(item, actions, env) == ApplyAll(RunOrder(actions), item, env)
  {
    hide ApplyAll, SortRemoves;
    ApplyAllConcat(Others(actions), SortRemoves(Removes(actions)), item, env);
  }

  /** Without REMOVEs the actions run as written. */
  lemma NoRemovesRun(s: seq<Action>)
    requires forall i :: 0 <= i < |s| ==> IsWrite(s[i])
    ensures RunOrder(s) == s
  {
    hide SortRemoves;
    NoRemoves(s);
    SortsNothing();
    assert s + [] == s;
  }

  lemma {:induction false} PartsKeep(actions: seq<Action>)
    ensures multiset(Others(actions)) + multiset(Removes(actions)) == multiset(actions)
  {
    if actions != [] {
      PartsKeep(actions[1..]);
      assert actions == [actions[0]] + actions[1..];
    }
  }

  /** Every action runs, once. */
  lemma RunsAll(actions: seq<Action>)
    ensures multiset(RunOrder(actions)) == multiset(actions)
    ensures forall a :: a in RunOrder(actions) <==> a in actions
  {
    hide SortRemoves, Others, Removes;
    PartsKeep(actions);
    SortKeeps(Removes(actions));
    forall a
      ensures a in RunOrder(actions) <==> a in actions
    {
      assert a in multiset(RunOrder(actions)) <==> a in multiset(actions);
    }
  }

  /** at are the positions from n on of the actions other than REMOVEs, in order. */
  predicate Positions(actions: seq<Action>, n: nat, at: seq<nat>) {
    && (forall k :: 0 <= k < |at| ==> n <= at[k] < |actions| && !actions[at[k]].Remove?)
    && (forall j, k :: 0 <= j < k < |at| ==> at[j] < at[k])
    && (forall i :: n <= i < |actions| && !actions[i].Remove? ==> i in at)
  }

  lemma PositionsBefore(actions: seq<Action>, n: nat, at: seq<nat>)
    requires n < |actions| && Positions(actions, n + 1, at)
    ensures Positions(actions, n, if actions[n].Remove? then at else [n] + at)
  {
    if !actions[n].Remove? {
      forall i | n <= i < |actions| && !actions[i].Remove? ensures i in [n] + at {
        assert i > n ==> i in at;
      }
    }
  }

  lemma {:induction false} OthersAsWritten(actions: seq<Action>, n: nat) returns (at: seq<nat>)
    requires n <= |actions|
    ensures Positions(actions, n, at) && |at| == |Others(actions[n..])|
    ensures forall k :: 0 <= k < |at| ==> actions[at[k]] == Others(actions[n..])[k]
    decreases |actions| - n
  {
    hide Positions;
    if n == |actions| {
      at := [];
      NoPositions(actions);
    } else {
      var rest := OthersAsWritten(actions, n + 1);
      PositionsBefore(actions, n, rest);
      PositionsInside(actions, n + 1, rest);
      assert actions[n..][1..] == actions[n + 1..];
      at := if actions[n].Remove? then rest else [n] + rest;
    }
    PositionsInside(actions, n, at);
  }

  lemma NoPositions(actions: seq<Action>)
    ensures Positions(actions, |actions|, [])
  {
  }

  lemma PositionsInside(actions: seq<Action>, n: nat, at: seq<nat>)
    requires Positions(actions, n, at)
    ensures forall k :: 0 <= k < |at| ==> at[k] < |actions|
  {
  }

  lemma {:induction false} OnlyRemoves(actions: seq<Action>)
    ensures forall a :: a in Removes(actions) ==> a.Remove?
  {
    if actions != [] {
      OnlyRemoves(actions[1..]);
    }
  }

  /** SETs, ADDs and DELETEs run first, in the order in which they are written; REMOVEs run last. */
  lemma RunAsWritten(actions: seq<Action>) returns (at: seq<nat>)
    ensures |at| <= |RunOrder(actions)| && Positions(actions, 0, at)
    ensures forall k :: 0 <= k < |at| ==> at[k] < |actions| && RunOrder(actions)[k] == actions[at[k]]
    ensures forall k :: |at| <= k < |RunOrder(actions)| ==> RunOrder(actions)[k].Remove?
  {
    hide SortRemoves, Others, Removes, Positions;
    at := OthersAsWritten(actions, 0);
    PositionsInside(actions, 0, at);
    assert actions[0..] == actions;
    OnlyRemoves(actions);
    SortKeeps(Removes(actions));
    var sorted := SortRemoves(Removes(actions));
    forall k | 0 <= k < |sorted| ensures sorted[k].Remove? {
      assert sorted[k] in multiset(sorted);
    }
  }

  lemma ApartFromAll(s: seq<Action>, a: Action)
    requires Disjoint([a] + s)
    ensures Disjoint(s) && forall b :: b in s ==> !Overlap(a.path, b.path)
  {
    hide Overlap;
    var t := [a] + s;
    assert forall i :: 0 <= i < |s| ==> s[i] == t[i + 1];
    forall b | b in s
      ensures !Overlap(a.path, b.path)
    {
      var i :| 0 <= i < |s| && s[i] == b;
      assert !Overlap(t[0].path, t[i + 1].path);
    }
  }

  /** Whether the paths overlap does not depend on the order of the actions. */
  lemma {:induction false} DisjointPermuted(s: seq<Action>, t: seq<Action>)
    requires multiset(s) == multiset(t) && Disjoint(t)
    ensures Disjoint(s)
    decreases |t|
  {
    hide Overlap, Disjoint;
    if t == [] {
      assert |multiset(s)| == 0;
      NoneOverlap(s);
    } else {
      var i := FindFirst(s, t);
      var rest := s[..i] + s[i + 1..];
      assert t == [t[0]] + t[1..];
      ApartFromAll(t[1..], t[0]);
      DisjointPermuted(rest, t[1..]);
      forall b | b in rest
        ensures !Overlap(t[0].path, b.path)
      {
        assert b in multiset(rest);
      }
      DisjointWith(s, i);
    }
  }

  lemma NoneOverlap(s: seq<Action>)
    requires s == []
    ensures Disjoint(s)
  {
  }

  lemma DisjointWith(s: seq<Action>, i: nat)
    requires i < |s| && Disjoint(s[..i] + s[i + 1..])
    requires forall b :: b in s[..i] + s[i + 1..] ==> !Overlap(s[i].path, b.path)
    ensures Disjoint(s)
  {
    hide Overlap;
    var rest := s[..i] + s[i + 1..];
    forall j, k | 0 <= j < k < |s|
      ensures !Overlap(s[j].path, s[k].path)
    {
      var a, b := if j < i then j else j - 1, if k < i then k else k - 1;
      assert j != i ==> rest[a] == s[j];
      assert k != i ==> rest[b] == s[k];
      OverlapSymmetric(s[j].path, s[k].path);
    }
  }

  /** A parsed update stays one in the order in which it runs. */
  lemma RunOrderParsed(actions: seq<Action>)
    requires ParsedUpdate(actions)
    ensures ParsedUpdate(RunOrder(actions))
  {
    hide Overlap, RunOrder;
    RunsAll(actions);
    assert actions[0] in RunOrder(actions);
    DisjointPermuted(RunOrder(actions), actions);
  }
}
