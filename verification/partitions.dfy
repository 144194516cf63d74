/** Lists of state blocks, as the minimization keeps them
    (`equivalence_classes`), and the "which block holds this state" search
    the source repeats in several places. */
module Partitions {
  import opened Automata

  /** No state lies in two blocks. */
  ghost predicate Disjoint(P: seq<set<State>>)
  {
    forall i, j :: 0 <= i < j < |P| ==> P[i] !! P[j]
  }

  /** The blocks lie inside `Q` and the search for its block finds one for
      every state of `Q`. */
  ghost predicate Covers(P: seq<set<State>>, Q: set<State>)
  {
    (forall i :: 0 <= i < |P| ==> P[i] <= Q) &&
    (forall s :: s in Q ==> BlockOf(P, s) < |P|)
  }

  /** No block is empty. Stated recursively, so that the solver learns that
      a particular block is non-empty only through `NoEmptyAt`: a quantified
      form together with `Covers` lets it chase witnesses forever. */
  ghost predicate NoEmptyBlock(P: seq<set<State>>)
    decreases |P|
  {
    P == [] || (P[|P| - 1] != {} && NoEmptyBlock(P[..|P| - 1]))
  }

  lemma {:induction false} NoEmptyAt(P: seq<set<State>>, i: nat)
    requires NoEmptyBlock(P) && i < |P|
    ensures P[i] != {}
    decreases |P|
  {
    if i < |P| - 1 {
      NoEmptyAt(P[..|P| - 1], i);
    }
  }

  lemma {:induction false} NoEmptyIntro(P: seq<set<State>>)
    requires forall i :: 0 <= i < |P| ==> P[i] != {}
    ensures NoEmptyBlock(P)
    decreases |P|
  {
    if P != [] {
      NoEmptyIntro(P[..|P| - 1]);
    }
  }

  /** A list without empty blocks does not hold the empty set. */
  lemma NoEmptyExcludesEmpty(P: seq<set<State>>)
    requires NoEmptyBlock(P)
    ensures {} !in P
  {
    if {} in P {
      var i :| 0 <= i < |P| && P[i] == {};
      NoEmptyAt(P, i);
    }
  }

  /** `P` splits `Q` into disjoint blocks (empty blocks allowed). */
  ghost predicate IsPartition(P: seq<set<State>>, Q: set<State>)
  {
    Disjoint(P) && Covers(P, Q)
  }

  /** Some block holds both `s` and `t`. */
  ghost predicate Together(P: seq<set<State>>, s: State, t: State)
  {
    exists i :: 0 <= i < |P| && s in P[i] && t in P[i]
  }

  /** The index of the first block holding `s`, or `|P|` when none does. */
  function BlockOf(P: seq<set<State>>, s: State): (i: nat)
    ensures i <= |P|
    ensures i < |P| ==> s in P[i]
    ensures forall j :: 0 <= j < i ==> s !in P[j]
    decreases |P|
  {
    if P == [] then 0
    else if s in P[0] then 0
    else 1 + BlockOf(P[1..], s)
  }

  /** In a disjoint list, the block a state lies in is the one `BlockOf` finds. */
  lemma BlockOfIndex(P: seq<set<State>>, s: State, i: nat)
    requires Disjoint(P) && i < |P| && s in P[i]
    ensures BlockOf(P, s) == i
  {
  }

  /** Over a partition of `Q`, `BlockOf` finds a block for every state of `Q`,
      and two states are together exactly when it finds the same block. */
  lemma TogetherIffSameBlock(P: seq<set<State>>, Q: set<State>, s: State, t: State)
    requires IsPartition(P, Q) && s in Q && t in Q
    ensures BlockOf(P, s) < |P| && BlockOf(P, t) < |P|
    ensures Together(P, s, t) <==> BlockOf(P, s) == BlockOf(P, t)
  {
  }

  /** The source's linear search for the block containing `s`
      (`for i in range(len(classes)): if s in classes[i]: ... break`). */
  method FindClass(P: seq<set<State>>, s: State) returns (i: nat)
    ensures i == BlockOf(P, s)
  {
    i := 0;
    while i < |P|
      invariant i <= |P|
      invariant forall j :: 0 <= j < i ==> s !in P[j]
    {
      if s in P[i] {
        return;
      }
      i := i + 1;
    }
  }

  /** Exchanging two blocks of a partition keeps it a partition without empty
      blocks and keeps which states are together. */
  lemma SwapBlocks(P: seq<set<State>>, P': seq<set<State>>, Q: set<State>, i: nat, j: nat)
    requires IsPartition(P, Q) && NoEmptyBlock(P) && i < |P| && j < |P|
    requires P' == P[i := P[j]][j := P[i]]
    ensures IsPartition(P', Q) && NoEmptyBlock(P')
    ensures forall s, t :: Together(P', s, t) <==> Together(P, s, t)
  {
    SwapDisjoint(P, P', i, j);
    SwapCovers(P, P', Q, i, j);
    forall s, t
      ensures Together(P', s, t) <==> Together(P, s, t)
    {
      SwapTogether(P, P', i, j, s, t);
    }
  }

  lemma SwapDisjoint(P: seq<set<State>>, P': seq<set<State>>, i: nat, j: nat)
    requires Disjoint(P) && i < |P| && j < |P| && P' == P[i := P[j]][j := P[i]]
    ensures Disjoint(P')
  {
    forall x, y | 0 <= x < y < |P'| ensures P'[x] !! P'[y] {
      var x' := if x == j then i else if x == i then j else x;
      var y' := if y == j then i else if y == i then j else y;
      assert P'[x] == P[x'] && P'[y] == P[y'];
      if x' < y' { assert P[x'] !! P[y']; } else { assert P[y'] !! P[x']; }
    }
  }

  lemma SwapCovers(P: seq<set<State>>, P': seq<set<State>>, Q: set<State>, i: nat, j: nat)
    requires Covers(P, Q) && NoEmptyBlock(P) && i < |P| && j < |P| && P' == P[i := P[j]][j := P[i]]
    ensures Covers(P', Q) && NoEmptyBlock(P')
  {
    forall x | 0 <= x < |P'| ensures P'[x] <= Q && P'[x] != {} {
      var x' := if x == j then i else if x == i then j else x;
      assert P'[x] == P[x'];
      NoEmptyAt(P, x');
    }
    NoEmptyIntro(P');
    forall s | s in Q
      ensures BlockOf(P', s) < |P'|
    {
      var y := BlockOf(P, s);
      if y == i { assert s in P'[j]; }
      else if y == j { assert s in P'[i]; }
      else { assert s in P'[y]; }
    }
  }

  lemma SwapTogether(P: seq<set<State>>, P': seq<set<State>>, i: nat, j: nat, s: State, t: State)
    requires i < |P| && j < |P| && P' == P[i := P[j]][j := P[i]]
    ensures Together(P', s, t) <==> Together(P, s, t)
  {
    if Together(P', s, t) {
      var x :| 0 <= x < |P'| && s in P'[x] && t in P'[x];
      var x' := if x == j then i else if x == i then j else x;
      assert P'[x] == P[x'];
    }
    if Together(P, s, t) {
      var y :| 0 <= y < |P| && s in P[y] && t in P[y];
      if y == i { assert P'[j] == P[y]; }
      else if y == j { assert P'[i] == P[y]; }
      else { assert P'[y] == P[y]; }
    }
  }

  /** Disjoint non-empty blocks inside `Q` are at most `|Q|` in number. */
  lemma {:induction false} BlockCountBound(P: seq<set<State>>, Q: set<State>)
    requires Disjoint(P) && NoEmptyBlock(P)
    requires forall i :: 0 <= i < |P| ==> P[i] <= Q
    ensures |P| <= |Q|
    decreases |P|
  {
    if P != [] {
      NoEmptyAt(P, 0);
      var x :| x in P[0];
      var rest := P[1..];
      forall i | 0 <= i < |rest| ensures rest[i] <= Q - {x} {
        assert rest[i] == P[i + 1];
        assert P[0] !! P[i + 1];
      }
      assert Disjoint(rest) by {
        forall i, j | 0 <= i < j < |rest| ensures rest[i] !! rest[j] { assert rest[i] == P[i + 1] && rest[j] == P[j + 1]; }
      }
      assert NoEmptyBlock(rest) by {
        forall i | 0 <= i < |rest| ensures rest[i] != {} { NoEmptyAt(P, i + 1); }
        NoEmptyIntro(rest);
      }
      BlockCountBound(rest, Q - {x});
    }
  }
}
