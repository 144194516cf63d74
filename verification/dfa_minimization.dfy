/** The class `FiniteAutomaton` of `DFA_minimization.py`: a deterministic
    automaton whose fields `minimize` replaces by those of the automaton
    built from the classes of indistinguishable states. */
module DfaMinimization {
  import opened Automata
  import opened DfaModel
  import opened Partitions
  import opened StateNames
  import opened Refinement
  import opened Quotient
  import opened TableLoading

  /** A partition that a round leaves unchanged, and that separates by words
      of length up to `m` as well as up to `m + k` for some `k >= 1`, holds
      exactly the classes of indistinguishable states. */
  lemma FixpointIsEquivalence(a: Dfa, P: seq<set<State>>, m: nat, k: nat)
    requires Total(a) && IsPartition(P, a.Q) && NoEmptyBlock(P) && 1 <= k
    requires Represents(a, P, m) && Represents(a, P, m + k)
    ensures IsEquivalencePartition(a, P)
  {
    forall s, t | s in a.Q && t in a.Q && EquivUpTo(a, s, t, m) ensures EquivUpTo(a, s, t, m + 1) {
      assert EquivUpTo(a, s, t, m + k);
    }
    StableEquivIsIndistinguishable(a, m);
  }

  /** Moving the class of the start state to the front, as `minimize` does
      before naming the classes, keeps the classes and puts the start state
      in class 0. */
  lemma StartClassFirst(a: Dfa, found: seq<set<State>>, ordered: seq<set<State>>, initial: nat)
    requires IsEquivalencePartition(a, found) && (initial < |found| || initial == 0)
    requires a.q0 in a.Q ==> initial == BlockOf(found, a.q0)
    requires initial == 0 ==> ordered == found
    requires initial != 0 ==> ordered == found[0 := found[initial]][initial := found[0]]
    ensures IsEquivalencePartition(a, ordered)
    ensures a.q0 in a.Q ==> |ordered| > 0 && a.q0 in ordered[0]
  {
    if initial != 0 {
      SwapBlocks(found, ordered, a.Q, 0, initial);
    }
  }

  /** A table whose data rows all have one cell per symbol, each naming a
      state of some data row, loads into a fresh automaton as one that
      `minimize` accepts: total, with its final states among its states. */
  lemma LoadedWellFormed(rows: seq<seq<string>>, start: State)
    requires FullRows(Symbols(rows), DataRows(rows))
    requires forall r, j :: 0 <= r < |DataRows(rows)| && 0 <= j < |CellsOf(DataRows(rows)[r])| ==>
      CellsOf(DataRows(rows)[r])[j] in States(DataRows(rows))
    ensures WellFormed(Dfa(States(DataRows(rows)), Alphabet(rows, {}),
      Table(Symbols(rows), DataRows(rows)), start, Finals(DataRows(rows))))
  {
    var symbols, data := Symbols(rows), DataRows(rows);
    var a := Dfa(States(data), Alphabet(rows, {}), Table(symbols, data), start, Finals(data));
    TableKeys(symbols, data);
    StatesMembers(data);
    forall s, c | s in a.Q && c in a.Sigma ensures (s, c) in a.delta && a.delta[(s, c)] in a.Q {
      var r :| 0 <= r < |data| && |data[r]| >= 2 && data[r][1] == s;
      var j :| 0 <= j < |symbols| && symbols[j] == c;
      assert Written(symbols, data, (s, c));
      TableValues(symbols, data, (s, c));
    }
  }

  /** `d` holds the entries of the classes before `i` as `before` does,
      and for each symbol of `done` the entry of class `i`, which names the
      class that `state` moves to. */
  ghost predicate RowDone(a: Dfa, classes: seq<set<State>>, i: nat, state: State,
                          before: map<(State, Symbol), State>, d: map<(State, Symbol), State>, done: set<Symbol>)
  {
    (forall c :: c in done ==> (Name(i), c) in d && d[(Name(i), c)] == Name(BlockOf(classes, Step(a, state, c)))) &&
    (forall key :: key in d ==> key in before || (key.0 == Name(i) && key.1 in done)) &&
    (forall key :: key in before ==> key in d && d[key] == before[key])
  }

  /** Writing the entry of class `i` for one more symbol. */
  lemma RowStep(a: Dfa, classes: seq<set<State>>, i: nat, state: State,
                before: map<(State, Symbol), State>, d: map<(State, Symbol), State>, done: set<Symbol>, c: Symbol)
    requires RowDone(a, classes, i, state, before, d, done)
    requires forall key :: key in before ==> key.0 != Name(i)
    ensures RowDone(a, classes, i, state, before, d[(Name(i), c) := Name(BlockOf(classes, Step(a, state, c)))], done + {c})
  {
  }

  class FiniteAutomaton {
    var Q: set<State>
    var Sigma: set<Symbol>
    var delta: map<(State, Symbol), State>
    var q0: State
    var F: set<State>

    /** The automaton the fields currently describe. */
    function Model(): Dfa
      reads this
    {
      Dfa(Q, Sigma, delta, q0, F)
    }

    /** An empty automaton whose start state is named `q0`. */
    constructor ()
      ensures Model() == Dfa({}, {}, map[], "q0", {})
    {
      Q := {};
      Sigma := {};
      delta := map[];
      q0 := "q0";
      F := {};
    }

    /** `load_transition_function` on the rows the CSV reader yields: the
        header row gives the alphabet, each data row adds its state (and
        marks it final after `+`), the first data row gives the start state,
        and every cell becomes the transition under its column's symbol. */
    method LoadTransitionFunction(rows: seq<seq<string>>)
      requires FitsHeader(Symbols(rows), DataRows(rows))
      modifies this
      ensures Sigma == Alphabet(rows, old(Sigma))
      ensures Q == old(Q) + States(DataRows(rows))
      ensures F == old(F) + Finals(DataRows(rows))
      ensures q0 == Start(rows, old(q0))
      ensures delta == Table(Symbols(rows), DataRows(rows))
    {
      ghost var init := Loading([], Sigma, Q, F, q0, map[]);
      var transitionFunction := map[];
      var symbols := [];
      for rowCount := 0 to |rows|
        invariant Loading(symbols, Sigma, Q, F, q0, transitionFunction) == ReadRows(rows, rowCount, init)
        invariant rowCount >= 1 ==> symbols == Symbols(rows)
      {
        var row := rows[rowCount];
        if rowCount == 0 {
          symbols := CellsOf(row);
          Sigma := set c | c in symbols;
        } else {
          assert row in DataRows(rows);
          transitionFunction := LoadRow(row, rowCount, symbols, transitionFunction);
        }
      }
      ReadAllRows(rows, init);
      delta := transitionFunction;
    }

    /** One data row of `load_transition_function`: the marker, the state,
        then one transition per cell. */
    method LoadRow(row: seq<string>, rowCount: nat, symbols: seq<Symbol>, before: map<(State, Symbol), State>)
      returns (after: map<(State, Symbol), State>)
      requires 1 <= rowCount && |row| <= |symbols| + 2
      modifies this
      ensures Sigma == old(Sigma) && delta == old(delta)
      ensures Q == old(Q) + NameOf(row)
      ensures F == old(F) + FinalNameOf(row)
      ensures q0 == (if rowCount == 1 && |row| >= 2 then row[1] else old(q0))
      ensures after == AddRow(before, symbols, row)
    {
      after := before;
      var isFinal := false;
      var state := "";
      for i := 0 to |row|
        invariant Sigma == old(Sigma) && delta == old(delta)
        invariant isFinal == (i >= 1 && row[0] == "+")
        invariant i >= 2 ==> state == row[1]
        invariant Q == old(Q) + (if i >= 2 then {row[1]} else {})
        invariant F == old(F) + (if i >= 2 && row[0] == "+" then {row[1]} else {})
        invariant q0 == (if rowCount == 1 && i >= 2 then row[1] else old(q0))
        invariant after == if i >= 2 then PutCells(before, row[1], symbols, row[2..], i - 2) else before
      {
        if i == 0 {
          if row[i] == "+" {
            isFinal := true;
          }
        } else if i == 1 {
          state := row[i];
          if isFinal {
            F := F + {state};
          }
          Q := Q + {state};
          if rowCount == 1 {
            q0 := state;
          }
        } else {
          after := after[(state, symbols[i - 2]) := row[i]];
        }
      }
    }

    /** `__find_equivalence_classes`: start from `[F, Q \ F]` and split every
        class by the classes reached along all chains of length 1, 2, ...
        until a round changes nothing. */
    method FindEquivalenceClasses() returns (classes: seq<set<State>>)
      requires WellFormed(Model())
      ensures IsEquivalencePartition(Model(), classes)
    {
      var a := Model();
      var symbols := Enumerate(Sigma);
      classes := [F, Q - F];
      InitialRepresents(a);
      var length := 1;
      ghost var m: nat := 0;
      while true
        invariant IsPartition(classes, a.Q) && Represents(a, classes, m) && 1 <= length <= m + 1
        decreases if {} in classes then 1 else 0, |a.Q| - |classes|
      {
        ChainsOverAlphabet(symbols, a.Sigma, length);
        var chains := Chains(symbols, length);
        var next := RefineRound(a, classes, chains);
        RoundRepresents(a, classes, next, symbols, length, m);
        if next == classes {
          FixpointIsEquivalence(a, classes, m, length);
          return;
        }
        NoEmptyExcludesEmpty(next);
        BlockCountBound(next, a.Q);
        classes := next;
        m := m + length;
        length := length + 1;
      }
    }

    /** The new transition function of `minimize`: for each class `i`, one
        of its states `state` and each symbol `c`, the entry
        `('q' + str(i), c)` names the class of `delta[(state, c)]`. */
    method QuotientTransitions(classes: seq<set<State>>) returns (newDelta: map<(State, Symbol), State>)
      requires WellFormed(Model()) && IsPartition(classes, Q) && NoEmptyBlock(classes) && Congruent(Model(), classes)
      ensures TransitionsFromClasses(Model(), classes, newDelta)
    {
      var a := Model();
      newDelta := map[];
      for i := 0 to |classes|
        invariant forall i', c :: 0 <= i' < i && c in Sigma ==> (Name(i'), c) in newDelta
        invariant forall key :: key in newDelta ==> key.0 in NamesBelow(i) && key.1 in Sigma
        invariant forall i', r, c :: 0 <= i' < i && r in classes[i'] && c in Sigma && (Name(i'), c) in newDelta ==>
          newDelta[(Name(i'), c)] == Name(BlockOf(classes, Step(a, r, c)))
      {
        NoEmptyAt(classes, i);
        var state :| state in classes[i];
        var row := ClassTransitions(classes, i, state, newDelta);
        forall i', c | 0 <= i' < i + 1 && c in Sigma ensures (Name(i'), c) in row {
          if i' < i {
            assert (Name(i'), c) in newDelta;
          }
        }
        forall i', r, c | 0 <= i' < i + 1 && r in classes[i'] && c in Sigma && (Name(i'), c) in row
          ensures row[(Name(i'), c)] == Name(BlockOf(classes, Step(a, r, c)))
        {
          if i' < i {
            assert (Name(i'), c) in newDelta;
          } else {
            BlockOfIndex(classes, r, i);
            BlockOfIndex(classes, state, i);
            assert BlockOf(classes, Step(a, r, c)) == BlockOf(classes, Step(a, state, c));
          }
        }
        newDelta := row;
      }
    }

    /** The inner loop of the transition update: the entries of class `i`,
        read off its state `state`, added to those of the classes before it. */
    method ClassTransitions(classes: seq<set<State>>, i: nat, state: State, before: map<(State, Symbol), State>)
      returns (newDelta: map<(State, Symbol), State>)
      requires WellFormed(Model()) && IsPartition(classes, Q) && i < |classes| && state in classes[i]
      requires forall key :: key in before ==> key.0 in NamesBelow(i) && key.1 in Sigma
      ensures forall c :: c in Sigma ==>
        (Name(i), c) in newDelta && newDelta[(Name(i), c)] == Name(BlockOf(classes, Step(Model(), state, c)))
      ensures forall key :: key in newDelta ==> key.0 in NamesBelow(i + 1) && key.1 in Sigma
      ensures forall key :: key in before ==> key in newDelta && newDelta[key] == before[key]
    {
      newDelta := before;
      forall i' | 0 <= i' < i ensures Name(i') != Name(i) {
        NameInjective(i', i);
      }
      forall key | key in before ensures key.0 != Name(i) {
        NamesBelowMember(i, i);
      }
      ghost var a := Model();
      var rest := Sigma;
      ghost var done: set<Symbol> := {};
      while rest != {}
        invariant done + rest == Sigma && done !! rest
        invariant RowDone(a, classes, i, state, before, newDelta, done)
        decreases rest
      {
        var c :| c in rest;
        var toState := delta[(state, c)];
        assert toState == Step(a, state, c) && toState in Q;
        var j := FindClass(classes, toState);
        RowStep(a, classes, i, state, before, newDelta, done, c);
        if j < |classes| {
          newDelta := newDelta[(Name(i), c) := Name(j)];
        }
        done, rest := done + {c}, rest - {c};
      }
    }

    /** The new final states of `minimize`: the name of the class of every
        old final state. */
    method QuotientFinals(classes: seq<set<State>>) returns (newF: set<State>)
      requires Disjoint(classes)
      ensures FinalsFromClasses(Model(), classes, newF)
    {
      newF := {};
      var rest := F;
      ghost var done: set<State> := {};
      while rest != {}
        invariant done + rest == F && done !! rest
        invariant forall i :: 0 <= i < |classes| ==> (Name(i) in newF <==> classes[i] * done != {})
        invariant newF <= NamesBelow(|classes|)
        decreases rest
      {
        var state :| state in rest;
        var j := FindClass(classes, state);
        forall i | 0 <= i < |classes|
          ensures (Name(i) in newF || (j < |classes| && Name(i) == Name(j))) <==> classes[i] * (done + {state}) != {}
        {
          NameInjective(i, j);
          if state in classes[i] {
            BlockOfIndex(classes, state, i);
            assert state in classes[i] * (done + {state});
          }
          if classes[i] * done != {} {
            var s :| s in classes[i] * done;
            assert s in classes[i] * (done + {state});
          }
        }
        if j < |classes| {
          newF := newF + {Name(j)};
        }
        done, rest := done + {state}, rest - {state};
      }
    }

    /** `minimize`: replace the automaton by the one whose states are the
        classes of indistinguishable states, the class of the start state
        first and named `q0`. */
    method Minimize() returns (ghost classes: seq<set<State>>)
      requires WellFormed(Model())
      modifies this
      ensures IsEquivalencePartition(old(Model()), classes)
      ensures IsQuotient(old(Model()), classes, Model())
      ensures WellFormed(Model())
      ensures old(q0) in old(Q) ==> q0 in Q
      ensures old(q0) in old(Q) ==>
        forall w :: IsWordOver(w, Sigma) ==> (Accepts(Model(), w) <==> Accepts(old(Model()), w))
      ensures forall p, q :: p in Q && q in Q && Indistinguishable(Model(), p, q) ==> p == q
    {
      ghost var a := Model();
      var b: Dfa;
      b, classes := BuildQuotient();
      delta := b.delta;
      q0 := b.q0;
      Q := b.Q;
      F := b.F;
      assert Model() == b;
      QuotientIsReducedAndEquivalent(a, classes, b);
    }

    /** The automaton `minimize` turns this one into, computed without
        changing it: the classes, the class of the start state moved to the
        front, the transitions and final states between the classes. */
    method BuildQuotient() returns (b: Dfa, ghost classes: seq<set<State>>)
      requires WellFormed(Model())
      ensures IsEquivalencePartition(Model(), classes)
      ensures IsQuotient(Model(), classes, b)
    {
      var a := Model();
      var found := FindEquivalenceClasses();
      var initial := 0;
      var at := FindClass(found, q0);
      if at < |found| {
        initial := at;
      }
      var ordered := found;
      if initial != 0 {
        ordered := found[0 := found[initial]][initial := found[0]];
      }
      StartClassFirst(a, found, ordered, initial);
      EquivalenceIsCongruent(a, ordered);
      var newDelta := QuotientTransitions(ordered);
      var newF := QuotientFinals(ordered);
      classes := ordered;
      b := Dfa(NamesBelow(|ordered|), Sigma, newDelta, "q0", newF);
      NameInjective(0, 0);
    }
  }
}
