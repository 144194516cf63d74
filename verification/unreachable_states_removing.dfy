/** The class `NondeterministicFiniteAutomaton` of
    `unreachable_states_removing.py`: a nondeterministic automaton from which
    `remove_unreachable_states` drops every state the start state cannot reach. */
module UnreachableStatesRemoving {
  import opened Automata
  import opened NfaModel
  import opened SetLiteral
  import opened TableLoading

  /** The automaton cut down to the states of `R`: the final states and the
      transition entries whose source lies outside `R` are dropped. */
  ghost function Restricted(a: Nfa, R: set<State>): Nfa
  {
    Nfa(R, a.Sigma, map k | k in a.delta && k.0 in R :: a.delta[k], a.q0, a.F * R)
  }

  /** What `remove_unreachable_states` leaves of `a`. */
  ghost function Removed(a: Nfa): Nfa
  {
    Restricted(a, ReachableSet(a))
  }

  /** On a set of reachable states, one step of the cut-down automaton is one
      step of the original, and it stays among the reachable states. */
  lemma RemovedStep(a: Nfa, S: set<State>, c: Symbol)
    requires WellFormed(a) && S <= ReachableSet(a) && c in a.Sigma
    ensures Step(Removed(a), S, c) == Step(a, S, c)
    ensures Step(a, S, c) <= ReachableSet(a)
  {
    var b := Removed(a);
    forall d | d in Step(a, S, c) ensures d in Step(b, S, c) && d in ReachableSet(a) {
      var s :| s in S && (s, c) in a.delta && d in a.delta[(s, c)];
      assert (s, c) in b.delta;
      ReachableSetClosed(a);
      assert d in Post(a, ReachableSet(a));
    }
    forall d | d in Step(b, S, c) ensures d in Step(a, S, c) {
      var s :| s in S && (s, c) in b.delta && d in b.delta[(s, c)];
    }
  }

  /** From reachable states, the cut-down automaton runs exactly like the original. */
  lemma {:induction false} RemovedRun(a: Nfa, S: set<State>, w: seq<Symbol>)
    requires WellFormed(a) && S <= ReachableSet(a) && IsWordOver(w, a.Sigma)
    ensures Run(Removed(a), S, w) == Run(a, S, w)
    ensures Run(a, S, w) <= ReachableSet(a)
    decreases |w|
  {
    if w != [] {
      RemovedStep(a, S, w[0]);
      assert IsWordOver(w[1..], a.Sigma) by {
        forall i | 0 <= i < |w[1..]| ensures w[1..][i] in a.Sigma { assert w[1..][i] == w[i + 1]; }
      }
      RemovedRun(a, Step(a, S, w[0]), w[1..]);
    }
  }

  /** The cut-down automaton is well formed, keeps the start state and the
      alphabet, and its states are declared states of the original closed
      under the original transitions. */
  lemma RemovedWellFormed(a: Nfa)
    requires WellFormed(a)
    ensures WellFormed(Removed(a))
    ensures Removed(a).q0 == a.q0 && Removed(a).Sigma == a.Sigma
    ensures Removed(a).Q <= a.Q && Closed(a, Removed(a).Q)
  {
    ReachableSetClosed(a);
    var R := ReachableSet(a);
    forall s, c | s in R && c in a.Sigma ensures (s, c) in Removed(a).delta && Removed(a).delta[(s, c)] <= R {
      forall d | d in a.delta[(s, c)] ensures d in R {
        assert d in Post(a, R);
      }
    }
  }

  /** Every state kept is reachable, and every reachable state is kept. */
  lemma RemovedKeepsExactlyReachable(a: Nfa)
    requires WellFormed(a)
    ensures forall s :: s in Removed(a).Q <==> Reachable(a, s)
    ensures forall s :: s in Removed(a).Q <==> Reachable(Removed(a), s)
  {
    ReachableSetClosed(a);
    var b := Removed(a);
    forall s | Reachable(a, s) ensures Reachable(b, s) {
      var w :| IsWordOver(w, a.Sigma) && s in Run(a, {a.q0}, w);
      RemovedRun(a, {a.q0}, w);
    }
    forall s | Reachable(b, s) ensures Reachable(a, s) {
      var w :| IsWordOver(w, b.Sigma) && s in Run(b, {b.q0}, w);
      RemovedRun(a, {a.q0}, w);
    }
  }

  /** The cut-down automaton accepts the same words as the original. */
  lemma RemovedPreservesLanguage(a: Nfa)
    requires WellFormed(a)
    ensures forall w :: IsWordOver(w, a.Sigma) ==> (Accepts(Removed(a), w) <==> Accepts(a, w))
  {
    ReachableSetClosed(a);
    forall w | IsWordOver(w, a.Sigma) ensures Accepts(Removed(a), w) <==> Accepts(a, w) {
      RemovedRun(a, {a.q0}, w);
      var run := Run(a, {a.q0}, w);
      assert run * (a.F * ReachableSet(a)) == run * a.F;
    }
  }

  /** Removing the unreachable states a second time changes nothing. */
  lemma RemovalIdempotent(a: Nfa)
    requires WellFormed(a)
    ensures Removed(Removed(a)) == Removed(a)
  {
    var b := Removed(a);
    RemovedKeepsExactlyReachable(a);
    assert ReachableSet(b) == b.Q;
    assert Removed(b).delta == b.delta;
    assert Removed(b).F == b.F;
  }

  /** The transition sets the loader makes of the table's cells, each cell
      read as a set literal. */
  function Decoded(table: map<(State, Symbol), string>): map<(State, Symbol), set<State>>
  {
    map k | k in table :: TargetSet(table[k])
  }

  /** The same reading with the cells decoded exactly as the loader's
      expression `set(cell[1:-1].split(','))` does. */
  function DecodedAsWritten(table: map<(State, Symbol), string>): map<(State, Symbol), set<State>>
  {
    map k | k in table :: Targets(table[k])
  }

  /** Decoding commutes with writing one cell. */
  lemma DecodedPut(table: map<(State, Symbol), string>, k: (State, Symbol), cell: string)
    ensures Decoded(table[k := cell]) == Decoded(table)[k := TargetSet(cell)]
  {
  }

  /** A table whose data rows all have one cell per symbol, whose first data
      row names a state and whose cells list states of data rows, loads into
      a fresh automaton as one that `remove_unreachable_states` accepts. */
  lemma LoadedWellFormed(rows: seq<seq<string>>, start: State)
    requires FullRows(Symbols(rows), DataRows(rows)) && |rows| >= 2 && |rows[1]| >= 2
    requires forall r, j :: 0 <= r < |DataRows(rows)| && 0 <= j < |CellsOf(DataRows(rows)[r])| ==>
      TargetSet(CellsOf(DataRows(rows)[r])[j]) <= States(DataRows(rows))
    ensures WellFormed(Nfa(States(DataRows(rows)), Alphabet(rows, {}),
      Decoded(Table(Symbols(rows), DataRows(rows))), Start(rows, start), Finals(DataRows(rows))))
  {
    var symbols, data := Symbols(rows), DataRows(rows);
    var a := Nfa(States(data), Alphabet(rows, {}), Decoded(Table(symbols, data)), Start(rows, start), Finals(data));
    TableKeys(symbols, data);
    StatesMembers(data);
    assert |data[0]| >= 2 && data[0][1] == a.q0;
    forall s, c | s in a.Q && c in a.Sigma ensures (s, c) in a.delta && a.delta[(s, c)] <= a.Q {
      var r :| 0 <= r < |data| && |data[r]| >= 2 && data[r][1] == s;
      var j :| 0 <= j < |symbols| && symbols[j] == c;
      assert Written(symbols, data, (s, c));
      TableValues(symbols, data, (s, c));
    }
  }

  /** A table whose only transition cell is the empty literal `{}`, loaded as
      written, sends the start state to the undeclared state `""`, so the
      search of reachable states looks up a missing entry; read as the empty
      set, the same table gives a well-formed automaton. */
  lemma EmptyCellAsWritten()
    ensures var rows := [["", "", "a"], ["-", "q0", "{}"]];
      var table := Table(Symbols(rows), DataRows(rows));
      var loaded := Nfa(States(DataRows(rows)), Alphabet(rows, {}), DecodedAsWritten(table), "q0", {});
      var intended := Nfa(States(DataRows(rows)), Alphabet(rows, {}), Decoded(table), "q0", {});
      !WellFormed(loaded) && WellFormed(intended)
  {
    var rows := [["", "", "a"], ["-", "q0", "{}"]];
    var data := DataRows(rows);
    assert Symbols(rows) == ["a"] && data == [["-", "q0", "{}"]];
    assert data[..0] == [];
    var table := Table(["a"], data);
    var row := ["-", "q0", "{}"];
    assert row[2..] == ["{}"];
    assert table == AddRow(map[], ["a"], row) == PutCells(map[], "q0", ["a"], ["{}"], 1);
    assert table == map[("q0", "a") := "{}"];
    EmptyLiteralHasPhantomState();
    assert Inner("{}") == "";
    assert States(data) == {"q0"};
    assert Alphabet(rows, {}) == {"a"};
    assert DecodedAsWritten(table)[("q0", "a")] == {""};
  }

  class NondeterministicFiniteAutomaton {
    var Q: set<State>
    var Sigma: set<Symbol>
    var delta: map<(State, Symbol), set<State>>
    var q0: State
    var F: set<State>

    /** The automaton the fields currently describe. */
    function Model(): Nfa
      reads this
    {
      Nfa(Q, Sigma, delta, q0, F)
    }

    /** An empty automaton whose start state is named `q0`. */
    constructor ()
      ensures Model() == Nfa({}, {}, map[], "q0", {})
    {
      Q := {};
      Sigma := {};
      delta := map[];
      q0 := "q0";
      F := {};
    }

    /** `load_transition_function` on the rows the CSV reader yields: as for
        the deterministic table, except that every cell is a set literal
        read as a set of states. */
    method LoadTransitionFunction(rows: seq<seq<string>>)
      requires FitsHeader(Symbols(rows), DataRows(rows))
      modifies this
      ensures Sigma == Alphabet(rows, old(Sigma))
      ensures Q == old(Q) + States(DataRows(rows))
      ensures F == old(F) + Finals(DataRows(rows))
      ensures q0 == Start(rows, old(q0))
      ensures delta == Decoded(Table(Symbols(rows), DataRows(rows)))
    {
      ghost var init := Loading([], Sigma, Q, F, q0, map[]);
      ghost var cells: map<(State, Symbol), string> := map[];
      var transitionFunction := map[];
      var symbols := [];
      for rowCount := 0 to |rows|
        invariant Loading(symbols, Sigma, Q, F, q0, cells) == ReadRows(rows, rowCount, init)
        invariant transitionFunction == Decoded(cells)
        invariant rowCount >= 1 ==> symbols == Symbols(rows)
      {
        var row := rows[rowCount];
        if rowCount == 0 {
          symbols := CellsOf(row);
          Sigma := set c | c in symbols;
        } else {
          assert row in DataRows(rows);
          transitionFunction := LoadRow(row, rowCount, symbols, transitionFunction, cells);
          cells := AddRow(cells, symbols, row);
        }
      }
      ReadAllRows(rows, init);
      delta := transitionFunction;
    }

    /** One data row of `load_transition_function`: the marker, the state,
        then one set of targets per cell. */
    method LoadRow(row: seq<string>, rowCount: nat, symbols: seq<Symbol>,
                   before: map<(State, Symbol), set<State>>, ghost cells: map<(State, Symbol), string>)
      returns (after: map<(State, Symbol), set<State>>)
      requires 1 <= rowCount && |row| <= |symbols| + 2 && before == Decoded(cells)
      modifies this
      ensures Sigma == old(Sigma) && delta == old(delta)
      ensures Q == old(Q) + NameOf(row)
      ensures F == old(F) + FinalNameOf(row)
      ensures q0 == (if rowCount == 1 && |row| >= 2 then row[1] else old(q0))
      ensures after == Decoded(AddRow(cells, symbols, row))
    {
      after := before;
      var isFinal := false;
      var state := "";
      for i := 0 to |row|
        invariant Sigma == old(Sigma) && delta == old(delta)
        invariant isFinal == (i >= 1 && row[0] == "+")
        invariant i >= 2 ==> state == row[1]
        invariant Q == old(Q) + (if i >= 2 then {row[1]} else {})
        invariant F == old(F) + (if i >= 2 && row[0] == "+" then {row[1]} else {})
        invariant q0 == (if rowCount == 1 && i >= 2 then row[1] else old(q0))
        invariant after == Decoded(if i >= 2 then PutCells(cells, row[1], symbols, row[2..], i - 2) else cells)
      {
        if i == 0 {
          if row[i] == "+" {
            isFinal := true;
          }
        } else if i == 1 {
          state := row[i];
          if isFinal {
            F := F + {state};
          }
          Q := Q + {state};
          if rowCount == 1 {
            q0 := state;
          }
        } else {
          DecodedPut(PutCells(cells, row[1], symbols, row[2..], i - 2), (state, symbols[i - 2]), row[i]);
          after := after[(state, symbols[i - 2]) := TargetSet(row[i])];
        }
      }
    }

    /** The loop of `remove_unreachable_states`: starting from `{q0}`, move
        the newly reached states into the result and collect their successors
        not yet in it, until no new state turns up. */
    method ReachableStates() returns (newQ: set<State>)
      requires WellFormed(Model())
      ensures newQ <= Q
      ensures forall s :: s in newQ <==> Reachable(Model(), s)
    {
      ghost var a := Model();
      newQ := {};
      var newReachable := {q0};
      ReachableStart(a);
      while newReachable != {}
        invariant newQ + newReachable <= a.Q && newQ !! newReachable
        invariant a.q0 in newQ + newReachable
        invariant forall s :: s in newQ + newReachable ==> Reachable(a, s)
        invariant Post(a, newQ) <= newQ + newReachable
        decreases a.Q - newQ
      {
        ghost var before := newQ;
        newQ := newQ + newReachable;
        var added := newReachable;
        newReachable := NewSuccessors(added, newQ);
        PostUnion(a, before, added);
        forall d | d in newReachable ensures d in a.Q && Reachable(a, d) {
          var s, c :| s in added && c in a.Sigma && (s, c) in a.delta && d in a.delta[(s, c)];
          ReachableStep(a, s, c, d);
        }
        var x :| x in added;
        assert x in a.Q - before && x !in a.Q - newQ;
      }
      ClosedContainsReachable(a, newQ);
    }

    /** The nested `for` loops of one round: the successors of the states of
        `added`, on every symbol, that are not yet in `newQ`. */
    method NewSuccessors(added: set<State>, newQ: set<State>) returns (next: set<State>)
      requires WellFormed(Model()) && added <= Q
      ensures next == Post(Model(), added) - newQ
    {
      ghost var a := Model();
      next := {};
      var restStates := added;
      ghost var doneStates: set<State> := {};
      while restStates != {}
        invariant doneStates + restStates == added && doneStates !! restStates
        invariant next == Post(a, doneStates) - newQ
        decreases restStates
      {
        var state :| state in restStates;
        ghost var base := next;
        var restSymbols := Sigma;
        ghost var doneSymbols: set<Symbol> := {};
        while restSymbols != {}
          invariant doneSymbols + restSymbols == a.Sigma && doneSymbols !! restSymbols
          invariant next == base + (PostOn(a, {state}, doneSymbols) - newQ)
          decreases restSymbols
        {
          var c :| c in restSymbols;
          var targets := delta[(state, c)];
          ghost var inner := next;
          while targets != {}
            invariant next == inner + ((a.delta[(state, c)] - targets) - newQ)
            invariant targets <= a.delta[(state, c)]
            decreases targets
          {
            var q :| q in targets;
            if q !in newQ {
              next := next + {q};
            }
            targets := targets - {q};
          }
          PostOnAddSymbol(a, state, doneSymbols, c);
          doneSymbols, restSymbols := doneSymbols + {c}, restSymbols - {c};
        }
        PostAddState(a, doneStates, state);
        doneStates, restStates := doneStates + {state}, restStates - {state};
      }
    }

    /** `remove_unreachable_states`: keep only the reachable states, the final
        states among them, and the transition entries leaving them. */
    method RemoveUnreachableStates()
      requires WellFormed(Model())
      modifies this
      ensures Model() == Removed(old(Model()))
    {
      var a := Model();
      var newQ := ReachableStates();
      assert newQ == ReachableSet(a);
      Q := newQ;

      var newF := {};
      var rest := F;
      ghost var done: set<State> := {};
      while rest != {}
        invariant done + rest == a.F && done !! rest
        invariant newF == done * newQ
        decreases rest
      {
        var q :| q in rest;
        if q in newQ {
          newF := newF + {q};
        }
        done, rest := done + {q}, rest - {q};
      }
      F := newF;

      var newDelta := map[];
      var keys := a.delta.Keys;
      ghost var doneKeys: set<(State, Symbol)> := {};
      while keys != {}
        invariant doneKeys + keys == a.delta.Keys && doneKeys !! keys
        invariant newDelta == map k | k in doneKeys && k.0 in newQ :: a.delta[k]
        decreases keys
      {
        var k :| k in keys;
        if k.0 in newQ {
          newDelta := newDelta[k := a.delta[k]];
        }
        doneKeys, keys := doneKeys + {k}, keys - {k};
      }
      delta := newDelta;
    }
  }
}
