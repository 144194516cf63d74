/** The nondeterministic automaton `(Q, Sigma, delta, q0, F)` of
    `unreachable_states_removing.py`, its runs and the states reachable
    from the start state. */
module NfaModel {
  import opened Automata

  /** A nondeterministic automaton; `delta` maps (state, symbol) to a set of states. */
  datatype Nfa = Nfa(
    Q: set<State>,
    Sigma: set<Symbol>,
    delta: map<(State, Symbol), set<State>>,
    q0: State,
    F: set<State>)

  /** The start state is declared, and every declared state has an entry for
      every symbol whose targets are declared states: what the search of
      reachable states needs to look up `delta[(state, c)]` without failing. */
  ghost predicate WellFormed(a: Nfa)
  {
    a.q0 in a.Q &&
    forall s, c :: s in a.Q && c in a.Sigma ==> (s, c) in a.delta && a.delta[(s, c)] <= a.Q
  }

  /** The states reachable from some state of `S` on the symbol `c`. */
  ghost function Step(a: Nfa, S: set<State>, c: Symbol): set<State>
  {
    set s, d | s in S && (s, c) in a.delta && d in a.delta[(s, c)] :: d
  }

  /** The states reachable from some state of `S` along the word `w`. */
  ghost function Run(a: Nfa, S: set<State>, w: seq<Symbol>): set<State>
    decreases |w|
  {
    if w == [] then S else Run(a, Step(a, S, w[0]), w[1..])
  }

  /** Some run on `w` from the start state ends in a final state. */
  ghost predicate Accepts(a: Nfa, w: seq<Symbol>)
  {
    Run(a, {a.q0}, w) * a.F != {}
  }

  /** Some word over the alphabet leads from the start state to `s`. */
  ghost predicate Reachable(a: Nfa, s: State)
  {
    exists w :: IsWordOver(w, a.Sigma) && s in Run(a, {a.q0}, w)
  }

  /** The declared states reachable from the start state. */
  ghost function ReachableSet(a: Nfa): set<State>
  {
    set s | s in a.Q && Reachable(a, s)
  }

  /** The successors of the states of `S` on the symbols of `C`. */
  ghost function PostOn(a: Nfa, S: set<State>, C: set<Symbol>): set<State>
  {
    set s, c, d | s in S && c in C && (s, c) in a.delta && d in a.delta[(s, c)] :: d
  }

  /** The successors of the states of `S` on every symbol of the alphabet. */
  ghost function Post(a: Nfa, S: set<State>): set<State>
  {
    PostOn(a, S, a.Sigma)
  }

  /** `S` holds every successor of its own states. */
  ghost predicate Closed(a: Nfa, S: set<State>)
  {
    Post(a, S) <= S
  }

  /** Adding one symbol adds that symbol's targets. */
  lemma PostOnAddSymbol(a: Nfa, s: State, C: set<Symbol>, c: Symbol)
    requires (s, c) in a.delta
    ensures PostOn(a, {s}, C + {c}) == PostOn(a, {s}, C) + a.delta[(s, c)]
  {
    forall d | d in a.delta[(s, c)] ensures d in PostOn(a, {s}, C + {c}) {
      assert s in {s} && c in C + {c};
    }
  }

  /** Adding one state adds that state's successors. */
  lemma PostAddState(a: Nfa, S: set<State>, s: State)
    ensures Post(a, S + {s}) == Post(a, S) + PostOn(a, {s}, a.Sigma)
  {
    forall d | d in Post(a, S + {s}) ensures d in Post(a, S) + PostOn(a, {s}, a.Sigma) {
      var s', c :| s' in S + {s} && c in a.Sigma && (s', c) in a.delta && d in a.delta[(s', c)];
      if s' == s { assert s in {s}; } else { assert s' in S; }
    }
    forall d | d in PostOn(a, {s}, a.Sigma) ensures d in Post(a, S + {s}) {
      var s', c :| s' in {s} && c in a.Sigma && (s', c) in a.delta && d in a.delta[(s', c)];
      assert s' in S + {s};
    }
  }

  /** The successors of a union are the union of the successors. */
  lemma PostUnion(a: Nfa, S: set<State>, T: set<State>)
    ensures Post(a, S + T) == Post(a, S) + Post(a, T)
  {
    forall d | d in Post(a, S + T) ensures d in Post(a, S) + Post(a, T) {
      var s, c :| s in S + T && c in a.Sigma && (s, c) in a.delta && d in a.delta[(s, c)];
      if s in S { assert d in Post(a, S); } else { assert d in Post(a, T); }
    }
    forall d | d in Post(a, S) ensures d in Post(a, S + T) {
      var s, c :| s in S && c in a.Sigma && (s, c) in a.delta && d in a.delta[(s, c)];
      assert s in S + T;
    }
    forall d | d in Post(a, T) ensures d in Post(a, S + T) {
      var s, c :| s in T && c in a.Sigma && (s, c) in a.delta && d in a.delta[(s, c)];
      assert s in S + T;
    }
  }

  /** Following `w` and then `c` is one more step after following `w`. */
  lemma {:induction false} RunSnoc(a: Nfa, S: set<State>, w: seq<Symbol>, c: Symbol)
    ensures Run(a, S, w + [c]) == Step(a, Run(a, S, w), c)
    decreases |w|
  {
    if w == [] {
      assert ([] + [c])[1..] == [];
    } else {
      assert (w + [c])[0] == w[0] && (w + [c])[1..] == w[1..] + [c];
      RunSnoc(a, Step(a, S, w[0]), w[1..], c);
    }
  }

  /** A run from a closed set that contains the starting states never leaves it. */
  lemma {:induction false} RunInClosed(a: Nfa, S: set<State>, T: set<State>, w: seq<Symbol>)
    requires T <= S && Closed(a, S) && IsWordOver(w, a.Sigma)
    ensures Run(a, T, w) <= S
    decreases |w|
  {
    if w != [] {
      forall d | d in Step(a, T, w[0]) ensures d in S {
        var s :| s in T && (s, w[0]) in a.delta && d in a.delta[(s, w[0])];
        assert d in Post(a, S);
      }
      assert IsWordOver(w[1..], a.Sigma) by {
        forall i | 0 <= i < |w[1..]| ensures w[1..][i] in a.Sigma { assert w[1..][i] == w[i + 1]; }
      }
      RunInClosed(a, S, Step(a, T, w[0]), w[1..]);
    }
  }

  /** The start state is reachable (by the empty word). */
  lemma ReachableStart(a: Nfa)
    ensures Reachable(a, a.q0)
  {
    assert IsWordOver([], a.Sigma) && a.q0 in Run(a, {a.q0}, []);
  }

  /** A successor of a reachable state is reachable. */
  lemma ReachableStep(a: Nfa, s: State, c: Symbol, d: State)
    requires Reachable(a, s) && c in a.Sigma && (s, c) in a.delta && d in a.delta[(s, c)]
    ensures Reachable(a, d)
  {
    var w :| IsWordOver(w, a.Sigma) && s in Run(a, {a.q0}, w);
    RunSnoc(a, {a.q0}, w, c);
    assert d in Run(a, {a.q0}, w + [c]);
    assert IsWordOver(w + [c], a.Sigma) by {
      forall i | 0 <= i < |w + [c]| ensures (w + [c])[i] in a.Sigma {
        if i < |w| { assert (w + [c])[i] == w[i]; }
      }
    }
  }

  /** A closed set holding the start state holds every reachable state. */
  lemma ClosedContainsReachable(a: Nfa, S: set<State>)
    requires a.q0 in S && Closed(a, S)
    ensures forall s :: Reachable(a, s) ==> s in S
  {
    forall s | Reachable(a, s) ensures s in S {
      var w :| IsWordOver(w, a.Sigma) && s in Run(a, {a.q0}, w);
      RunInClosed(a, S, {a.q0}, w);
    }
  }

  /** On a well-formed automaton every reachable state is declared, and the
      reachable states form a closed set holding the start state. */
  lemma ReachableSetClosed(a: Nfa)
    requires WellFormed(a)
    ensures a.q0 in ReachableSet(a)
    ensures Closed(a, ReachableSet(a))
    ensures forall s :: Reachable(a, s) ==> s in a.Q
  {
    ReachableStart(a);
    assert Closed(a, a.Q) by {
      forall d | d in Post(a, a.Q) ensures d in a.Q {
        var s, c :| s in a.Q && c in a.Sigma && (s, c) in a.delta && d in a.delta[(s, c)];
      }
    }
    ClosedContainsReachable(a, a.Q);
    forall d | d in Post(a, ReachableSet(a)) ensures d in ReachableSet(a) {
      var s, c :| s in ReachableSet(a) && c in a.Sigma && (s, c) in a.delta && d in a.delta[(s, c)];
      ReachableStep(a, s, c, d);
    }
  }
}
