/** The deterministic automaton `(Q, Sigma, delta, q0, F)` that the
    minimization works on, and its language semantics. */
module DfaModel {
  import opened Automata

  /** A deterministic automaton; `delta` maps (state, symbol) to a state. */
  datatype Dfa = Dfa(
    Q: set<State>,
    Sigma: set<Symbol>,
    delta: map<(State, Symbol), State>,
    q0: State,
    F: set<State>)

  /** Every state has a successor in `Q` on every symbol of the alphabet. */
  ghost predicate Total(a: Dfa)
  {
    forall s, c :: s in a.Q && c in a.Sigma ==> (s, c) in a.delta && a.delta[(s, c)] in a.Q
  }

  /** What the table loader guarantees and the minimization needs: a total
      transition function and final states that are declared states. */
  ghost predicate WellFormed(a: Dfa)
  {
    Total(a) && a.F <= a.Q
  }

  /** One transition. On a well-formed automaton the lookup always succeeds
      for a state of `Q` and a symbol of `Sigma`; the fall-back (stay put)
      only makes the function total and is never used there. */
  function Step(a: Dfa, s: State, c: Symbol): State
  {
    if (s, c) in a.delta then a.delta[(s, c)] else s
  }

  /** The extended transition function: follow `w` symbol by symbol from `s`. */
  function Star(a: Dfa, s: State, w: seq<Symbol>): State
    decreases |w|
  {
    if w == [] then s else Star(a, Step(a, s, w[0]), w[1..])
  }

  /** `w` is accepted from the start state. */
  ghost predicate Accepts(a: Dfa, w: seq<Symbol>)
  {
    Star(a, a.q0, w) in a.F
  }

  /** No word of length at most `m` separates `s` and `t` by acceptance. */
  ghost predicate EquivUpTo(a: Dfa, s: State, t: State, m: nat)
  {
    forall w :: IsWordOver(w, a.Sigma) && |w| <= m ==> (Star(a, s, w) in a.F <==> Star(a, t, w) in a.F)
  }

  /** No word at all separates `s` and `t` (Myhill-Nerode equivalence). */
  ghost predicate Indistinguishable(a: Dfa, s: State, t: State)
  {
    forall w :: IsWordOver(w, a.Sigma) ==> (Star(a, s, w) in a.F <==> Star(a, t, w) in a.F)
  }

  /** Following `u` and then `v` is following `u + v`. */
  lemma {:induction false} StarAppend(a: Dfa, s: State, u: seq<Symbol>, v: seq<Symbol>)
    ensures Star(a, s, u + v) == Star(a, Star(a, s, u), v)
    decreases |u|
  {
    if u != [] {
      assert (u + v)[0] == u[0];
      assert (u + v)[1..] == u[1..] + v;
      StarAppend(a, Step(a, s, u[0]), u[1..], v);
    } else {
      assert u + v == v;
    }
  }

  /** Following one more symbol is one more step (the source's walk along a chain). */
  lemma StarSnoc(a: Dfa, s: State, u: seq<Symbol>, c: Symbol)
    ensures Star(a, s, u + [c]) == Step(a, Star(a, s, u), c)
  {
    StarAppend(a, s, u, [c]);
  }

  /** From a declared state, a word over the alphabet never leaves `Q`. */
  lemma {:induction false} StarInQ(a: Dfa, s: State, w: seq<Symbol>)
    requires Total(a) && s in a.Q && IsWordOver(w, a.Sigma)
    ensures Star(a, s, w) in a.Q
    decreases |w|
  {
    if w != [] {
      assert IsWordOver(w[1..], a.Sigma) by {
        forall i | 0 <= i < |w[1..]| ensures w[1..][i] in a.Sigma { assert w[1..][i] == w[i + 1]; }
      }
      StarInQ(a, Step(a, s, w[0]), w[1..]);
    }
  }

  /** Agreement on words up to length `m + k`, for `k <= m + 1`, is agreement
      up to length `m` of the two states and of every pair of states reached
      by a common word of length exactly `k`. */
  lemma ExtendEquiv(a: Dfa, s: State, t: State, m: nat, k: nat)
    requires k <= m + 1
    ensures EquivUpTo(a, s, t, m + k) <==>
      (EquivUpTo(a, s, t, m) &&
       forall w :: IsWordOver(w, a.Sigma) && |w| == k ==> EquivUpTo(a, Star(a, s, w), Star(a, t, w), m))
  {
    if EquivUpTo(a, s, t, m + k) {
      forall w | IsWordOver(w, a.Sigma) && |w| == k
        ensures EquivUpTo(a, Star(a, s, w), Star(a, t, w), m)
      {
        forall u | IsWordOver(u, a.Sigma) && |u| <= m
          ensures Star(a, Star(a, s, w), u) in a.F <==> Star(a, Star(a, t, w), u) in a.F
        {
          StarAppend(a, s, w, u);
          StarAppend(a, t, w, u);
          assert IsWordOver(w + u, a.Sigma) by {
            forall i | 0 <= i < |w + u| ensures (w + u)[i] in a.Sigma {
              if i < |w| { assert (w + u)[i] == w[i]; } else { assert (w + u)[i] == u[i - |w|]; }
            }
          }
        }
      }
    }
    if EquivUpTo(a, s, t, m) &&
       forall w :: IsWordOver(w, a.Sigma) && |w| == k ==> EquivUpTo(a, Star(a, s, w), Star(a, t, w), m)
    {
      forall v | IsWordOver(v, a.Sigma) && |v| <= m + k
        ensures Star(a, s, v) in a.F <==> Star(a, t, v) in a.F
      {
        if |v| > m {
          var w, u := v[..k], v[k..];
          assert v == w + u;
          assert IsWordOver(w, a.Sigma) by {
            forall i | 0 <= i < |w| ensures w[i] in a.Sigma { assert w[i] == v[i]; }
          }
          assert IsWordOver(u, a.Sigma) by {
            forall i | 0 <= i < |u| ensures u[i] in a.Sigma { assert u[i] == v[k + i]; }
          }
          assert EquivUpTo(a, Star(a, s, w), Star(a, t, w), m);
          StarAppend(a, s, w, u);
          StarAppend(a, t, w, u);
        }
      }
    }
  }

  /** If agreement up to length `m` already implies agreement up to `m + 1`
      on all declared states, it implies agreement up to any length. */
  lemma {:induction false} StableEquivExtends(a: Dfa, m: nat, n: nat)
    requires Total(a)
    requires forall s, t :: s in a.Q && t in a.Q && EquivUpTo(a, s, t, m) ==> EquivUpTo(a, s, t, m + 1)
    ensures forall s, t :: s in a.Q && t in a.Q && EquivUpTo(a, s, t, m) ==> EquivUpTo(a, s, t, n)
    decreases n
  {
    if n > m {
      StableEquivExtends(a, m, n - 1);
      forall s, t | s in a.Q && t in a.Q && EquivUpTo(a, s, t, m)
        ensures EquivUpTo(a, s, t, n)
      {
        ExtendEquiv(a, s, t, m, 1);
        forall w | IsWordOver(w, a.Sigma) && |w| == 1
          ensures EquivUpTo(a, Star(a, s, w), Star(a, t, w), n - 1)
        {
          assert w == [w[0]];
          assert Star(a, s, w) == Step(a, s, w[0]) by { assert w[1..] == []; }
          assert Star(a, t, w) == Step(a, t, w[0]) by { assert w[1..] == []; }
          assert EquivUpTo(a, Star(a, s, w), Star(a, t, w), m);
        }
        ExtendEquiv(a, s, t, n - 1, 1);
      }
    }
  }

  /** The same, stated for all words: the stable agreement is Myhill-Nerode
      equivalence on declared states. */
  lemma StableEquivIsIndistinguishable(a: Dfa, m: nat)
    requires Total(a)
    requires forall s, t :: s in a.Q && t in a.Q && EquivUpTo(a, s, t, m) ==> EquivUpTo(a, s, t, m + 1)
    ensures forall s, t :: s in a.Q && t in a.Q ==> (EquivUpTo(a, s, t, m) <==> Indistinguishable(a, s, t))
  {
    forall s, t | s in a.Q && t in a.Q && EquivUpTo(a, s, t, m)
      ensures Indistinguishable(a, s, t)
    {
      forall w | IsWordOver(w, a.Sigma)
        ensures Star(a, s, w) in a.F <==> Star(a, t, w) in a.F
      {
        StableEquivExtends(a, m, |w|);
      }
    }
  }

  /** Indistinguishable states move to indistinguishable states on every symbol. */
  lemma IndistinguishableStep(a: Dfa, s: State, t: State, c: Symbol)
    requires c in a.Sigma && Indistinguishable(a, s, t)
    ensures Indistinguishable(a, Step(a, s, c), Step(a, t, c))
  {
    forall w | IsWordOver(w, a.Sigma)
      ensures Star(a, Step(a, s, c), w) in a.F <==> Star(a, Step(a, t, c), w) in a.F
    {
      assert ([c] + w)[0] == c && ([c] + w)[1..] == w;
      assert IsWordOver([c] + w, a.Sigma) by {
        forall i | 0 <= i < |[c] + w| ensures ([c] + w)[i] in a.Sigma {
          if i > 0 { assert ([c] + w)[i] == w[i - 1]; }
        }
      }
      assert Star(a, s, [c] + w) in a.F <==> Star(a, t, [c] + w) in a.F;
    }
  }

  /** Indistinguishable states agree on acceptance (the empty word). */
  lemma IndistinguishableFinal(a: Dfa, s: State, t: State)
    requires Indistinguishable(a, s, t)
    ensures s in a.F <==> t in a.F
  {
    assert IsWordOver([], a.Sigma);
    assert Star(a, s, []) == s && Star(a, t, []) == t;
  }
}
