/** The automaton that `minimize` builds from the equivalence classes: one
    state `q<i>` per class, the class of the start state first, and the
    transitions and final states read off a representative of each class. */
module Quotient {
  import opened Automata
  import opened DfaModel
  import opened Partitions
  import opened StateNames

  /** `P` lists the Myhill-Nerode classes of the declared states of `a`:
      a partition into non-empty blocks in which two states share a block
      exactly when no word separates them. */
  ghost predicate IsEquivalencePartition(a: Dfa, P: seq<set<State>>)
  {
    IsPartition(P, a.Q) && NoEmptyBlock(P) &&
    forall s, t :: s in a.Q && t in a.Q ==> (Together(P, s, t) <==> Indistinguishable(a, s, t))
  }

  /** Equivalent states step into a common block on every symbol. */
  ghost predicate Congruent(a: Dfa, P: seq<set<State>>)
  {
    forall r, r', c :: r in a.Q && r' in a.Q && c in a.Sigma && BlockOf(P, r) == BlockOf(P, r') ==>
      BlockOf(P, Step(a, r, c)) == BlockOf(P, Step(a, r', c))
  }

  /** `b` is the automaton `minimize` builds from `a` and the ordered classes `P`. */
  ghost predicate IsQuotient(a: Dfa, P: seq<set<State>>, b: Dfa)
  {
    b.Sigma == a.Sigma && b.q0 == Name(0) && b.Q == NamesBelow(|P|) &&
    TransitionsFromClasses(a, P, b.delta) && FinalsFromClasses(a, P, b.F) &&
    (a.q0 in a.Q ==> |P| > 0 && a.q0 in P[0])
  }

  /** `d` has an entry `(q<i>, c)` for every class `i` and symbol `c` and no
      other, naming the class that any state of class `i` moves to on `c`. */
  ghost predicate TransitionsFromClasses(a: Dfa, P: seq<set<State>>, d: map<(State, Symbol), State>)
  {
    (forall i, c :: 0 <= i < |P| && c in a.Sigma ==> (Name(i), c) in d) &&
    (forall key :: key in d ==> key.0 in NamesBelow(|P|) && key.1 in a.Sigma) &&
    (forall i, r, c :: 0 <= i < |P| && r in P[i] && c in a.Sigma && (Name(i), c) in d ==>
      d[(Name(i), c)] == Name(BlockOf(P, Step(a, r, c))))
  }

  /** `f` holds the names of exactly the classes that meet the final states. */
  ghost predicate FinalsFromClasses(a: Dfa, P: seq<set<State>>, f: set<State>)
  {
    (forall i :: 0 <= i < |P| ==> (Name(i) in f <==> P[i] * a.F != {})) && f <= NamesBelow(|P|)
  }

  /** Every class lies inside `F` or outside it. */
  lemma ClassesRespectFinal(a: Dfa, P: seq<set<State>>, i: nat)
    requires IsEquivalencePartition(a, P) && i < |P|
    ensures P[i] <= a.F || P[i] * a.F == {}
  {
    if P[i] * a.F != {} {
      var s :| s in P[i] * a.F;
      forall t | t in P[i] ensures t in a.F {
        assert Together(P, s, t);
        IndistinguishableFinal(a, s, t);
      }
    }
  }

  /** The Myhill-Nerode classes are compatible with the transitions. */
  lemma EquivalenceIsCongruent(a: Dfa, P: seq<set<State>>)
    requires WellFormed(a) && IsEquivalencePartition(a, P)
    ensures Congruent(a, P)
  {
    forall r, r', c | r in a.Q && r' in a.Q && c in a.Sigma && BlockOf(P, r) == BlockOf(P, r')
      ensures BlockOf(P, Step(a, r, c)) == BlockOf(P, Step(a, r', c))
    {
      TogetherIffSameBlock(P, a.Q, r, r');
      IndistinguishableStep(a, r, r', c);
      TogetherIffSameBlock(P, a.Q, Step(a, r, c), Step(a, r', c));
    }
  }

  /** The built automaton is well formed, and its start state is declared
      whenever the original one was. */
  lemma QuotientWellFormed(a: Dfa, P: seq<set<State>>, b: Dfa)
    requires WellFormed(a) && IsEquivalencePartition(a, P) && IsQuotient(a, P, b)
    ensures WellFormed(b)
    ensures a.q0 in a.Q ==> b.q0 in b.Q
  {
    forall p, c | p in b.Q && c in b.Sigma ensures (p, c) in b.delta && b.delta[(p, c)] in b.Q {
      var i :| 0 <= i < |P| && Name(i) == p;
      NoEmptyAt(P, i);
      var r :| r in P[i];
      var j := BlockOf(P, Step(a, r, c));
      assert j < |P|;
      NamesBelowMember(|P|, j);
    }
  }

  /** One transition of the built automaton follows the class of a state. */
  lemma QuotientStep(a: Dfa, P: seq<set<State>>, b: Dfa, s: State, c: Symbol)
    requires WellFormed(a) && IsEquivalencePartition(a, P) && IsQuotient(a, P, b)
    requires s in a.Q && c in a.Sigma
    ensures Step(b, Name(BlockOf(P, s)), c) == Name(BlockOf(P, Step(a, s, c)))
  {
    var i := BlockOf(P, s);
    assert (Name(i), c) in b.delta;
  }

  /** Running a word in the built automaton from the class of `s` ends in the
      class of the state the original automaton reaches from `s`. */
  lemma {:induction false} QuotientStar(a: Dfa, P: seq<set<State>>, b: Dfa, s: State, w: seq<Symbol>)
    requires WellFormed(a) && IsEquivalencePartition(a, P) && IsQuotient(a, P, b)
    requires s in a.Q && IsWordOver(w, a.Sigma)
    ensures Star(b, Name(BlockOf(P, s)), w) == Name(BlockOf(P, Star(a, s, w)))
    decreases |w|
  {
    if w != [] {
      QuotientStep(a, P, b, s, w[0]);
      assert IsWordOver(w[1..], a.Sigma) by {
        forall i | 0 <= i < |w[1..]| ensures w[1..][i] in a.Sigma { assert w[1..][i] == w[i + 1]; }
      }
      QuotientStar(a, P, b, Step(a, s, w[0]), w[1..]);
    }
  }

  /** The class of a state is final in the built automaton exactly when the state is final. */
  lemma QuotientFinal(a: Dfa, P: seq<set<State>>, b: Dfa, s: State)
    requires IsEquivalencePartition(a, P) && IsQuotient(a, P, b) && s in a.Q
    ensures Name(BlockOf(P, s)) in b.F <==> s in a.F
  {
    var i := BlockOf(P, s);
    assert i < |P| && s in P[i];
    ClassesRespectFinal(a, P, i);
    if s in a.F { assert s in P[i] * a.F; }
  }

  /** The built automaton accepts the same words as the original one. */
  lemma QuotientPreservesLanguage(a: Dfa, P: seq<set<State>>, b: Dfa)
    requires WellFormed(a) && IsEquivalencePartition(a, P) && IsQuotient(a, P, b) && a.q0 in a.Q
    ensures forall w :: IsWordOver(w, a.Sigma) ==> (Accepts(b, w) <==> Accepts(a, w))
  {
    forall w | IsWordOver(w, a.Sigma) ensures Accepts(b, w) <==> Accepts(a, w) {
      BlockOfIndex(P, a.q0, 0);
      QuotientStar(a, P, b, a.q0, w);
      StarInQ(a, a.q0, w);
      QuotientFinal(a, P, b, Star(a, a.q0, w));
    }
  }

  /** No two distinct states of the built automaton are indistinguishable. */
  lemma QuotientIsReduced(a: Dfa, P: seq<set<State>>, b: Dfa)
    requires WellFormed(a) && IsEquivalencePartition(a, P) && IsQuotient(a, P, b)
    ensures forall p, q :: p in b.Q && q in b.Q && Indistinguishable(b, p, q) ==> p == q
  {
    forall p, q | p in b.Q && q in b.Q && Indistinguishable(b, p, q) ensures p == q {
      var i :| 0 <= i < |P| && Name(i) == p;
      var j :| 0 <= j < |P| && Name(j) == q;
      NoEmptyAt(P, i);
      NoEmptyAt(P, j);
      var r :| r in P[i];
      var r' :| r' in P[j];
      BlockOfIndex(P, r, i);
      BlockOfIndex(P, r', j);
      forall w | IsWordOver(w, a.Sigma) ensures Star(a, r, w) in a.F <==> Star(a, r', w) in a.F {
        QuotientStar(a, P, b, r, w);
        QuotientStar(a, P, b, r', w);
        StarInQ(a, r, w);
        StarInQ(a, r', w);
        QuotientFinal(a, P, b, Star(a, r, w));
        QuotientFinal(a, P, b, Star(a, r', w));
      }
      assert Indistinguishable(a, r, r');
      TogetherIffSameBlock(P, a.Q, r, r');
    }
  }

  /** The quotient by the indistinguishability classes is a well-formed
      automaton whose start state is declared, that accepts the words the
      original accepts, and whose distinct states are distinguishable. */
  lemma QuotientIsReducedAndEquivalent(a: Dfa, P: seq<set<State>>, b: Dfa)
    requires WellFormed(a) && IsEquivalencePartition(a, P) && IsQuotient(a, P, b)
    ensures WellFormed(b)
    ensures a.q0 in a.Q ==> b.q0 in b.Q
    ensures a.q0 in a.Q ==> forall w :: IsWordOver(w, b.Sigma) ==> (Accepts(b, w) <==> Accepts(a, w))
    ensures forall p, q :: p in b.Q && q in b.Q && Indistinguishable(b, p, q) ==> p == q
  {
    QuotientWellFormed(a, P, b);
    if a.q0 in a.Q {
      QuotientPreservesLanguage(a, P, b);
    }
    QuotientIsReduced(a, P, b);
  }
}
