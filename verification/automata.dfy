/** Vocabulary shared by both automaton transformations: the table format
    names states and input symbols by opaque text tokens. */
module Automata {

  /** A state identifier, as written in the state column of the table. */
  type State = string

  /** An input symbol, as written in a header column of the table. */
  type Symbol = string

  /** `w` is a word over the alphabet `sigma`. */
  predicate IsWordOver(w: seq<Symbol>, sigma: set<Symbol>)
  {
    forall i :: 0 <= i < |w| ==> w[i] in sigma
  }
}
