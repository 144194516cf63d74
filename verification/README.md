# Minimizing a DFA and pruning an NFA, modelled in Dafny

This project models the two automaton transformations of the TAFL extra
tasks. Both work on an automaton `(Q, Sigma, delta, q0, F)` that lives in
the fields of a Python object.

* **`FiniteAutomaton` (`DFA_minimization.py`).**
  * `load_transition_function` reads a semicolon-separated transition table.
  * `__find_equivalence_classes` refines the partition `[F, Q \ F]`. Each round splits every block by the "signature" of its states: the blocks reached along all chains of length 1, 2, .... It stops when a round changes nothing.
  * `minimize` moves the block of the start state to the front. It then replaces the fields by the automaton over the blocks, naming block `i` `q<i>`.
* **`NondeterministicFiniteAutomaton` (`unreachable_states_removing.py`).**
  * `load_transition_function` reads a table whose cells are set literals `{p,q}`.
  * `remove_unreachable_states` searches breadth-first from `q0` through the frontier. It then cuts `Q`, `F` and `delta` down to the states it reached.

Both classes are Dafny classes with the same five fields. Their methods change those fields under `modifies this`, and their loops carry invariants. Each method is proved against a specification function of the module:

* the loaders against `TableLoading.ReadRows`, which reads the rows one at a time, and against `TableLoading.Expected`, which says what the whole table means;
* a refinement round against `Refinement.Signature`;
* `minimize` against `Quotient.IsQuotient`;
* the pruning against `UnreachableStatesRemoving.Removed`.

The properties the programs promise are lemmas about those functions:

* the classes are exactly the Myhill-Nerode classes;
* the quotient accepts the same words as the original and has no two indistinguishable states;
* the pruning keeps exactly the reachable states and the language, and doing it twice changes nothing;
* the loaded tables give automata that both algorithms accept.

Modules:

| file | module | content |
|---|---|---|
| automata.dfy | Automata | states and symbols as text, words over an alphabet |
| state_names.dfy | StateNames | `str(i)`, the names `q<i>`, the textual signature of the source |
| dfa_model.dfy | DfaModel | the DFA value, runs, acceptance, bounded and full indistinguishability |
| partitions.dfy | Partitions | partitions as sequences of blocks, the block search, swapping two blocks |
| refinement.dfy | Refinement | chains, signatures, splitting a block, one round of refinement |
| quotient.dfy | Quotient | the automaton over the classes, and its language and reducedness |
| dfa_minimization.dfy | DfaMinimization | class `FiniteAutomaton` |
| nfa_model.dfy | NfaModel | the NFA value, runs, reachability, closed sets |
| set_literal.dfy | SetLiteral | `{a,b}` cells: `split(',')`, `join`, how the loader reads them |
| table_loading.dfy | TableLoading | rows of the table read into symbols, states, start, finals and cells |
| unreachable_states_removing.dfy | UnreachableStatesRemoving | class `NondeterministicFiniteAutomaton` |

## Model

| member | source | states |
|---|---|---|
| DfaMinimization.FiniteAutomaton.constructor | DFA_minimization.py:18-28 | a new automaton has no states, no symbols, no transitions and no final states, and its start state is named `q0` |
| DfaMinimization.FiniteAutomaton.FindEquivalenceClasses | DFA_minimization.py:67-115 | the refinement loop ends, and its classes partition `Q` into non-empty blocks; two states share a block exactly when no word separates them |
| DfaMinimization.FixpointIsEquivalence | DFA_minimization.py:108-109 | a partition that a round leaves unchanged holds exactly the indistinguishability classes |
| Refinement.InitialRepresents | DFA_minimization.py:69 | `[F, Q \ F]` is a partition of `Q` that separates states exactly by acceptance of the empty word |
| Refinement.RefineRound | DFA_minimization.py:80-107 | a round yields a partition of `Q` with no empty block; two states share a new block exactly when they shared an old one and their signatures agree; the round reproduces the partition, adds blocks, or met an empty block |
| Refinement.RoundRepresents | DFA_minimization.py:74-113 | if the old partition separates by words up to length `m`, the round at chain length `k <= m + 1` separates by words up to length `m + k` |
| Refinement.SplitBlock | DFA_minimization.py:83-107 | the sub-blocks of one block partition it into non-empty groups, and two of its states are grouped together exactly when their signatures agree |
| Refinement.GroupBySignature | DFA_minimization.py:86-104 | `clases_table` has distinct keys; each entry holds exactly the block's states with that signature, and every state is filed |
| Refinement.TableEntries | DFA_minimization.py:106-107 | the new blocks are the table's entries in key order |
| Refinement.ComputeSignature | DFA_minimization.py:88-98 | the computed signature is `Signature`: for each chain, the index of the block reached |
| Refinement.Follow | DFA_minimization.py:90-93 | walking a chain symbol by symbol reaches the state of the extended transition function, inside `Q` |
| Refinement.SignatureAgree | DFA_minimization.py:85-99 | two states have equal signatures over the chains of length `k` exactly when every word of length `k` leads them into a common block |
| Refinement.ChainsExact | DFA_minimization.py:78 | the chains of length `k` are exactly the words of length `k` over the alphabet |
| Refinement.Enumerate | DFA_minimization.py:78 | the alphabet listed once per symbol, in some order |
| Partitions.FindClass | DFA_minimization.py:95-99 | the linear search returns the index of the first block holding the state, or the number of blocks if none does |
| Partitions.TogetherIffSameBlock | DFA_minimization.py:95-99 | in a partition, two states share a block exactly when the search finds the same index for both |
| Partitions.BlockCountBound | DFA_minimization.py:73-113 | a partition of `Q` into non-empty blocks has at most `|Q|` blocks, which bounds the rounds |
| Partitions.SwapBlocks | DFA_minimization.py:128-129 | swapping two blocks keeps a partition without empty blocks and keeps which states are together |
| DfaMinimization.StartClassFirst | DFA_minimization.py:121-129 | after the swap the classes are still the indistinguishability classes and the start state lies in block 0 |
| DfaMinimization.FiniteAutomaton.Minimize | DFA_minimization.py:118-161 | the new fields are the quotient by the indistinguishability classes; the result is total with its final states declared, keeps the start state declared, accepts the same words, and has no two distinct indistinguishable states |
| DfaMinimization.FiniteAutomaton.BuildQuotient | DFA_minimization.py:120-161 | the classes found, the start class moved first, and the transitions and final states built from them form the quotient automaton |
| DfaMinimization.FiniteAutomaton.QuotientTransitions | DFA_minimization.py:132-146 | the new `delta` maps `(q<i>, c)` for every class `i` and symbol `c`, and nothing else, to `q<j>`, where `j` is the class any state of class `i` moves to on `c` |
| DfaMinimization.FiniteAutomaton.ClassTransitions | DFA_minimization.py:136-146 | the entries of one class are read off one of its states and added without touching earlier classes |
| DfaMinimization.FiniteAutomaton.QuotientFinals | DFA_minimization.py:155-161 | `q<i>` is final exactly when class `i` meets the old final states |
| Quotient.EquivalenceIsCongruent | DFA_minimization.py:136-146 | indistinguishable states move into a common class on every symbol, so any representative gives the same transitions |
| Quotient.ClassesRespectFinal | DFA_minimization.py:69 | every class lies inside `F` or outside it |
| Quotient.QuotientWellFormed | DFA_minimization.py:132-161 | the quotient is total with final states among its states, and its start state is declared |
| Quotient.QuotientStar | DFA_minimization.py:132-146 | from the class of `s`, the quotient follows `w` to the class of the state the original reaches from `s` |
| Quotient.QuotientPreservesLanguage | DFA_minimization.py:1-3 | the quotient accepts exactly the words over the alphabet that the original accepts |
| Quotient.QuotientIsReduced | DFA_minimization.py:1-3 | no two distinct states of the quotient are indistinguishable |
| Quotient.QuotientIsReducedAndEquivalent | DFA_minimization.py:1-3 | combines the three facts above for the automaton `minimize` produces |
| DfaModel.StableEquivIsIndistinguishable | DFA_minimization.py:108-113 | once agreement up to length `m` implies agreement up to `m + 1`, it is agreement on all words |
| DfaModel.ExtendEquiv | DFA_minimization.py:78-99 | agreement up to `m + k` is agreement up to `m` of the states and of every pair reached by one word of length `k` |
| DfaModel.IndistinguishableStep | DFA_minimization.py:136-146 | indistinguishable states move to indistinguishable states |
| StateNames.NameInjective | DFA_minimization.py:143 | `'q' + str(i)` names distinct classes differently, and class 0 is named `q0` |
| StateNames.NamesBelowMember | DFA_minimization.py:152 | `q<i>` is among the new states exactly when `i` is below the number of classes |
| StateNames.ParseDecimalString | DFA_minimization.py:143 | `str(i)` can be read back as `i` |
| StateNames.SignatureTextCollides | DFA_minimization.py:87-98 | the source's separator-free signature text maps the block sequences `[1, 12]` and `[11, 2]` to the same key `"112"` |
| DfaMinimization.FiniteAutomaton.LoadTransitionFunction | DFA_minimization.py:31-64 | after the rows are read, `Sigma` is the header's symbols and `Q` and `F` gain the named and `+`-marked states. `q0` is the first data row's state, and `delta` is the table of all cells |
| DfaMinimization.FiniteAutomaton.LoadRow | DFA_minimization.py:46-63 | one data row adds its state to `Q`, to `F` when marked `+`, makes it the start state on row 1, and writes one entry per cell |
| DfaMinimization.LoadedWellFormed | DFA_minimization.py:31-64 | a table whose rows give one cell per symbol, each naming a state of the table, loads into a total automaton with declared final states |
| TableLoading.ReadRowsMeaning | DFA_minimization.py:39-63 | reading the rows one at a time from an empty dictionary gives the header's symbols and alphabet, the added states and final states, the first data row's start state and the table of cells |
| TableLoading.ReadAllRows | DFA_minimization.py:39-64 | the same for the whole table |
| TableLoading.ReadHeader | DFA_minimization.py:41-43 | the header row sets the symbols and the alphabet and nothing else |
| TableLoading.ReadDataRow | DFA_minimization.py:45-63 | each further data row extends states, final states and cells, and only row 1 sets the start state |
| TableLoading.StatesSnoc | DFA_minimization.py:54-58 | one more row adds its named state, and its final mark, to the states seen so far |
| TableLoading.StatesMembers | DFA_minimization.py:54-58 | a state is loaded exactly when some data row names it, and final states are among the states |
| TableLoading.TableKeys | DFA_minimization.py:63 | the table has an entry exactly for the row state and symbol of each cell written |
| TableLoading.TableCell | DFA_minimization.py:63 | with distinct row states and symbols, the entry of a cell is that cell's text |
| TableLoading.TableValues | DFA_minimization.py:63 | every entry is the text of some cell |
| TableLoading.TableSnoc | DFA_minimization.py:63 | one more row adds its cells to the table of the rows before it |
| UnreachableStatesRemoving.NondeterministicFiniteAutomaton.constructor | unreachable_states_removing.py:15-25 | a new automaton has no states, no symbols, no transitions and no final states, and its start state is named `q0` |
| UnreachableStatesRemoving.NondeterministicFiniteAutomaton.RemoveUnreachableStates | unreachable_states_removing.py:63-95 | the new fields are `Removed` of the old automaton: `Q` the reachable states, `F` the old `F` among them, `delta` the entries leaving them, `Sigma` and `q0` unchanged |
| UnreachableStatesRemoving.NondeterministicFiniteAutomaton.ReachableStates | unreachable_states_removing.py:64-78 | the search ends; its result lies inside `Q` and holds a state exactly when some word leads from `q0` to it |
| UnreachableStatesRemoving.NondeterministicFiniteAutomaton.NewSuccessors | unreachable_states_removing.py:72-78 | one round collects exactly the successors of the frontier, on every symbol, that are not already found |
| UnreachableStatesRemoving.RemovedWellFormed | unreachable_states_removing.py:81-95 | the pruned automaton is well formed, keeps `q0` and `Sigma`, and its states are old states closed under `delta` |
| UnreachableStatesRemoving.RemovedKeepsExactlyReachable | unreachable_states_removing.py:64-81 | a state is kept exactly when it is reachable in the original, and exactly when it is reachable in the pruned automaton |
| UnreachableStatesRemoving.RemovedPreservesLanguage | unreachable_states_removing.py:63-95 | the pruned automaton accepts exactly the words the original accepts |
| UnreachableStatesRemoving.RemovalIdempotent | unreachable_states_removing.py:63-95 | pruning the pruned automaton changes nothing |
| UnreachableStatesRemoving.RemovedRun | unreachable_states_removing.py:91-95 | from reachable states the pruned automaton runs exactly like the original and stays among reachable states |
| NfaModel.ReachableSetClosed | unreachable_states_removing.py:67-78 | the reachable states hold `q0`, are declared, and are closed under `delta` |
| NfaModel.ClosedContainsReachable | unreachable_states_removing.py:67-78 | a set closed under `delta` that holds `q0` holds every reachable state |
| NfaModel.ReachableStep | unreachable_states_removing.py:76-78 | a successor of a reachable state is reachable |
| NfaModel.RunInClosed | unreachable_states_removing.py:67-78 | a run that starts inside a closed set never leaves it |
| UnreachableStatesRemoving.NondeterministicFiniteAutomaton.LoadTransitionFunction | unreachable_states_removing.py:27-60 | as for the DFA loader, with `delta` mapping each cell to the set its literal lists |
| UnreachableStatesRemoving.NondeterministicFiniteAutomaton.LoadRow | unreachable_states_removing.py:42-59 | one data row adds its state to `Q`, to `F` when marked, sets the start state on row 1, and writes one set of targets per cell |
| UnreachableStatesRemoving.LoadedWellFormed | unreachable_states_removing.py:27-60 | a table whose rows give one cell per symbol, whose first data row names a state, and whose literals list states of the table, loads into a well-formed automaton |
| UnreachableStatesRemoving.DecodedPut | unreachable_states_removing.py:59 | decoding the cells and writing one cell commute |
| UnreachableStatesRemoving.EmptyCellAsWritten | unreachable_states_removing.py:59 | a table whose only cell is `{}`, read as written, is not well formed (it leads to the undeclared state `""`); read as the empty set, it is well formed |
| SetLiteral.Split | unreachable_states_removing.py:59 | `split(',')` gives at least one piece, none holding a comma |
| SetLiteral.SplitJoin | unreachable_states_removing.py:59 | joining the pieces of a split with commas gives back the text |
| SetLiteral.JoinSplit | unreachable_states_removing.py:59 | splitting the comma-join of comma-free pieces gives back the pieces |
| SetLiteral.LiteralRoundTrip | unreachable_states_removing.py:59 | the literal of non-empty, comma-free names, `{}` included, reads back as the set of those names |
| SetLiteral.EmptyLiteralHasPhantomState | unreachable_states_removing.py:59 | the loader's expression reads `{}` as the set holding the empty name |

## Left out

- Opening files, the CSV reader and writer, `write_into_file`, the filename globals and the `__main__` blocks are not modelled. The loaders take the rows the reader would yield, as a sequence of rows of cells.
- The loaders do not model Python's in-place `self.F.add` / `self.Q.add` on sets the caller may share. The fields are reassigned values.
- The iteration order of Python sets is not modelled:
  - `Refinement.Enumerate` lists the alphabet in some order;
  - the representative of a class, and the next state or symbol a loop visits, are chosen by `:|`.

  No contract depends on that order.
- DfaMinimization.FiniteAutomaton.Minimize: proves that no two distinct result states are indistinguishable and that the language is kept. It does not claim the fewest states among all DFAs for the language. That stronger claim holds only when every state is reachable, and `minimize` does not remove unreachable states first.
- DfaMinimization.FiniteAutomaton.Minimize: re-running `minimize` on its own output is not shown to give an isomorphic automaton.
- DfaMinimization.FiniteAutomaton.Minimize: requires a total transition function with declared final states (`WellFormed`). On a table that is not total the source either raises `KeyError` at the lookup `self.delta[(state, c)]`, or, when a target outside `Q` is never followed a second step, builds a quotient with missing entries that `write_into_file` then fails on; neither behaviour is modelled.
- UnreachableStatesRemoving.NondeterministicFiniteAutomaton.RemoveUnreachableStates: requires `WellFormed`, which asks more than the source needs. The source fails only on a missing entry `self.delta[(state, c)]` of a state the search reaches. Tables whose unreachable states have missing cells or cells naming undeclared states are pruned by the source but are not modelled. Neither is the empty table, which the source turns into `Q = {q0}`, a set that is not part of the old `Q`.
- DfaMinimization.FiniteAutomaton.LoadTransitionFunction: requires each data row to have no more cells than the header has symbols. A longer row makes the source index past `symbols` and raise `IndexError`, which is not modelled.
- UnreachableStatesRemoving.NondeterministicFiniteAutomaton.LoadTransitionFunction: the same precondition, for the same reason.
- `DfaModel.Step` falls back to staying in the same state when an entry is missing. This only makes the function total; on a well-formed automaton no such entry is looked up.
- Members whose contracts speak of `old(...)` state their whole new state. What they promise beyond that is carried by the lemmas listed above.

## Findings

| source | as written | input that shows it | evidently intended | confidence | as-written member | corrected member |
|---|---|---|---|---|---|---|
| DFA_minimization.py:87-98 | the signature of a state is the concatenation of `str(i)` for the blocks reached, with no separator | two states of one block whose signatures differ in two adjacent chains of a round with at least 13 blocks, one reaching blocks `1, 12` and the other `11, 2` (possible, for example, with three symbols at chain length 2: nine chains, up to 16 blocks after round 1): both get the key `"112"` and are kept together although a chain separates them | the signature is the sequence of block indices | not executed | StateNames.SignatureTextCollides | Refinement.SignatureAgree |
| unreachable_states_removing.py:59 | a cell is read as `set(cell[1:-1].split(','))`, so the empty literal `{}` becomes the set holding `""` | rows `;;a` and `-;q0;{}`: `delta[(q0, a)]` is `{""}`, and the search then looks up `delta[("", a)]`, which does not exist | `{}` is the empty set, as `write_into_file` writes it | not executed | UnreachableStatesRemoving.EmptyCellAsWritten | SetLiteral.LiteralRoundTrip |

The corrected reading `SetLiteral.TargetSet` is what
`UnreachableStatesRemoving.NondeterministicFiniteAutomaton.LoadTransitionFunction`
uses, through `UnreachableStatesRemoving.Decoded`. The refinement rounds group
states by the sequence `Refinement.Signature`, not by its text.
