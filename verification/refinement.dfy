/** One round of the partition refinement in `__find_equivalence_classes`:
    the chains of length `k`, the signature of a state, the split of one
    block by signature, and the split of every block. */
module Refinement {
  import opened Automata
  import opened DfaModel
  import opened Partitions

  // ---------------------------------------------------------------------
  // Chains: the words of one length
  // ---------------------------------------------------------------------

  /** Every word of length `k` over `symbols`, in the order of
      `itertools.product(symbols, repeat=k)` (the first position varies slowest). */
  function Chains(symbols: seq<Symbol>, k: nat): seq<seq<Symbol>>
  {
    if k == 0 then [[]] else PrependEach(symbols, Chains(symbols, k - 1))
  }

  /** `[c] + w` for every symbol `c` of `symbols` and every `w` of `tails`. */
  function PrependEach(symbols: seq<Symbol>, tails: seq<seq<Symbol>>): seq<seq<Symbol>>
    decreases |symbols|
  {
    if symbols == [] then []
    else seq(|tails|, i requires 0 <= i < |tails| => [symbols[0]] + tails[i]) + PrependEach(symbols[1..], tails)
  }

  lemma {:induction false} PrependEachMembers(symbols: seq<Symbol>, tails: seq<seq<Symbol>>, w: seq<Symbol>)
    ensures w in PrependEach(symbols, tails) <==> |w| >= 1 && w[0] in symbols && w[1..] in tails
    decreases |symbols|
  {
    if symbols != [] {
      var head := seq(|tails|, i requires 0 <= i < |tails| => [symbols[0]] + tails[i]);
      assert PrependEach(symbols, tails) == head + PrependEach(symbols[1..], tails);
      PrependEachMembers(symbols[1..], tails, w);
      if w in head {
        var i :| 0 <= i < |head| && head[i] == w;
        assert w[1..] == tails[i];
      }
      if |w| >= 1 && w[0] == symbols[0] && w[1..] in tails {
        var i :| 0 <= i < |tails| && tails[i] == w[1..];
        assert head[i] == w;
      }
      if |w| >= 1 {
        assert w[0] in symbols <==> w[0] == symbols[0] || w[0] in symbols[1..] by {
          assert symbols == [symbols[0]] + symbols[1..];
        }
      }
    }
  }

  /** The chains of length `k` are exactly the words of length `k` over the alphabet. */
  lemma {:induction false} ChainsExact(symbols: seq<Symbol>, sigma: set<Symbol>, k: nat, w: seq<Symbol>)
    requires forall c :: c in symbols <==> c in sigma
    ensures w in Chains(symbols, k) <==> |w| == k && IsWordOver(w, sigma)
    decreases k
  {
    if k == 0 {
      assert |w| == 0 ==> w == [];
    } else {
      PrependEachMembers(symbols, Chains(symbols, k - 1), w);
      if |w| >= 1 {
        ChainsExact(symbols, sigma, k - 1, w[1..]);
        assert IsWordOver(w, sigma) <==> w[0] in sigma && IsWordOver(w[1..], sigma) by {
          if w[0] in sigma && IsWordOver(w[1..], sigma) {
            forall i | 0 <= i < |w| ensures w[i] in sigma {
              if i > 0 { assert w[i] == w[1..][i - 1]; }
            }
          }
          if IsWordOver(w, sigma) {
            forall i | 0 <= i < |w[1..]| ensures w[1..][i] in sigma { assert w[1..][i] == w[i + 1]; }
          }
        }
      }
    }
  }

  /** Every chain is a word over the alphabet. */
  lemma ChainsOverAlphabet(symbols: seq<Symbol>, sigma: set<Symbol>, k: nat)
    requires forall c :: c in symbols <==> c in sigma
    ensures forall i :: 0 <= i < |Chains(symbols, k)| ==> IsWordOver(Chains(symbols, k)[i], sigma)
  {
    var chains := Chains(symbols, k);
    forall i | 0 <= i < |chains| ensures IsWordOver(chains[i], sigma) {
      ChainsExact(symbols, sigma, k, chains[i]);
    }
  }

  /** Lists the alphabet in iteration order, as `itertools.product` walks the set. */
  method Enumerate(sigma: set<Symbol>) returns (symbols: seq<Symbol>)
    ensures forall c :: c in symbols <==> c in sigma
    ensures forall i, j :: 0 <= i < j < |symbols| ==> symbols[i] != symbols[j]
  {
    symbols := [];
    var rest := sigma;
    while rest != {}
      invariant forall c :: c in sigma <==> c in symbols || c in rest
      invariant forall c :: c in symbols ==> c !in rest
      invariant forall i, j :: 0 <= i < j < |symbols| ==> symbols[i] != symbols[j]
      decreases rest
    {
      var c :| c in rest;
      symbols := symbols + [c];
      rest := rest - {c};
    }
  }

  // ---------------------------------------------------------------------
  // Signatures
  // ---------------------------------------------------------------------

  /** The signature of `s`: for each chain in order, the index of the block
      of `P` that the chain leads to from `s`. The source writes these
      indices as one string; see `StateNames.SignatureText`. */
  function Signature(a: Dfa, P: seq<set<State>>, chains: seq<seq<Symbol>>, s: State): seq<nat>
    decreases |chains|
  {
    if chains == [] then []
    else Signature(a, P, chains[..|chains| - 1], s) + [BlockOf(P, Star(a, s, chains[|chains| - 1]))]
  }

  /** Entry `i` of the signature is the block reached along chain `i`. */
  lemma {:induction false} SignatureAt(a: Dfa, P: seq<set<State>>, chains: seq<seq<Symbol>>, s: State, i: nat)
    requires i < |chains|
    ensures |Signature(a, P, chains, s)| == |chains|
    ensures Signature(a, P, chains, s)[i] == BlockOf(P, Star(a, s, chains[i]))
    decreases |chains|
  {
    if i < |chains| - 1 {
      SignatureAt(a, P, chains[..|chains| - 1], s, i);
    } else if |chains| > 1 {
      SignatureAt(a, P, chains[..|chains| - 1], s, 0);
    }
  }

  /** Every chain is a word over the alphabet of `a`. */
  ghost predicate ChainsOver(a: Dfa, chains: seq<seq<Symbol>>)
  {
    forall i :: 0 <= i < |chains| ==> IsWordOver(chains[i], a.Sigma)
  }

  /** Two states have the same signature over the chains of length `k`
      exactly when every word of length `k` leads them into a common block. */
  lemma SignatureAgree(a: Dfa, P: seq<set<State>>, symbols: seq<Symbol>, k: nat, s: State, t: State)
    requires Total(a) && IsPartition(P, a.Q) && s in a.Q && t in a.Q
    requires forall c :: c in symbols <==> c in a.Sigma
    ensures Signature(a, P, Chains(symbols, k), s) == Signature(a, P, Chains(symbols, k), t) <==>
      forall w :: IsWordOver(w, a.Sigma) && |w| == k ==> Together(P, Star(a, s, w), Star(a, t, w))
  {
    if Signature(a, P, Chains(symbols, k), s) == Signature(a, P, Chains(symbols, k), t) {
      SameSignatureTogether(a, P, symbols, k, s, t);
    }
    if forall w :: IsWordOver(w, a.Sigma) && |w| == k ==> Together(P, Star(a, s, w), Star(a, t, w)) {
      TogetherSameSignature(a, P, symbols, k, s, t);
    }
  }

  /** Equal signatures: every word of length `k` leads both states into a common block. */
  lemma SameSignatureTogether(a: Dfa, P: seq<set<State>>, symbols: seq<Symbol>, k: nat, s: State, t: State)
    requires Total(a) && IsPartition(P, a.Q) && s in a.Q && t in a.Q
    requires forall c :: c in symbols <==> c in a.Sigma
    requires Signature(a, P, Chains(symbols, k), s) == Signature(a, P, Chains(symbols, k), t)
    ensures forall w :: IsWordOver(w, a.Sigma) && |w| == k ==> Together(P, Star(a, s, w), Star(a, t, w))
  {
    var chains := Chains(symbols, k);
    forall w | IsWordOver(w, a.Sigma) && |w| == k
      ensures Together(P, Star(a, s, w), Star(a, t, w))
    {
      ChainsExact(symbols, a.Sigma, k, w);
      var i :| 0 <= i < |chains| && chains[i] == w;
      SignatureAt(a, P, chains, s, i);
      SignatureAt(a, P, chains, t, i);
      StarInQ(a, s, w);
      StarInQ(a, t, w);
      TogetherIffSameBlock(P, a.Q, Star(a, s, w), Star(a, t, w));
    }
  }

  /** Every word of length `k` leading both states into a common block: equal signatures. */
  lemma TogetherSameSignature(a: Dfa, P: seq<set<State>>, symbols: seq<Symbol>, k: nat, s: State, t: State)
    requires Total(a) && IsPartition(P, a.Q) && s in a.Q && t in a.Q
    requires forall c :: c in symbols <==> c in a.Sigma
    requires forall w :: IsWordOver(w, a.Sigma) && |w| == k ==> Together(P, Star(a, s, w), Star(a, t, w))
    ensures Signature(a, P, Chains(symbols, k), s) == Signature(a, P, Chains(symbols, k), t)
  {
    var chains := Chains(symbols, k);
    var sigS, sigT := Signature(a, P, chains, s), Signature(a, P, chains, t);
    if chains != [] {
      SignatureAt(a, P, chains, s, 0);
      SignatureAt(a, P, chains, t, 0);
    } else {
      assert sigS == [] == sigT;
    }
    forall i | 0 <= i < |chains| ensures sigS[i] == sigT[i] {
      SignatureAt(a, P, chains, s, i);
      SignatureAt(a, P, chains, t, i);
      var w := chains[i];
      ChainsExact(symbols, a.Sigma, k, w);
      StarInQ(a, s, w);
      StarInQ(a, t, w);
      TogetherIffSameBlock(P, a.Q, Star(a, s, w), Star(a, t, w));
    }
  }

  /** The source's loop computing the signature of one state: walk each
      chain symbol by symbol, then look up the block reached. */
  method ComputeSignature(a: Dfa, P: seq<set<State>>, chains: seq<seq<Symbol>>, s: State) returns (sig: seq<nat>)
    requires Total(a) && Covers(P, a.Q) && ChainsOver(a, chains) && s in a.Q
    ensures sig == Signature(a, P, chains, s)
  {
    sig := [];
    for n := 0 to |chains|
      invariant sig == Signature(a, P, chains[..n], s)
    {
      var current := Follow(a, s, chains[n]);
      var j := FindClass(P, current);
      if j < |P| {
        sig := sig + [j];
      }
      assert chains[..n + 1][..n] == chains[..n];
    }
    assert chains[..|chains|] == chains;
  }

  /** The source's walk along one chain: `current_state = delta[(current_state, c)]`
      for each symbol `c` in turn. */
  method Follow(a: Dfa, s: State, chain: seq<Symbol>) returns (current: State)
    requires Total(a) && s in a.Q && IsWordOver(chain, a.Sigma)
    ensures current == Star(a, s, chain) && current in a.Q
  {
    current := s;
    for m := 0 to |chain|
      invariant current == Star(a, s, chain[..m]) && current in a.Q
    {
      StarSnoc(a, s, chain[..m], chain[m]);
      assert chain[..m + 1] == chain[..m] + [chain[m]];
      current := a.delta[(current, chain[m])];
    }
    assert chain[..|chain|] == chain;
  }

  // ---------------------------------------------------------------------
  // Splitting one block
  // ---------------------------------------------------------------------

  /** The key the source groups the states of a block by. */
  function SignatureOf(a: Dfa, P: seq<set<State>>, chains: seq<seq<Symbol>>): State -> seq<nat>
  {
    s => Signature(a, P, chains, s)
  }

  /** `parts` splits `block` into non-empty sub-blocks of states with equal
      signatures, states with different signatures landing in different
      sub-blocks. */
  ghost predicate IsSplit(a: Dfa, P: seq<set<State>>, chains: seq<seq<Symbol>>, block: set<State>, parts: seq<set<State>>)
  {
    IsGrouping(SignatureOf(a, P, chains), block, parts)
  }

  /** `parts` partitions `block` into non-empty sub-blocks, and two states
      share a sub-block exactly when their keys agree. */
  ghost predicate IsGrouping<K(!new)>(key: State -> K, block: set<State>, parts: seq<set<State>>)
  {
    IsPartition(parts, block) && NoEmptyBlock(parts) && GroupedBy(key, block, parts)
  }

  /** A state of `block` is in sub-block `x` exactly when its key is that of the members of `x`. */
  ghost predicate GroupedBy<K(!new)>(key: State -> K, block: set<State>, parts: seq<set<State>>)
  {
    forall x, s, t :: 0 <= x < |parts| && s in parts[x] && t in block ==>
      (t in parts[x] <==> key(s) == key(t))
  }

  /** The grouping table of the source (`clases_table`), with its keys listed
      in `keys`: the keys are distinct, every entry holds exactly the
      states of `done` with that key, and every key belongs to some state. */
  ghost predicate GroupTable<K(!new)>(key: State -> K, done: set<State>, table: map<K, set<State>>, keys: seq<K>)
  {
    (forall k :: k in table <==> k in keys) &&
    (forall i, j :: 0 <= i < j < |keys| ==> keys[i] != keys[j]) &&
    (forall k :: k in table ==> table[k] <= done && exists s :: s in done && key(s) == k) &&
    (forall k, s :: k in table && s in table[k] ==> key(s) == k) &&
    (forall s :: s in done ==> key(s) in table && s in table[key(s)])
  }

  /** Splits one block by signature, as the body of the source's loop over
      `equivalence_classes` does; the sub-blocks come in the order in which
      their signatures were first met. */
  method SplitBlock(a: Dfa, P: seq<set<State>>, chains: seq<seq<Symbol>>, block: set<State>) returns (parts: seq<set<State>>)
    requires Total(a) && Covers(P, a.Q) && ChainsOver(a, chains) && block <= a.Q
    ensures IsSplit(a, P, chains, block, parts)
  {
    var table, keys := GroupBySignature(a, P, chains, block);
    parts := TableEntries(table, keys);
    GroupingFromTable(SignatureOf(a, P, chains), block, table, keys, parts);
  }

  /** The entries of `table` in the order of `keys`, as the source appends
      the groups of `clases_table` to the new partition. */
  method TableEntries<K>(table: map<K, set<State>>, keys: seq<K>) returns (parts: seq<set<State>>)
    requires forall x :: 0 <= x < |keys| ==> keys[x] in table
    ensures |parts| == |keys| && forall x :: 0 <= x < |keys| ==> parts[x] == table[keys[x]]
  {
    parts := [];
    for i := 0 to |keys|
      invariant |parts| == i
      invariant forall x :: 0 <= x < i ==> parts[x] == table[keys[x]]
    {
      parts := parts + [table[keys[i]]];
    }
  }

  /** Fills the grouping table: each state of the block is filed under its
      signature, a signature met for the first time opening a new entry. */
  method GroupBySignature(a: Dfa, P: seq<set<State>>, chains: seq<seq<Symbol>>, block: set<State>)
    returns (table: map<seq<nat>, set<State>>, keys: seq<seq<nat>>)
    requires Total(a) && Covers(P, a.Q) && ChainsOver(a, chains) && block <= a.Q
    ensures GroupTable(SignatureOf(a, P, chains), block, table, keys)
  {
    table, keys := map[], [];
    ghost var key := SignatureOf(a, P, chains);
    var rest := block;
    ghost var done := {};
    while rest != {}
      invariant done + rest == block && done !! rest
      invariant GroupTable(key, done, table, keys)
      decreases rest
    {
      var state :| state in rest;
      var sig := ComputeSignature(a, P, chains, state);
      assert sig == key(state);
      if sig in table {
        GroupTableJoin(key, done, table, keys, state);
        table := table[sig := table[sig] + {state}];
      } else {
        GroupTableOpen(key, done, table, keys, state);
        table := table[sig := {state}];
        keys := keys + [sig];
      }
      done, rest := done + {state}, rest - {state};
    }
  }

  /** A state whose key is already in the table joins that key's entry. */
  lemma GroupTableJoin<K(!new)>(key: State -> K, done: set<State>, table: map<K, set<State>>, keys: seq<K>, state: State)
    requires GroupTable(key, done, table, keys)
    requires key(state) in table
    ensures GroupTable(key, done + {state}, table[key(state) := table[key(state)] + {state}], keys)
  {
    var table' := table[key(state) := table[key(state)] + {state}];
    forall k | k in table'
      ensures table'[k] <= done + {state} && exists s :: s in done + {state} && key(s) == k
    {
      var s :| s in done && key(s) == k;
    }
  }

  /** A state with a new key opens a new entry, whose key goes last. */
  lemma GroupTableOpen<K(!new)>(key: State -> K, done: set<State>, table: map<K, set<State>>, keys: seq<K>, state: State)
    requires GroupTable(key, done, table, keys)
    requires key(state) !in table
    ensures GroupTable(key, done + {state}, table[key(state) := {state}], keys + [key(state)])
  {
    var table', keys' := table[key(state) := {state}], keys + [key(state)];
    forall k | k in table'
      ensures table'[k] <= done + {state} && exists s :: s in done + {state} && key(s) == k
    {
      if k == key(state) {
        assert state in done + {state};
      } else {
        var s :| s in done && key(s) == k;
      }
    }
    forall k ensures k in table' <==> k in keys' {
      assert k in keys' <==> k in keys || k == key(state);
    }
  }

  /** The entries of a finished grouping table, in key order, group the block. */
  lemma GroupingFromTable<K(!new)>(key: State -> K, block: set<State>, table: map<K, set<State>>, keys: seq<K>, parts: seq<set<State>>)
    requires GroupTable(key, block, table, keys)
    requires |parts| == |keys| && forall x :: 0 <= x < |keys| ==> parts[x] == table[keys[x]]
    ensures IsGrouping(key, block, parts)
  {
    TableDisjoint(key, block, table, keys, parts);
    TableCovers(key, block, table, keys, parts);
    assert IsPartition(parts, block);
    TableNonEmpty(key, block, table, keys, parts);
    TableGrouped(key, block, table, keys, parts);
  }

  lemma TableDisjoint<K(!new)>(key: State -> K, block: set<State>, table: map<K, set<State>>, keys: seq<K>, parts: seq<set<State>>)
    requires GroupTable(key, block, table, keys)
    requires |parts| == |keys| && forall x :: 0 <= x < |keys| ==> parts[x] == table[keys[x]]
    ensures Disjoint(parts)
  {
    forall x, y | 0 <= x < y < |parts| ensures parts[x] !! parts[y] {
      assert keys[x] != keys[y];
    }
  }

  lemma TableNonEmpty<K(!new)>(key: State -> K, block: set<State>, table: map<K, set<State>>, keys: seq<K>, parts: seq<set<State>>)
    requires GroupTable(key, block, table, keys)
    requires |parts| == |keys| && forall x :: 0 <= x < |keys| ==> parts[x] == table[keys[x]]
    ensures NoEmptyBlock(parts)
    ensures forall x :: 0 <= x < |parts| ==> parts[x] <= block
  {
    forall x | 0 <= x < |parts| ensures parts[x] != {} && parts[x] <= block {
      assert keys[x] in table;
      var s :| s in block && key(s) == keys[x];
      assert s in parts[x];
    }
    NoEmptyIntro(parts);
  }

  lemma TableCovers<K(!new)>(key: State -> K, block: set<State>, table: map<K, set<State>>, keys: seq<K>, parts: seq<set<State>>)
    requires GroupTable(key, block, table, keys)
    requires |parts| == |keys| && forall x :: 0 <= x < |keys| ==> parts[x] == table[keys[x]]
    ensures Covers(parts, block)
  {
    TableNonEmpty(key, block, table, keys, parts);
    forall s | s in block ensures BlockOf(parts, s) < |parts| {
      assert key(s) in keys;
      var x :| 0 <= x < |keys| && keys[x] == key(s);
      assert s in parts[x];
    }
  }

  lemma TableGrouped<K(!new)>(key: State -> K, block: set<State>, table: map<K, set<State>>, keys: seq<K>, parts: seq<set<State>>)
    requires GroupTable(key, block, table, keys)
    requires |parts| == |keys| && forall x :: 0 <= x < |keys| ==> parts[x] == table[keys[x]]
    ensures GroupedBy(key, block, parts)
  {
    forall x, s, t | 0 <= x < |parts| && s in parts[x] && t in block
      ensures t in parts[x] <==> key(s) == key(t)
    {
      assert keys[x] in table;
    }
  }

  // ---------------------------------------------------------------------
  // One round over all blocks
  // ---------------------------------------------------------------------

  /** Every state in the sub-blocks built so far is a declared state from one
      of the first `idx` blocks. */
  ghost predicate MembersBelow(P: seq<set<State>>, Q: set<State>, idx: nat, N: seq<set<State>>)
  {
    forall x, s :: 0 <= x < |N| && s in N[x] ==> s in Q && BlockOf(P, s) < idx
  }

  /** Every declared state from the first `idx` blocks is in some sub-block. */
  ghost predicate CoveredBelow(P: seq<set<State>>, Q: set<State>, idx: nat, N: seq<set<State>>)
  {
    forall s :: s in Q && BlockOf(P, s) < idx ==> BlockOf(N, s) < |N|
  }

  /** For a state from the first `idx` blocks, the states sharing its
      sub-block are those of its block with the same key. */
  ghost predicate GroupedBelow<K(!new)>(key: State -> K, P: seq<set<State>>, Q: set<State>, idx: nat, N: seq<set<State>>)
  {
    forall s, t :: s in Q && t in Q && BlockOf(P, s) < idx ==>
      (Together(N, s, t) <==> BlockOf(P, s) == BlockOf(P, t) && key(s) == key(t))
  }

  /** What holds after the first `idx` blocks of `P` have been split by `key`
      and their sub-blocks appended to `N`. */
  ghost predicate RoundInvariant<K(!new)>(key: State -> K, P: seq<set<State>>, Q: set<State>, idx: nat, N: seq<set<State>>)
  {
    idx <= |P| && Disjoint(N) && NoEmptyBlock(N) &&
    MembersBelow(P, Q, idx, N) && CoveredBelow(P, Q, idx, N) && GroupedBelow(key, P, Q, idx, N) &&
    (N == P[..idx] || |N| > idx || {} in P[..idx])
  }

  /** Appending the split of block `idx` keeps the round invariant. */
  lemma RoundStep<K(!new)>(key: State -> K, P: seq<set<State>>, Q: set<State>, idx: nat, N: seq<set<State>>, parts: seq<set<State>>)
    requires IsPartition(P, Q) && idx < |P|
    requires RoundInvariant(key, P, Q, idx, N)
    requires IsGrouping(key, P[idx], parts)
    ensures RoundInvariant(key, P, Q, idx + 1, N + parts)
  {
    PartsInBlock(P, Q, idx, parts);
    StepMembers(P, Q, idx, N, parts);
    StepDisjoint(P, Q, idx, N, parts);
    StepNoEmpty(N, parts);
    StepCovered(P, Q, idx, N, parts);
    StepGrouped(key, P, Q, idx, N, parts);
    RoundProgress(P, idx, N, parts);
  }

  /** The states of the sub-blocks of block `idx` are the declared states whose block is `idx`. */
  lemma PartsInBlock(P: seq<set<State>>, Q: set<State>, idx: nat, parts: seq<set<State>>)
    requires IsPartition(P, Q) && idx < |P| && IsPartition(parts, P[idx])
    ensures forall y, s :: 0 <= y < |parts| && s in parts[y] ==> s in Q && BlockOf(P, s) == idx
  {
    forall y, s | 0 <= y < |parts| && s in parts[y] ensures s in Q && BlockOf(P, s) == idx {
      BlockOfIndex(P, s, idx);
    }
  }

  lemma StepMembers(P: seq<set<State>>, Q: set<State>, idx: nat, N: seq<set<State>>, parts: seq<set<State>>)
    requires MembersBelow(P, Q, idx, N)
    requires forall y, s :: 0 <= y < |parts| && s in parts[y] ==> s in Q && BlockOf(P, s) == idx
    ensures MembersBelow(P, Q, idx + 1, N + parts)
  {
    var N' := N + parts;
    forall x, s | 0 <= x < |N'| && s in N'[x] ensures s in Q && BlockOf(P, s) < idx + 1 {
      if x >= |N| { assert N'[x] == parts[x - |N|]; } else { assert N'[x] == N[x]; }
    }
  }

  lemma StepDisjoint(P: seq<set<State>>, Q: set<State>, idx: nat, N: seq<set<State>>, parts: seq<set<State>>)
    requires Disjoint(N) && Disjoint(parts) && MembersBelow(P, Q, idx, N)
    requires forall y, s :: 0 <= y < |parts| && s in parts[y] ==> s in Q && BlockOf(P, s) == idx
    ensures Disjoint(N + parts)
  {
    var N' := N + parts;
    forall x, y | 0 <= x < y < |N'| ensures N'[x] !! N'[y] {
      if y < |N| {
        assert N'[x] == N[x] && N'[y] == N[y];
      } else if x >= |N| {
        assert N'[x] == parts[x - |N|] && N'[y] == parts[y - |N|];
      } else {
        assert N'[x] == N[x] && N'[y] == parts[y - |N|];
        forall z | z in N'[x] ensures z !in N'[y] {
          assert BlockOf(P, z) < idx;
        }
      }
    }
  }

  lemma StepNoEmpty(N: seq<set<State>>, parts: seq<set<State>>)
    requires NoEmptyBlock(N) && NoEmptyBlock(parts)
    ensures NoEmptyBlock(N + parts)
  {
    var N' := N + parts;
    forall x | 0 <= x < |N'| ensures N'[x] != {} {
      if x < |N| { NoEmptyAt(N, x); assert N'[x] == N[x]; }
      else { NoEmptyAt(parts, x - |N|); assert N'[x] == parts[x - |N|]; }
    }
    NoEmptyIntro(N');
  }

  lemma StepCovered(P: seq<set<State>>, Q: set<State>, idx: nat, N: seq<set<State>>, parts: seq<set<State>>)
    requires IsPartition(P, Q) && idx < |P| && Covers(parts, P[idx]) && CoveredBelow(P, Q, idx, N)
    ensures CoveredBelow(P, Q, idx + 1, N + parts)
  {
    var N' := N + parts;
    forall s | s in Q && BlockOf(P, s) < idx + 1 ensures BlockOf(N', s) < |N'| {
      if BlockOf(P, s) < idx {
        var x := BlockOf(N, s);
        assert s in N'[x];
      } else {
        var y := BlockOf(parts, s);
        assert s in N'[|N| + y];
      }
    }
  }

  lemma StepGrouped<K(!new)>(key: State -> K, P: seq<set<State>>, Q: set<State>, idx: nat, N: seq<set<State>>, parts: seq<set<State>>)
    requires IsPartition(P, Q) && idx < |P| && IsGrouping(key, P[idx], parts)
    requires MembersBelow(P, Q, idx, N) && GroupedBelow(key, P, Q, idx, N)
    requires forall y, s :: 0 <= y < |parts| && s in parts[y] ==> s in Q && BlockOf(P, s) == idx
    ensures GroupedBelow(key, P, Q, idx + 1, N + parts)
  {
    forall s, t | s in Q && t in Q && BlockOf(P, s) < idx + 1
      ensures Together(N + parts, s, t) <==> BlockOf(P, s) == BlockOf(P, t) && key(s) == key(t)
    {
      TogetherAppend(N, parts, s, t);
      if BlockOf(P, s) == idx && BlockOf(P, t) == idx && key(s) == key(t) {
        BlockOfIndex(P, s, idx);
        BlockOfIndex(P, t, idx);
        var y := BlockOf(parts, s);
        assert s in parts[y] && t in parts[y];
      }
    }
  }

  /** Being together in a concatenation is being together in one of its halves. */
  lemma TogetherAppend(N: seq<set<State>>, parts: seq<set<State>>, s: State, t: State)
    ensures Together(N + parts, s, t) <==> Together(N, s, t) || Together(parts, s, t)
  {
    var N' := N + parts;
    if Together(N', s, t) {
      var x :| 0 <= x < |N'| && s in N'[x] && t in N'[x];
      if x < |N| { assert N'[x] == N[x]; } else { assert N'[x] == parts[x - |N|]; }
    }
    if Together(N, s, t) {
      var x :| 0 <= x < |N| && s in N[x] && t in N[x];
      assert N'[x] == N[x];
    }
    if Together(parts, s, t) {
      var y :| 0 <= y < |parts| && s in parts[y] && t in parts[y];
      assert N'[|N| + y] == parts[y];
    }
  }

  /** A round either reproduces the blocks seen so far, or has produced more
      sub-blocks than blocks, or has met an empty block. */
  lemma RoundProgress(P: seq<set<State>>, idx: nat, N: seq<set<State>>, parts: seq<set<State>>)
    requires idx < |P| && IsPartition(parts, P[idx]) && NoEmptyBlock(parts)
    requires N == P[..idx] || |N| > idx || {} in P[..idx]
    ensures N + parts == P[..idx + 1] || |N + parts| > idx + 1 || {} in P[..idx + 1]
  {
    assert P[..idx + 1] == P[..idx] + [P[idx]];
    if {} in P[..idx] {
      var x :| 0 <= x < idx && P[..idx][x] == {};
      assert P[..idx + 1][x] == {};
    } else if P[idx] == {} {
      assert P[..idx + 1][idx] == {};
    } else if |parts| == 1 {
      NoEmptyAt(parts, 0);
      assert parts[0] == P[idx] by {
        forall s | s in P[idx] ensures s in parts[0] { assert BlockOf(parts, s) < 1; }
      }
      assert parts == [P[idx]];
    }
  }

  /** The source's loop over all blocks of one round. */
  method RefineRound(a: Dfa, P: seq<set<State>>, chains: seq<seq<Symbol>>) returns (N: seq<set<State>>)
    requires Total(a) && IsPartition(P, a.Q) && ChainsOver(a, chains)
    ensures IsPartition(N, a.Q) && NoEmptyBlock(N)
    ensures forall s, t :: s in a.Q && t in a.Q ==>
      (Together(N, s, t) <==> Together(P, s, t) && Signature(a, P, chains, s) == Signature(a, P, chains, t))
    ensures N == P || |N| > |P| || {} in P
  {
    ghost var key := SignatureOf(a, P, chains);
    N := [];
    assert RoundInvariant(key, P, a.Q, 0, N) by { NoEmptyIntro(N); }
    for idx := 0 to |P|
      invariant RoundInvariant(key, P, a.Q, idx, N)
    {
      var parts := SplitBlock(a, P, chains, P[idx]);
      RoundStep(key, P, a.Q, idx, N, parts);
      N := N + parts;
    }
    RoundResult(key, P, a.Q, N);
  }

  /** After the last block, the sub-blocks partition the states, and two
      states share one exactly when they shared a block and their keys agree. */
  lemma RoundResult<K(!new)>(key: State -> K, P: seq<set<State>>, Q: set<State>, N: seq<set<State>>)
    requires IsPartition(P, Q) && RoundInvariant(key, P, Q, |P|, N)
    ensures IsPartition(N, Q) && NoEmptyBlock(N)
    ensures forall s, t :: s in Q && t in Q ==> (Together(N, s, t) <==> Together(P, s, t) && key(s) == key(t))
    ensures N == P || |N| > |P| || {} in P
  {
    RoundCovers(P, Q, N);
    assert P[..|P|] == P;
    forall s, t | s in Q && t in Q
      ensures Together(N, s, t) <==> Together(P, s, t) && key(s) == key(t)
    {
      TogetherIffSameBlock(P, Q, s, t);
    }
  }

  lemma RoundCovers(P: seq<set<State>>, Q: set<State>, N: seq<set<State>>)
    requires IsPartition(P, Q) && MembersBelow(P, Q, |P|, N) && CoveredBelow(P, Q, |P|, N)
    ensures Covers(N, Q)
  {
    forall x | 0 <= x < |N| ensures N[x] <= Q {
      forall s | s in N[x] ensures s in Q { }
    }
  }

  // ---------------------------------------------------------------------
  // What a round means for the language
  // ---------------------------------------------------------------------

  /** Two declared states share a block of `P` exactly when no word of length
      at most `m` separates them. */
  ghost predicate Represents(a: Dfa, P: seq<set<State>>, m: nat)
  {
    forall s, t :: s in a.Q && t in a.Q ==> (Together(P, s, t) <==> EquivUpTo(a, s, t, m))
  }

  /** The initial partition `[F, Q \ F]` separates exactly by acceptance. */
  lemma InitialRepresents(a: Dfa)
    requires WellFormed(a)
    ensures IsPartition([a.F, a.Q - a.F], a.Q)
    ensures Represents(a, [a.F, a.Q - a.F], 0)
  {
    var P := [a.F, a.Q - a.F];
    forall s, t | s in a.Q && t in a.Q
      ensures Together(P, s, t) <==> EquivUpTo(a, s, t, 0)
    {
      if EquivUpTo(a, s, t, 0) {
        assert IsWordOver([], a.Sigma) && Star(a, s, []) == s && Star(a, t, []) == t;
        if s in a.F { assert s in P[0] && t in P[0]; } else { assert s in P[1] && t in P[1]; }
      }
      if Together(P, s, t) {
        forall w | IsWordOver(w, a.Sigma) && |w| <= 0
          ensures Star(a, s, w) in a.F <==> Star(a, t, w) in a.F
        {
          assert w == [];
        }
      }
    }
  }

  /** A round at chain length `k <= m + 1` turns a partition that separates by
      words up to length `m` into one that separates by words up to `m + k`. */
  lemma RoundRepresents(a: Dfa, P: seq<set<State>>, N: seq<set<State>>, symbols: seq<Symbol>, k: nat, m: nat)
    requires Total(a) && IsPartition(P, a.Q) && Represents(a, P, m) && k <= m + 1
    requires forall c :: c in symbols <==> c in a.Sigma
    requires forall s, t :: s in a.Q && t in a.Q ==>
      (Together(N, s, t) <==>
        Together(P, s, t) && Signature(a, P, Chains(symbols, k), s) == Signature(a, P, Chains(symbols, k), t))
    ensures Represents(a, N, m + k)
  {
    forall s, t | s in a.Q && t in a.Q
      ensures Together(N, s, t) <==> EquivUpTo(a, s, t, m + k)
    {
      SignatureAgree(a, P, symbols, k, s, t);
      ExtendEquiv(a, s, t, m, k);
      forall w | IsWordOver(w, a.Sigma) && |w| == k
        ensures Together(P, Star(a, s, w), Star(a, t, w)) <==> EquivUpTo(a, Star(a, s, w), Star(a, t, w), m)
      {
        StarInQ(a, s, w);
        StarInQ(a, t, w);
      }
    }
  }
}
