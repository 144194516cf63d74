/** The set literals `{name1,name2,...}` that fill the cells of a
    nondeterministic transition table, and how `load_transition_function`
    of `unreachable_states_removing.py` reads them back into sets of states. */
module SetLiteral {
  import opened Automata

  /** Python's `s[1:-1]`: the text between the first and the last character. */
  function Inner(s: string): string
  {
    if |s| < 2 then "" else s[1..|s| - 1]
  }

  /** Python's `s.split(',')`: the pieces between commas, always at least one. */
  function Split(s: string): (parts: seq<string>)
    ensures |parts| >= 1
    ensures forall p :: p in parts ==> ',' !in p
    decreases |s|
  {
    if s == [] then [""]
    else
      var rest := Split(s[1..]);
      if s[0] == ',' then [""] + rest else [[s[0]] + rest[0]] + rest[1..]
  }

  /** Python's `','.join(parts)`. */
  function Join(parts: seq<string>): string
    requires |parts| >= 1
    decreases |parts|
  {
    if |parts| == 1 then parts[0] else parts[0] + "," + Join(parts[1..])
  }

  /** The literal that lists `names` between braces; `{}` when there are none. */
  function Literal(names: seq<State>): string
  {
    "{" + (if names == [] then "" else Join(names)) + "}"
  }

  /** The set of states a cell is read as, exactly as the loader writes it:
      `set(cell[1:-1].split(','))`. */
  function Targets(cell: string): set<State>
  {
    set p | p in Split(Inner(cell))
  }

  /** The empty literal `{}` is read as the set holding the empty name. */
  lemma EmptyLiteralHasPhantomState()
    ensures Targets("{}") == {""}
    ensures Targets(Literal([])) != {}
  {
    assert Inner("{}") == "";
    assert Literal([]) == "{}";
  }

  /** The reading the table format means: `{}` is the empty set, any other
      literal the comma-separated names between the braces. */
  function TargetSet(cell: string): set<State>
  {
    if Inner(cell) == "" then {} else Targets(cell)
  }

  /** Splitting and joining again gives back the text. */
  lemma {:induction false} SplitJoin(s: string)
    ensures Join(Split(s)) == s
    decreases |s|
  {
    if s != [] {
      SplitJoin(s[1..]);
      var rest := Split(s[1..]);
      if s[0] == ',' {
        assert Join([""] + rest) == "" + "," + Join(rest) by { assert ([""] + rest)[1..] == rest; }
      } else if |rest| == 1 {
        assert s == [s[0]] + s[1..];
      } else {
        var parts := [[s[0]] + rest[0]] + rest[1..];
        assert parts[1..] == rest[1..];
        assert Join(rest) == rest[0] + "," + Join(rest[1..]);
        assert s == [s[0]] + s[1..];
      }
    }
  }

  /** Splitting a comma-free prefix followed by `t` extends the first piece of `t`. */
  lemma {:induction false} SplitPrefix(p: string, t: string)
    requires ',' !in p
    ensures Split(p + t) == [p + Split(t)[0]] + Split(t)[1..]
    decreases |p|
  {
    if p != [] {
      assert (p + t)[0] == p[0] && (p + t)[1..] == p[1..] + t;
      SplitPrefix(p[1..], t);
      assert [p[0]] + (p[1..] + Split(t)[0]) == p + Split(t)[0];
    } else {
      var parts := Split(t);
      assert p + t == t && p + parts[0] == parts[0];
      assert [parts[0]] + parts[1..] == parts;
    }
  }

  /** Joining comma-free pieces and splitting again gives back the pieces. */
  lemma {:induction false} JoinSplit(parts: seq<string>)
    requires |parts| >= 1 && forall p :: p in parts ==> ',' !in p
    ensures Split(Join(parts)) == parts
    decreases |parts|
  {
    var p := parts[0];
    if |parts| == 1 {
      SplitPrefix(p, "");
      assert p + "" == p;
    } else {
      assert parts[1] in parts;
      JoinSplit(parts[1..]);
      var t := "," + Join(parts[1..]);
      SplitPrefix(p, t);
      assert t[0] == ',' && t[1..] == Join(parts[1..]);
      assert Split(t) == [""] + parts[1..];
      assert p + t == parts[0] + "," + Join(parts[1..]);
      assert p + "" == p;
    }
  }

  /** Reading the literal of non-empty, comma-free names gives the set of those
      names; in particular `{}` gives the empty set. */
  lemma LiteralRoundTrip(names: seq<State>)
    requires forall n :: n in names ==> n != "" && ',' !in n
    ensures TargetSet(Literal(names)) == set n | n in names
  {
    var text := if names == [] then "" else Join(names);
    assert Inner(Literal(names)) == text;
    if names != [] {
      JoinSplit(names);
      assert names[0] in names;
      assert names[0] <= text;
    }
  }
}
