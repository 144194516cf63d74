/** The row decoding that both `load_transition_function` methods share: a
    header row `marker; name; symbol...` and one data row `+|-; state; cell...`
    per state. The rows are what the CSV reader yields; opening and reading
    the file is not part of this model. */
module TableLoading {
  import opened Automata

  /** Python's `row[2:]`: the cells after the marker and the state name. */
  function CellsOf(row: seq<string>): seq<string>
  {
    if |row| < 2 then [] else row[2..]
  }

  /** The symbols named by the header row, in column order. */
  function Symbols(rows: seq<seq<string>>): seq<Symbol>
  {
    if rows == [] then [] else CellsOf(rows[0])
  }

  /** The rows after the header. */
  function DataRows(rows: seq<seq<string>>): seq<seq<string>>
  {
    if rows == [] then [] else rows[1..]
  }

  /** No data row has more cells than there are symbols; a longer row makes
      the loader index past the end of the header. */
  predicate FitsHeader(symbols: seq<Symbol>, data: seq<seq<string>>)
  {
    forall r :: 0 <= r < |data| ==> |data[r]| <= |symbols| + 2
  }

  /** The alphabet after loading: the header's symbols, or `previous` without a header. */
  function Alphabet(rows: seq<seq<string>>, previous: set<Symbol>): set<Symbol>
  {
    if rows == [] then previous else set c | c in Symbols(rows)
  }

  /** The state a row names, if it is long enough to name one. */
  function NameOf(row: seq<string>): set<State>
  {
    if |row| >= 2 then {row[1]} else {}
  }

  /** The state a row names, if it names one and is marked `+`. */
  function FinalNameOf(row: seq<string>): set<State>
  {
    if |row| >= 2 && row[0] == "+" then {row[1]} else {}
  }

  /** The states named by the data rows. */
  function States(data: seq<seq<string>>): set<State>
    decreases |data|
  {
    if data == [] then {} else States(data[..|data| - 1]) + NameOf(data[|data| - 1])
  }

  /** The states named by the data rows marked `+`. */
  function Finals(data: seq<seq<string>>): set<State>
    decreases |data|
  {
    if data == [] then {} else Finals(data[..|data| - 1]) + FinalNameOf(data[|data| - 1])
  }

  /** The start state after loading: the state of the first data row, or `previous`
      when there is none. */
  function Start(rows: seq<seq<string>>, previous: State): State
  {
    if |rows| >= 2 && |rows[1]| >= 2 then rows[1][1] else previous
  }

  /** `d` after writing the first `n` cells of the row of `state`, the `j`-th
      under the `j`-th symbol. */
  function PutCells(d: map<(State, Symbol), string>, state: State, symbols: seq<Symbol>, cells: seq<string>, n: nat)
    : map<(State, Symbol), string>
    requires n <= |cells| && n <= |symbols|
  {
    if n == 0 then d else PutCells(d, state, symbols, cells, n - 1)[(state, symbols[n - 1]) := cells[n - 1]]
  }

  /** The number of cells of a row that have a symbol above them. */
  function Width(symbols: seq<Symbol>, row: seq<string>): nat
  {
    if |row| < 2 then 0 else if |row| - 2 <= |symbols| then |row| - 2 else |symbols|
  }

  /** `d` after writing the cells of one data row. (A row with more cells than
      symbols makes the loader fail; see `FitsHeader`.) */
  function AddRow(d: map<(State, Symbol), string>, symbols: seq<Symbol>, row: seq<string>): map<(State, Symbol), string>
  {
    if |row| < 2 then d else PutCells(d, row[1], symbols, row[2..], Width(symbols, row))
  }

  /** The cells of the data rows by (state, symbol); a later write of the
      same key replaces an earlier one, as in the loader's dictionary. */
  function Table(symbols: seq<Symbol>, data: seq<seq<string>>): map<(State, Symbol), string>
    decreases |data|
  {
    if data == [] then map[] else AddRow(Table(symbols, data[..|data| - 1]), symbols, data[|data| - 1])
  }

  /** Every data row has one cell per symbol. */
  predicate FullRows(symbols: seq<Symbol>, data: seq<seq<string>>)
  {
    forall r :: 0 <= r < |data| ==> |data[r]| == |symbols| + 2
  }

  /** No two data rows name the same state. */
  predicate DistinctStates(data: seq<seq<string>>)
  {
    forall r, r' :: 0 <= r < |data| && 0 <= r' < |data| && r != r' && |data[r]| >= 2 && |data[r']| >= 2 ==>
      data[r][1] != data[r'][1]
  }

  /** No two header columns name the same symbol. */
  predicate DistinctSymbols(symbols: seq<Symbol>)
  {
    forall i, j :: 0 <= i < |symbols| && 0 <= j < |symbols| && i != j ==> symbols[i] != symbols[j]
  }

  /** Appending a data row adds its state. */
  lemma StatesSnoc(data: seq<seq<string>>, row: seq<string>)
    ensures States(data + [row]) == States(data) + NameOf(row)
    ensures Finals(data + [row]) == Finals(data) + FinalNameOf(row)
  {
    assert (data + [row])[..|data|] == data;
  }

  /** The states are the names in the data rows, and the final states are among them. */
  lemma {:induction false} StatesMembers(data: seq<seq<string>>)
    ensures forall s :: s in States(data) <==> exists r :: 0 <= r < |data| && |data[r]| >= 2 && data[r][1] == s
    ensures Finals(data) <= States(data)
    decreases |data|
  {
    if data != [] {
      var init := data[..|data| - 1];
      StatesMembers(init);
      forall s ensures s in States(data) <==> exists r :: 0 <= r < |data| && |data[r]| >= 2 && data[r][1] == s {
        if s in States(init) {
          var r :| 0 <= r < |init| && |init[r]| >= 2 && init[r][1] == s;
          assert data[r] == init[r];
        }
        if exists r :: 0 <= r < |data| && |data[r]| >= 2 && data[r][1] == s {
          var r :| 0 <= r < |data| && |data[r]| >= 2 && data[r][1] == s;
          if r < |init| {
            assert data[r] == init[r];
          }
        }
      }
    }
  }

  /** The keys the first `n` cells of a row write. */
  lemma {:induction false} PutCellsKeys(d: map<(State, Symbol), string>, state: State, symbols: seq<Symbol>, cells: seq<string>, n: nat)
    requires n <= |cells| && n <= |symbols|
    ensures forall k :: k in PutCells(d, state, symbols, cells, n) <==>
      k in d || exists j :: 0 <= j < n && k == (state, symbols[j])
  {
    if n > 0 {
      PutCellsKeys(d, state, symbols, cells, n - 1);
    }
  }

  /** Some data row for the state `k.0` has a cell under the symbol `k.1`. */
  ghost predicate Written(symbols: seq<Symbol>, data: seq<seq<string>>, k: (State, Symbol))
  {
    exists r, j :: 0 <= r < |data| && 0 <= j < |data[r]| - 2 && j < |symbols| && k == (data[r][1], symbols[j])
  }

  /** The table has an entry for (state, symbol) exactly when some data row
      for that state has a cell under that symbol. */
  lemma {:induction false} TableKeys(symbols: seq<Symbol>, data: seq<seq<string>>)
    ensures forall k :: k in Table(symbols, data) <==> Written(symbols, data, k)
    decreases |data|
  {
    if data != [] {
      var init, row := data[..|data| - 1], data[|data| - 1];
      TableKeys(symbols, init);
      if |row| >= 2 {
        PutCellsKeys(Table(symbols, init), row[1], symbols, row[2..], Width(symbols, row));
      }
      forall k ensures k in Table(symbols, data) <==> Written(symbols, data, k) {
        if k in Table(symbols, data) {
          if k !in Table(symbols, init) {
            var j :| 0 <= j < Width(symbols, row) && k == (row[1], symbols[j]);
            assert data[|data| - 1] == row;
          } else {
            var r, j :| 0 <= r < |init| && 0 <= j < |init[r]| - 2 && j < |symbols| && k == (init[r][1], symbols[j]);
            assert data[r] == init[r];
          }
        }
        if Written(symbols, data, k) {
          var r, j :| 0 <= r < |data| && 0 <= j < |data[r]| - 2 && j < |symbols| && k == (data[r][1], symbols[j]);
          if r < |init| {
            assert data[r] == init[r];
            assert Written(symbols, init, k);
          } else {
            assert k == (row[1], symbols[j]);
          }
        }
      }
    }
  }

  /** A cell of the row being written is found under its own symbol. */
  lemma {:induction false} PutCellsValue(d: map<(State, Symbol), string>, state: State, symbols: seq<Symbol>, cells: seq<string>, n: nat, j: nat)
    requires n <= |cells| && n <= |symbols| && j < n && DistinctSymbols(symbols)
    ensures (state, symbols[j]) in PutCells(d, state, symbols, cells, n)
    ensures PutCells(d, state, symbols, cells, n)[(state, symbols[j])] == cells[j]
  {
    if j < n - 1 {
      PutCellsValue(d, state, symbols, cells, n - 1, j);
    }
  }

  /** Writing the row of one state leaves the entries of every other state alone. */
  lemma {:induction false} PutCellsOther(d: map<(State, Symbol), string>, state: State, symbols: seq<Symbol>, cells: seq<string>, n: nat, k: (State, Symbol))
    requires n <= |cells| && n <= |symbols| && k.0 != state && k in d
    ensures k in PutCells(d, state, symbols, cells, n) && PutCells(d, state, symbols, cells, n)[k] == d[k]
  {
    if n > 0 {
      PutCellsOther(d, state, symbols, cells, n - 1, k);
    }
  }

  /** With distinct states and distinct symbols, the table holds each cell
      under its row's state and its column's symbol. */
  lemma {:induction false} TableCell(symbols: seq<Symbol>, data: seq<seq<string>>, r: nat, j: nat)
    requires DistinctStates(data) && DistinctSymbols(symbols)
    requires r < |data| && j + 2 < |data[r]| && j < |symbols|
    ensures (data[r][1], symbols[j]) in Table(symbols, data)
    ensures Table(symbols, data)[(data[r][1], symbols[j])] == data[r][j + 2]
    decreases |data|
  {
    var init, row := data[..|data| - 1], data[|data| - 1];
    if r == |data| - 1 {
      PutCellsValue(Table(symbols, init), row[1], symbols, row[2..], Width(symbols, row), j);
    } else {
      assert init[r] == data[r];
      assert DistinctStates(init) by {
        forall r1, r2 | 0 <= r1 < |init| && 0 <= r2 < |init| && r1 != r2 && |init[r1]| >= 2 && |init[r2]| >= 2
          ensures init[r1][1] != init[r2][1]
        {
          assert init[r1] == data[r1] && init[r2] == data[r2];
        }
      }
      TableCell(symbols, init, r, j);
      if |row| >= 2 {
        assert row[1] != data[r][1];
        PutCellsOther(Table(symbols, init), row[1], symbols, row[2..], Width(symbols, row), (data[r][1], symbols[j]));
      }
    }
  }

  /** Every entry the first `n` cells of a row write is one of those cells. */
  lemma {:induction false} PutCellsValues(d: map<(State, Symbol), string>, state: State, symbols: seq<Symbol>, cells: seq<string>, n: nat, k: (State, Symbol))
    requires n <= |cells| && n <= |symbols| && k in PutCells(d, state, symbols, cells, n)
    ensures (k in d && PutCells(d, state, symbols, cells, n)[k] == d[k]) ||
      exists j :: 0 <= j < n && PutCells(d, state, symbols, cells, n)[k] == cells[j]
  {
    if n > 0 && k != (state, symbols[n - 1]) {
      PutCellsValues(d, state, symbols, cells, n - 1, k);
    }
  }

  /** Every entry of the table is one of the cells. */
  lemma {:induction false} TableValues(symbols: seq<Symbol>, data: seq<seq<string>>, k: (State, Symbol))
    requires k in Table(symbols, data)
    ensures exists r, j :: 0 <= r < |data| && 0 <= j < |CellsOf(data[r])| && Table(symbols, data)[k] == CellsOf(data[r])[j]
    decreases |data|
  {
    var init, row := data[..|data| - 1], data[|data| - 1];
    var d := Table(symbols, init);
    if |row| >= 2 {
      PutCellsValues(d, row[1], symbols, row[2..], Width(symbols, row), k);
    }
    if |row| >= 2 && exists j :: 0 <= j < Width(symbols, row) && Table(symbols, data)[k] == row[2..][j] {
      var j :| 0 <= j < Width(symbols, row) && Table(symbols, data)[k] == row[2..][j];
      assert CellsOf(data[|data| - 1]) == row[2..];
    } else {
      TableValues(symbols, init, k);
      var r, j :| 0 <= r < |init| && 0 <= j < |CellsOf(init[r])| && d[k] == CellsOf(init[r])[j];
      assert data[r] == init[r];
    }
  }

  /** Adding a data row to the table adds its cells. */
  lemma TableSnoc(symbols: seq<Symbol>, data: seq<seq<string>>, row: seq<string>)
    ensures Table(symbols, data + [row]) == AddRow(Table(symbols, data), symbols, row)
  {
    assert (data + [row])[..|data|] == data;
  }

  /** What the loader has gathered so far: the header's symbols, the
      alphabet, the states, the final states, the start state and the cells
      by (state, symbol). */
  datatype Loading = Loading(
    symbols: seq<Symbol>,
    sigma: set<Symbol>,
    states: set<State>,
    finals: set<State>,
    start: State,
    cells: map<(State, Symbol), string>)

  /** Reading row `n` of the table; row 0 is the header. */
  function ReadRow(st: Loading, n: nat, row: seq<string>): Loading
  {
    if n == 0 then st.(symbols := CellsOf(row), sigma := set c | c in CellsOf(row))
    else st.(states := st.states + NameOf(row), finals := st.finals + FinalNameOf(row),
             start := if n == 1 && |row| >= 2 then row[1] else st.start,
             cells := AddRow(st.cells, st.symbols, row))
  }

  /** Reading the first `n` rows one after the other, starting from `init`. */
  function ReadRows(rows: seq<seq<string>>, n: nat, init: Loading): Loading
    requires n <= |rows|
  {
    if n == 0 then init else ReadRow(ReadRows(rows, n - 1, init), n - 1, rows[n - 1])
  }

  /** What reading the whole of `rows` onto `init` means: the header's
      symbols and alphabet, the states and final states of the data rows
      added to those already there, the state of the first data row as start
      state, and the table of all cells. */
  function Expected(rows: seq<seq<string>>, init: Loading): Loading
  {
    Loading(Symbols(rows), Alphabet(rows, init.sigma),
      init.states + States(DataRows(rows)), init.finals + Finals(DataRows(rows)),
      Start(rows, init.start), Table(Symbols(rows), DataRows(rows)))
  }

  /** Reading the header onto an empty loader gives what the header means. */
  lemma ReadHeader(row: seq<string>, init: Loading)
    requires init.symbols == [] && init.cells == map[]
    ensures Expected([row], init) == ReadRow(Expected([], init), 0, row)
  {
    assert DataRows([row]) == [];
  }

  /** Reading one more data row extends what the rows before it mean. */
  lemma ReadDataRow(prefix: seq<seq<string>>, row: seq<string>, init: Loading)
    requires prefix != []
    ensures Expected(prefix + [row], init) == ReadRow(Expected(prefix, init), |prefix|, row)
  {
    var rows := prefix + [row];
    assert rows[0] == prefix[0];
    assert DataRows(rows) == DataRows(prefix) + [row];
    StatesSnoc(DataRows(prefix), row);
    TableSnoc(Symbols(prefix), DataRows(prefix), row);
    if |prefix| == 1 {
      assert rows[1] == row;
    } else {
      assert rows[1] == prefix[1];
    }
  }

  /** The rows of a table, read one after the other from an empty transition
      dictionary, mean what `Expected` says. */
  lemma {:induction false} ReadRowsMeaning(rows: seq<seq<string>>, n: nat, init: Loading)
    requires n <= |rows| && init.symbols == [] && init.cells == map[]
    ensures ReadRows(rows, n, init) == Expected(rows[..n], init)
  {
    if n == 0 {
      assert Table([], []) == map[];
    } else {
      ReadRowsMeaning(rows, n - 1, init);
      assert rows[..n] == rows[..n - 1] + [rows[n - 1]];
      if n == 1 {
        ReadHeader(rows[0], init);
        assert rows[..0] == [];
      } else {
        ReadDataRow(rows[..n - 1], rows[n - 1], init);
      }
    }
  }

  /** The same for the whole table. */
  lemma ReadAllRows(rows: seq<seq<string>>, init: Loading)
    requires init.symbols == [] && init.cells == map[]
    ensures ReadRows(rows, |rows|, init) == Expected(rows, init)
  {
    ReadRowsMeaning(rows, |rows|, init);
    assert rows[..|rows|] == rows;
  }
}
