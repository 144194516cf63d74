/** Decimal rendering of block indices, used to name the states of the
    minimized automaton (`'q' + str(i)`) and, in the source, to build the
    textual signature of a state. */
module StateNames {
  import opened Automata

  /** The decimal digit character for `d`. */
  function DigitChar(d: nat): (ch: char)
    requires d < 10
    ensures '0' <= ch <= '9' && ch as int - '0' as int == d
  {
    (d + '0' as int) as char
  }

  /** `str(n)` for a natural number: its decimal digits, most significant first. */
  function DecimalString(n: nat): (r: string)
    ensures |r| >= 1
    ensures forall i :: 0 <= i < |r| ==> '0' <= r[i] <= '9'
  {
    if n < 10 then [DigitChar(n)] else DecimalString(n / 10) + [DigitChar(n % 10)]
  }

  /** Reads a string of decimal digits back as a number. */
  function ParseDecimal(s: string): nat
    requires forall i :: 0 <= i < |s| ==> '0' <= s[i] <= '9'
  {
    if s == [] then 0
    else ParseDecimal(s[..|s| - 1]) * 10 + (s[|s| - 1] as int - '0' as int)
  }

  /** Reading back the decimal rendering gives the number. */
  lemma {:induction false} ParseDecimalString(n: nat)
    ensures ParseDecimal(DecimalString(n)) == n
  {
    var s := DecimalString(n);
    if n >= 10 {
      assert s[..|s| - 1] == DecimalString(n / 10);
      ParseDecimalString(n / 10);
    } else {
      assert s[..0] == [];
    }
  }

  /** The name `'q' + str(i)` that the minimized automaton gives block `i`. */
  function Name(i: nat): State
  {
    "q" + DecimalString(i)
  }

  /** Distinct blocks get distinct names, and block 0 is named like the
      default start state. */
  lemma NameInjective(i: nat, j: nat)
    ensures Name(i) == Name(j) <==> i == j
    ensures Name(0) == "q0"
  {
    if Name(i) == Name(j) {
      assert Name(i)[1..] == DecimalString(i);
      assert Name(j)[1..] == DecimalString(j);
      ParseDecimalString(i);
      ParseDecimalString(j);
    }
  }

  /** The states `q0`, ..., `q(n-1)` of a minimized automaton with `n` blocks. */
  function NamesBelow(n: nat): (r: set<State>)
    ensures forall i :: 0 <= i < n ==> Name(i) in r
  {
    set i | 0 <= i < n :: Name(i)
  }

  /** A name is among the first `n` exactly when its index is below `n`. */
  lemma NamesBelowMember(n: nat, i: nat)
    ensures Name(i) in NamesBelow(n) <==> i < n
  {
    if Name(i) in NamesBelow(n) {
      var j :| 0 <= j < n && Name(j) == Name(i);
      NameInjective(i, j);
    }
  }

  /** The textual signature key the source builds for a state: the decimal
      indices of the blocks reached, concatenated with no separator. */
  function SignatureText(indices: seq<nat>): (r: string)
    ensures forall i :: 0 <= i < |r| ==> '0' <= r[i] <= '9'
    ensures |r| >= |indices|
  {
    if indices == [] then [] else SignatureText(indices[..|indices| - 1]) + DecimalString(indices[|indices| - 1])
  }

  /** Two different block-index sequences share one textual key: "1" + "12"
      and "11" + "2" are both "112", which needs a block with index 12, so a
      round with at least 13 blocks. */
  lemma SignatureTextCollides()
    ensures [1, 12] != [11, 2]
    ensures SignatureText([1, 12]) == SignatureText([11, 2]) == "112"
  {
    assert [1, 12][..1] == [1];
    assert [11, 2][..1] == [11];
    assert DecimalString(12) == DecimalString(1) + [DigitChar(2)];
    assert DecimalString(11) == DecimalString(1) + [DigitChar(1)];
  }
}
