/** The unit table of main.py: lower-cased unit spellings to the factor they
    stand for, shared by the inline suffixes, the block headers and the
    section headers. */
module Units {

  /** The factors a number is ever scaled by: none, or one the table lists. */
  type Factor = m: nat | m == 1 || m == 100 || m == 1000 || m == 1000000 witness 1

  const Multipliers: map<string, Factor> := map[
    " hundred" := 100,
    "k" := 1000,
    " thousand" := 1000,
    "m" := 1000000,
    " million" := 1000000,
    "($k)" := 1000,
    "($m)" := 1000000,
    " in thousands)" := 1000,
    " in millions)" := 1000000
  ]

  /** The inline suffix alternatives, in the order the pattern tries them;
      each is the lower-cased form a match folds to. */
  const InlineSuffixes: seq<string> := [" hundred", "k", " thousand", "m", " million"]

  /** Every inline suffix is a key of the table, and every key stands for a
      factor above 1, so a unit found always scales. */
  lemma UnitTable()
    ensures forall x :: x in InlineSuffixes ==> x in Multipliers
    ensures forall x :: x in Multipliers ==> Multipliers[x] > 1
  {
  }

  /** `v * m`, written out per factor so that every product has a literal
      side. */
  function Scaled(v: real, m: Factor): (r: real)
    ensures v >= 0.0 ==> v <= r
    ensures m == 1 ==> r == v
  {
    if m == 1 then v
    else if m == 100 then v * 100.0
    else if m == 1000 then v * 1000.0
    else v * 1000000.0
  }

  /** `Scaled` is the product. */
  lemma ScaledIsProduct(v: real, m: Factor)
    ensures Scaled(v, m) == v * m as real
  {
  }
}
