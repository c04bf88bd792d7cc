/** The fixed-length patterns main.py searches for or splits on, one leftmost
    search over them, and the splitter built on it.

    - BlankLine: the "\n\n" of `text.split("\n\n")` (main.py:72).
    - FundHeading: `\nFund \d` of `re.split` (main.py:96).
    - UnitHeader: `(?i)(\(\$K\)|\(\$M\))` (main.py:79).
    - ScaleDeclaration: `( in Thousands\)| in Millions\))`, case-sensitive (main.py:103). */
module Patterns {
  import opened Text

  datatype Pattern = BlankLine | FundHeading | UnitHeader | ScaleDeclaration

  /** Length of the match of `pat` at position `i` of `s`, 0 when there is
      none. No pattern matches the empty string. */
  function MatchLength(pat: Pattern, s: string, i: nat): (n: nat)
    requires i <= |s|
    ensures n > 0 ==> i + n <= |s|
  {
    match pat
    case BlankLine =>
      if i + 2 <= |s| && s[i] == '\n' && s[i + 1] == '\n' then 2 else 0
    case FundHeading =>
      if i + 7 <= |s| && s[i] == '\n' && s[i + 1] == 'F' && s[i + 2] == 'u' && s[i + 3] == 'n'
         && s[i + 4] == 'd' && s[i + 5] == ' ' && IsDigit(s[i + 6])
      then 7 else 0
    case UnitHeader =>
      if i + 4 <= |s| && s[i] == '(' && s[i + 1] == '$' && LowerChar(s[i + 2]) in {'k', 'm'} && s[i + 3] == ')'
      then 4 else 0
    case ScaleDeclaration =>
      if i + 13 <= |s| && s[i] == ' ' && s[i + 1] == 'i' && s[i + 2] == 'n' && s[i + 3] == ' ' then
        if i + 14 <= |s| && s[i + 4] == 'T' && s[i + 5] == 'h' && s[i + 6] == 'o' && s[i + 7] == 'u'
           && s[i + 8] == 's' && s[i + 9] == 'a' && s[i + 10] == 'n' && s[i + 11] == 'd' && s[i + 12] == 's'
           && s[i + 13] == ')'
        then 14
        else if s[i + 4] == 'M' && s[i + 5] == 'i' && s[i + 6] == 'l' && s[i + 7] == 'l' && s[i + 8] == 'i'
           && s[i + 9] == 'o' && s[i + 10] == 'n' && s[i + 11] == 's' && s[i + 12] == ')'
        then 13
        else 0
      else 0
  }

  /** The match lengths of `pat` at every position of `s` (positions 0 to
      `|s|`). The search and the splitter below work on such a table. */
  function MatchTable(pat: Pattern, s: string): (m: seq<nat>)
    ensures IsTable(s, m)
    ensures forall q {:trigger MatchLength(pat, s, q)} :: 0 <= q <= |s| ==> m[q] == MatchLength(pat, s, q)
  {
    seq(|s| + 1, q requires 0 <= q <= |s| => MatchLength(pat, s, q))
  }

  /** `m` gives, for each position of `s`, the length of a match starting
      there (0 for none), and no match runs past the end. */
  predicate IsTable(s: string, m: seq<nat>) {
    |m| == |s| + 1 && forall q :: 0 <= q < |m| ==> q + m[q] <= |s|
  }

  /** `re.search` from `i`: the leftmost position holding a match. */
  function SearchFrom(s: string, m: seq<nat>, i: nat): (r: Option<nat>)
    requires IsTable(s, m) && i <= |s|
    ensures r.Some? ==> i <= r.value < |s| && m[r.value] > 0
    ensures r.Some? ==> forall q :: i <= q < r.value ==> m[q] == 0
    ensures r.None? ==> forall q :: i <= q <= |s| ==> m[q] == 0
    decreases |s| - i
  {
    if i == |s| then None
    else if m[i] > 0 then Some(i)
    else SearchFrom(s, m, i + 1)
  }

  /** The pieces `split` returns, cutting `s[i..]` at each leftmost match
      and dropping the match. */
  function PiecesFrom(s: string, m: seq<nat>, i: nat): seq<string>
    requires IsTable(s, m) && i <= |s|
    decreases |s| - i
  {
    match SearchFrom(s, m, i)
    case None => [s[i..]]
    case Some(p) => [s[i..p]] + PiecesFrom(s, m, p + m[p])
  }

  /** The matches `split` drops, in order. */
  function SeparatorsFrom(s: string, m: seq<nat>, i: nat): seq<string>
    requires IsTable(s, m) && i <= |s|
    decreases |s| - i
  {
    match SearchFrom(s, m, i)
    case None => []
    case Some(p) => [s[p..p + m[p]]] + SeparatorsFrom(s, m, p + m[p])
  }

  /** Matches counted the way `str.count` finds them: left to right, each
      match consumed whole before looking again. */
  function CountFrom(s: string, m: seq<nat>, i: nat): nat
    requires IsTable(s, m) && i <= |s|
    decreases |s| - i
  {
    if i == |s| then 0
    else if m[i] > 0 then 1 + CountFrom(s, m, i + m[i])
    else CountFrom(s, m, i + 1)
  }

  /** `s.count(sep)` for the pattern. */
  function Occurrences(pat: Pattern, s: string): nat {
    CountFrom(s, MatchTable(pat, s), 0)
  }

  /** `re.search(pat, s)`. */
  function Search(pat: Pattern, s: string): (r: Option<nat>)
    ensures r.Some? ==> r.value < |s| && MatchLength(pat, s, r.value) > 0
    ensures r.Some? ==> forall q :: 0 <= q < r.value ==> MatchLength(pat, s, q) == 0
    ensures r.None? ==> forall q :: 0 <= q <= |s| ==> MatchLength(pat, s, q) == 0
  {
    SearchFrom(s, MatchTable(pat, s), 0)
  }

  /** `s.split(sep)` and `re.split(pat, s)` for a pattern without groups. */
  function Pieces(pat: Pattern, s: string): seq<string> {
    PiecesFrom(s, MatchTable(pat, s), 0)
  }

  /** The matches `split` drops: one fewer than the pieces. */
  function Separators(pat: Pattern, s: string): (r: seq<string>)
    ensures |r| + 1 == |Pieces(pat, s)|
  {
    TableLengths(s, MatchTable(pat, s), 0);
    SeparatorsFrom(s, MatchTable(pat, s), 0)
  }

  /** Pieces with the separators put back between them. */
  function Interleave(pieces: seq<string>, separators: seq<string>): string
    requires |pieces| == |separators| + 1
  {
    if separators == [] then pieces[0]
    else pieces[0] + separators[0] + Interleave(pieces[1..], separators[1..])
  }

  /** Pieces joined with one separator, `sep.join(pieces)`. */
  function Join(pieces: seq<string>, sep: string): string
    requires |pieces| >= 1
  {
    if |pieces| == 1 then pieces[0] else pieces[0] + sep + Join(pieces[1..], sep)
  }

  // ---------------------------------------------------------------------
  // The splitter over any match table

  /** Nothing is lost: the pieces with the dropped matches between them give
      back the text. */
  lemma {:induction false} TableSplitReassembles(s: string, m: seq<nat>, i: nat)
    requires IsTable(s, m) && i <= |s|
    ensures |PiecesFrom(s, m, i)| == |SeparatorsFrom(s, m, i)| + 1
    ensures Interleave(PiecesFrom(s, m, i), SeparatorsFrom(s, m, i)) == s[i..]
    decreases |s| - i
  {
    TableLengths(s, m, i);
    if SearchFrom(s, m, i).Some? {
      var p := SearchFrom(s, m, i).value;
      var j := p + m[p];
      TableSplitReassembles(s, m, j);
      InterleaveCons(s[i..p], s[p..j], PiecesFrom(s, m, j), SeparatorsFrom(s, m, j));
      assert s[i..] == s[i..p] + s[p..j] + s[j..];
    }
  }

  lemma InterleaveCons(piece: string, sep: string, pieces: seq<string>, separators: seq<string>)
    requires |pieces| == |separators| + 1
    ensures Interleave([piece] + pieces, [sep] + separators) == piece + sep + Interleave(pieces, separators)
  {
    assert ([piece] + pieces)[1..] == pieces;
    assert ([sep] + separators)[1..] == separators;
  }

  lemma {:induction false} TableLengths(s: string, m: seq<nat>, i: nat)
    requires IsTable(s, m) && i <= |s|
    ensures |PiecesFrom(s, m, i)| == |SeparatorsFrom(s, m, i)| + 1
    decreases |s| - i
  {
    if SearchFrom(s, m, i).Some? {
      var p := SearchFrom(s, m, i).value;
      TableLengths(s, m, p + m[p]);
    }
  }

  /** Positions without a match add nothing to the count. */
  lemma {:induction false} TableCountSkips(s: string, m: seq<nat>, i: nat, p: nat)
    requires IsTable(s, m) && i <= p <= |s|
    requires forall q :: i <= q < p ==> m[q] == 0
    ensures CountFrom(s, m, i) == CountFrom(s, m, p)
    decreases p - i
  {
    if i < p {
      TableCountSkips(s, m, i + 1, p);
    }
  }

  /** There is one more piece than there are matches. */
  lemma {:induction false} TablePieceCount(s: string, m: seq<nat>, i: nat)
    requires IsTable(s, m) && i <= |s|
    ensures |PiecesFrom(s, m, i)| == CountFrom(s, m, i) + 1
    decreases |s| - i
  {
    match SearchFrom(s, m, i)
    case None =>
      TableCountSkips(s, m, i, |s|);
    case Some(p) =>
      TablePieceCount(s, m, p + m[p]);
      TableCountSkips(s, m, i, p);
  }

  /** Piece `k` is a stretch of `s`, starting at `lo`, in which the table
      records no match. */
  lemma {:induction false} TablePieceAt(s: string, m: seq<nat>, i: nat, k: nat) returns (lo: nat)
    requires IsTable(s, m) && i <= |s| && k < |PiecesFrom(s, m, i)|
    ensures i <= lo && lo + |PiecesFrom(s, m, i)[k]| <= |s|
    ensures PiecesFrom(s, m, i)[k] == s[lo..lo + |PiecesFrom(s, m, i)[k]|]
    ensures forall q :: lo <= q < lo + |PiecesFrom(s, m, i)[k]| ==> m[q] == 0
    decreases |s| - i
  {
    match SearchFrom(s, m, i)
    case None =>
      lo := i;
    case Some(p) =>
      var j := p + m[p];
      var rest := PiecesFrom(s, m, j);
      assert PiecesFrom(s, m, i) == [s[i..p]] + rest;
      if k == 0 {
        lo := i;
      } else {
        assert PiecesFrom(s, m, i)[k] == rest[k - 1];
        lo := TablePieceAt(s, m, j, k - 1);
      }
  }

  /** Separator `k` is a match the table records, cut out at exactly the
      length the table gives; `p` is where it was found. */
  lemma {:induction false} TableSeparatorAt(s: string, m: seq<nat>, i: nat, k: nat) returns (p: nat)
    requires IsTable(s, m) && i <= |s| && k < |SeparatorsFrom(s, m, i)|
    ensures i <= p < |s| && 0 < m[p] && p + m[p] <= |s|
    ensures SeparatorsFrom(s, m, i)[k] == s[p..p + m[p]]
    decreases |s| - i
  {
    var q := SearchFrom(s, m, i).value;
    var j := q + m[q];
    assert SeparatorsFrom(s, m, i) == [s[q..j]] + SeparatorsFrom(s, m, j);
    if k == 0 {
      p := q;
    } else {
      p := TableSeparatorAt(s, m, j, k - 1);
    }
  }

  // ---------------------------------------------------------------------
  // The splitter on the script's patterns

  /** The match found at `p`, cut out on its own, is still a whole match. */
  lemma MatchOfSlice(pat: Pattern, s: string, p: nat)
    requires p <= |s| && MatchLength(pat, s, p) > 0
    ensures MatchLength(pat, s[p..p + MatchLength(pat, s, p)], 0) == MatchLength(pat, s, p)
  {
  }

  lemma CutIsMatch(pat: Pattern, s: string, p: nat, sep: string)
    requires p <= |s| && MatchLength(pat, s, p) > 0 && sep == s[p..p + MatchLength(pat, s, p)]
    ensures |sep| > 0 && MatchLength(pat, sep, 0) == |sep|
  {
    MatchOfSlice(pat, s, p);
  }

  /** A match inside a slice is a match of the whole text at the shifted
      position, of the same length. */
  lemma MatchInSlice(pat: Pattern, s: string, lo: nat, hi: nat, q: nat)
    requires lo <= hi <= |s| && q <= hi - lo
    requires MatchLength(pat, s[lo..hi], q) > 0
    ensures MatchLength(pat, s, lo + q) == MatchLength(pat, s[lo..hi], q)
  {
  }

  /** Splitting loses nothing: pieces and separators interleaved give `s`. */
  lemma SplitReassembles(pat: Pattern, s: string)
    ensures |Pieces(pat, s)| == |Separators(pat, s)| + 1
    ensures Interleave(Pieces(pat, s), Separators(pat, s)) == s
  {
    TableSplitReassembles(s, MatchTable(pat, s), 0);
    assert s[0..] == s;
  }

  /** Every dropped separator is, on its own, one whole match of the pattern. */
  lemma SeparatorsAreMatches(pat: Pattern, s: string)
    ensures forall k :: 0 <= k < |Separators(pat, s)| ==>
      |Separators(pat, s)[k]| > 0 && MatchLength(pat, Separators(pat, s)[k], 0) == |Separators(pat, s)[k]|
  {
    var m := MatchTable(pat, s);
    forall k | 0 <= k < |Separators(pat, s)|
      ensures |Separators(pat, s)[k]| > 0 && MatchLength(pat, Separators(pat, s)[k], 0) == |Separators(pat, s)[k]|
    {
      var p := TableSeparatorAt(s, m, 0, k);
      assert m[p] == MatchLength(pat, s, p);
      CutIsMatch(pat, s, p, Separators(pat, s)[k]);
    }
  }

  /** No piece contains a match of the pattern it was cut on. */
  lemma PiecesHoldNoMatch(pat: Pattern, s: string)
    ensures forall k, q :: 0 <= k < |Pieces(pat, s)| && 0 <= q <= |Pieces(pat, s)[k]| ==>
      MatchLength(pat, Pieces(pat, s)[k], q) == 0
  {
    var m := MatchTable(pat, s);
    forall k, q | 0 <= k < |Pieces(pat, s)| && 0 <= q <= |Pieces(pat, s)[k]|
      ensures MatchLength(pat, Pieces(pat, s)[k], q) == 0
    {
      var lo := TablePieceAt(s, m, 0, k);
      var piece := Pieces(pat, s)[k];
      if q < |piece| {
        assert m[lo + q] == MatchLength(pat, s, lo + q);
      }
      SliceHoldsNoMatch(pat, s, lo, lo + |piece|, q);
    }
  }

  /** A stretch of the text where the text has no match has none either. */
  lemma SliceHoldsNoMatch(pat: Pattern, s: string, lo: nat, hi: nat, q: nat)
    requires lo <= hi <= |s| && q <= hi - lo
    requires q < hi - lo ==> MatchLength(pat, s, lo + q) == 0
    ensures MatchLength(pat, s[lo..hi], q) == 0
  {
    if MatchLength(pat, s[lo..hi], q) > 0 {
      MatchInSlice(pat, s, lo, hi, q);
    }
  }

  /** `len(s.split(sep)) == s.count(sep) + 1`. */
  lemma PieceCount(pat: Pattern, s: string)
    ensures |Pieces(pat, s)| == Occurrences(pat, s) + 1
  {
    TablePieceCount(s, MatchTable(pat, s), 0);
  }

  /** There is always at least one piece. */
  lemma PieceCountPositive(pat: Pattern, s: string)
    ensures |Pieces(pat, s)| >= 1
  {
    TableLengths(s, MatchTable(pat, s), 0);
  }

  /** Every piece is a stretch of the text. */
  lemma PiecesAreSlices(pat: Pattern, s: string, k: nat) returns (lo: nat)
    requires k < |Pieces(pat, s)|
    ensures lo + |Pieces(pat, s)[k]| <= |s| && Pieces(pat, s)[k] == s[lo..lo + |Pieces(pat, s)[k]|]
  {
    lo := TablePieceAt(s, MatchTable(pat, s), 0, k);
  }

  /** Blocks: every separator is "\n\n", so joining the blocks with "\n\n"
      gives back the text. */
  lemma BlocksJoin(s: string)
    ensures Join(Pieces(BlankLine, s), "\n\n") == s
  {
    SplitReassembles(BlankLine, s);
    SeparatorsAreMatches(BlankLine, s);
    var seps := Separators(BlankLine, s);
    forall k | 0 <= k < |seps| ensures seps[k] == "\n\n" {
      assert seps[k][0..2] == seps[k];
    }
    InterleaveUniform(Pieces(BlankLine, s), seps, "\n\n");
  }

  /** No block holds a blank line. */
  lemma BlocksHoldNoBlankLine(s: string)
    ensures forall k, q :: 0 <= k < |Pieces(BlankLine, s)| && 0 <= q && q + 1 < |Pieces(BlankLine, s)[k]| ==>
      !(Pieces(BlankLine, s)[k][q] == '\n' && Pieces(BlankLine, s)[k][q + 1] == '\n')
  {
    PiecesHoldNoMatch(BlankLine, s);
    forall k, q | 0 <= k < |Pieces(BlankLine, s)| && 0 <= q && q + 1 < |Pieces(BlankLine, s)[k]|
      ensures !(Pieces(BlankLine, s)[k][q] == '\n' && Pieces(BlankLine, s)[k][q + 1] == '\n')
    {
      assert MatchLength(BlankLine, Pieces(BlankLine, s)[k], q) == 0;
    }
  }

  lemma {:induction false} InterleaveUniform(pieces: seq<string>, separators: seq<string>, sep: string)
    requires |pieces| == |separators| + 1
    requires forall k :: 0 <= k < |separators| ==> separators[k] == sep
    ensures Interleave(pieces, separators) == Join(pieces, sep)
  {
    if separators != [] {
      InterleaveUniform(pieces[1..], separators[1..], sep);
    }
  }

  /** A table with no match leaves the text whole. */
  lemma TableNoCut(s: string, m: seq<nat>)
    requires IsTable(s, m)
    requires forall q :: 0 <= q <= |s| ==> m[q] == 0
    ensures PiecesFrom(s, m, 0) == [s]
  {
    assert SearchFrom(s, m, 0).None?;
    assert s[0..] == s;
  }

  /** A table with a single match at `a` cuts the text once. */
  lemma TableOneCut(s: string, m: seq<nat>, a: nat)
    requires IsTable(s, m) && a < |s| && m[a] > 0
    requires forall q :: 0 <= q <= |s| && q != a ==> m[q] == 0
    ensures PiecesFrom(s, m, 0) == [s[..a], s[a + m[a]..]]
  {
    assert SearchFrom(s, m, 0) == Some(a);
    assert SearchFrom(s, m, a + m[a]).None?;
    assert s[0..a] == s[..a];
  }

  /** Both separators open with a line break, so a text with a separator
      at `a` and no other line break outside `a` and `a + 1` is cut only
      there. */
  lemma SplitAtLineBreak(pat: Pattern, s: string, a: nat)
    requires pat == BlankLine || pat == FundHeading
    requires a < |s| && MatchLength(pat, s, a) > 0
    requires forall q :: 0 <= q < |s| && (q < a || a + 1 < q) ==> s[q] != '\n'
    ensures Pieces(pat, s) == [s[..a], s[a + MatchLength(pat, s, a)..]]
  {
    var m := MatchTable(pat, s);
    forall q | 0 <= q <= |s| && q != a ensures m[q] == 0 {
      assert m[q] == MatchLength(pat, s, q);
    }
    assert m[a] == MatchLength(pat, s, a);
    TableOneCut(s, m, a);
  }

  lemma NoLineBreakNoSplit(pat: Pattern, s: string)
    requires pat == BlankLine || pat == FundHeading
    requires forall q :: 0 <= q < |s| ==> s[q] != '\n'
    ensures Pieces(pat, s) == [s]
  {
    var m := MatchTable(pat, s);
    forall q | 0 <= q <= |s| ensures m[q] == 0 {
      assert m[q] == MatchLength(pat, s, q);
    }
    TableNoCut(s, m);
  }

  /** `re.split(r'\nFund \d', ...)` also eats the first digit of the fund
      number: "a\nFund 12b" gives the sections "a" and "2b". */
  lemma FundSplitEatsDigit()
    ensures Pieces(FundHeading, "a\nFund 12b") == ["a", "2b"]
  {
    var s := "a\nFund 12b";
    assert MatchLength(FundHeading, s, 1) == 7;
    SplitAtLineBreak(FundHeading, s, 1);
    assert s[..1] == "a" && s[8..] == "2b";
  }

  /** A blank line ends a block: a header line and the figures after a
      blank line land in two blocks. */
  lemma BlockSplitExample()
    ensures Pieces(BlankLine, "Cost ($M)\n\n120") == ["Cost ($M)", "120"]
  {
    var s := "Cost ($M)\n\n120";
    assert MatchLength(BlankLine, s, 9) == 2;
    SplitAtLineBreak(BlankLine, s, 9);
    assert s[..9] == "Cost ($M)" && s[11..] == "120";
  }

  /** A heading must follow a line break: text opening with "Fund 1" is
      not cut. */
  lemma FundAtStartNotSplit()
    ensures Pieces(FundHeading, "Fund 1 x") == ["Fund 1 x"]
  {
    NoLineBreakNoSplit(FundHeading, "Fund 1 x");
  }
}
