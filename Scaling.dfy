/** How a number found in the text becomes a value: the unit of the piece
    it was found in, the inline suffix that follows it, and the guard that
    keeps the years 2023-2025 from being scaled (main.py:44-60, 77-82,
    101-105). */
module Scaling {
  import opened Text
  import opened Decimal
  import opened Units
  import opened Patterns

  /** The two ways the text is cut into pieces that share a unit. */
  datatype Scope = Block | Section

  /** What the text is cut on: blank lines for blocks, fund headings for
      sections. */
  function Separator(scope: Scope): Pattern {
    match scope
    case Block => BlankLine
    case Section => FundHeading
  }

  /** What declares a piece's unit: "($K)"/"($M)" in a block, " in
      Thousands)"/" in Millions)" in a section. */
  function Header(scope: Scope): Pattern {
    match scope
    case Block => UnitHeader
    case Section => ScaleDeclaration
  }

  /** The factor a header match at `p` stands for, read off the matched
      text the way the table is keyed: lower-cased. A "($K)" header in any
      letter case and " in Thousands)" mean a thousand, the others a
      million. */
  lemma HeaderFactor(scope: Scope, s: string, p: nat)
    requires p <= |s| && MatchLength(Header(scope), s, p) > 0
    ensures Lower(s[p..p + MatchLength(Header(scope), s, p)]) in Multipliers
    ensures Multipliers[Lower(s[p..p + MatchLength(Header(scope), s, p)])] ==
      match scope
      case Block => if LowerChar(s[p + 2]) == 'k' then 1000 else 1000000
      case Section => if MatchLength(Header(scope), s, p) == 14 then 1000 else 1000000
  {
    match scope
    case Block => BlockHeaderKey(s, p);
    case Section => SectionHeaderKey(s, p);
  }

  /** A "($K)"/"($M)" match, lower-cased, is "($k)" or "($m)" after its letter. */
  lemma BlockHeaderKey(s: string, p: nat)
    requires p <= |s| && MatchLength(UnitHeader, s, p) > 0
    ensures Lower(s[p..p + 4]) == if LowerChar(s[p + 2]) == 'k' then "($k)" else "($m)"
  {
    LowerOfSlice(s, p, 4);
    var key := Lower(s[p..p + 4]);
    assert key[0] == '(' && key[1] == '$' && key[2] == LowerChar(s[p + 2]) && key[3] == ')';
  }

  /** A section header match, lower-cased, is " in thousands)" or
      " in millions)" according to its length. */
  lemma SectionHeaderKey(s: string, p: nat)
    requires p <= |s| && MatchLength(ScaleDeclaration, s, p) > 0
    ensures var n := MatchLength(ScaleDeclaration, s, p);
      Lower(s[p..p + n]) == if n == 14 then " in thousands)" else " in millions)"
  {
    var n := MatchLength(ScaleDeclaration, s, p);
    LowerOfSlice(s, p, n);
    var key := Lower(s[p..p + n]);
    if n == 14 {
      assert forall k :: 0 <= k < 14 ==> key[k] == " in thousands)"[k];
    } else {
      assert forall k :: 0 <= k < 13 ==> key[k] == " in millions)"[k];
    }
  }

  /** Lower-casing a stretch of the text lower-cases each of its characters. */
  lemma LowerOfSlice(s: string, p: nat, n: nat)
    requires p + n <= |s|
    ensures |Lower(s[p..p + n])| == n
    ensures forall q :: p <= q < p + n ==> Lower(s[p..p + n])[q - p] == LowerChar(s[q])
  {
    forall q | p <= q < p + n ensures Lower(s[p..p + n])[q - p] == LowerChar(s[q]) {
      assert s[p..p + n][q - p] == s[q];
    }
  }

  /** The unit a piece declares: the factor of its leftmost header, and 1
      when it has none. */
  function Multiplier(scope: Scope, piece: string): (m: Factor)
    ensures m == 1 <==> Search(Header(scope), piece).None?
    ensures m == 1 || m == 1000 || m == 1000000
  {
    match Search(Header(scope), piece)
    case None => 1
    case Some(p) =>
      var n := MatchLength(Header(scope), piece, p);
      HeaderFactor(scope, piece, p);
      Multipliers[Lower(piece[p..p + n])]
  }

  /** The leftmost header decides: whatever follows it in the piece is
      ignored. */
  lemma FirstHeaderDecides(scope: Scope, piece: string, p: nat)
    requires p <= |piece| && MatchLength(Header(scope), piece, p) > 0
    requires forall q :: 0 <= q < p ==> MatchLength(Header(scope), piece, q) == 0
    ensures Multiplier(scope, piece) ==
      match scope
      case Block => if LowerChar(piece[p + 2]) == 'k' then 1000 else 1000000
      case Section => if MatchLength(Header(scope), piece, p) == 14 then 1000 else 1000000
  {
    assert Search(Header(scope), piece) == Some(p);
    HeaderFactor(scope, piece, p);
  }

  /** Block headers are matched in any letter case, and the leftmost one
      wins: "($k) ($M)" is in thousands. */
  lemma BlockHeaderExamples()
    ensures Multiplier(Block, "Cost ($M)") == 1000000
    ensures Multiplier(Block, "($k) ($M)") == 1000
  {
    CostInMillions();
    LowerCaseHeaderFirst();
  }

  lemma CostInMillions()
    ensures Multiplier(Block, "Cost ($M)") == 1000000
  {
    var cost := "Cost ($M)";
    assert forall q :: 0 <= q < 5 ==> MatchLength(UnitHeader, cost, q) == 0;
    FirstHeaderDecides(Block, cost, 5);
  }

  lemma LowerCaseHeaderFirst()
    ensures Multiplier(Block, "($k) ($M)") == 1000
  {
    FirstHeaderDecides(Block, "($k) ($M)", 0);
  }

  /** Section headers are case-sensitive: " in millions)" declares
      nothing ... */
  lemma SectionHeaderIsCaseSensitive()
    ensures Multiplier(Section, " in millions)") == 1
  {
    var lower := " in millions)";
    var m := MatchTable(ScaleDeclaration, lower);
    assert forall q :: 0 <= q <= |lower| ==> m[q] == 0 by {
      assert lower[4] == 'm';
    }
  }

  /** ... while " in Millions)" declares millions. */
  lemma SectionHeaderInMillions()
    ensures Multiplier(Section, " in Millions)") == 1000000
  {
    FirstHeaderDecides(Section, " in Millions)", 0);
  }

  /** `float(number.replace(',', ''))`, taken exactly. */
  function NumberValue(number: string): (r: real)
    ensures r >= 0.0
  {
    ParseDecimal(RemoveChar(number, ','))
  }

  /** `get_number`: a number with an inline suffix, scaled by the suffix's
      factor; the suffix is looked up in lower case. */
  function GetNumber(number: string, suffix: string): (r: real)
    requires Lower(suffix) in Multipliers
    ensures r >= NumberValue(number)
    ensures r == NumberValue(number) * (Multipliers[Lower(suffix)] as real)
  {
    ScaledIsProduct(NumberValue(number), Multipliers[Lower(suffix)]);
    Scaled(NumberValue(number), Multipliers[Lower(suffix)])
  }

  /** The tokens that are taken for years rather than amounts, as the
      script lists them. */
  const IgnoredYears: seq<string> := ["2023", "2024", "2025"]

  /** Membership in `IgnoredYears`, spelled out character by character. */
  predicate IsIgnoredYear(t: string) {
    |t| == 4 && t[0] == '2' && t[1] == '0' && t[2] == '2' && '3' <= t[3] <= '5'
  }

  /** The spelled-out test accepts exactly the listed tokens. */
  lemma IgnoredYearsListed(t: string)
    ensures IsIgnoredYear(t) <==> t in IgnoredYears
  {
    if IsIgnoredYear(t) {
      if t[3] == '3' {
        assert t == IgnoredYears[0];
      } else if t[3] == '4' {
        assert t == IgnoredYears[1];
      } else {
        assert t == IgnoredYears[2];
      }
    }
  }

  /** The guard of `get_number_with_multiplier`: the token is spelled
      exactly as one of the years (so "2,024" is not one) and the piece
      has a unit above 1. */
  predicate GuardFires(number: string, multiplier: Factor) {
    IsIgnoredYear(number) && multiplier > 1
  }

  /** The value `get_number_with_multiplier` returns: the face value when
      the guard fires, the face value scaled by the unit otherwise. */
  function GuardedValue(number: string, multiplier: Factor): (r: real)
    ensures r >= 0.0
  {
    Scaled(NumberValue(number), if GuardFires(number, multiplier) then 1 else multiplier)
  }

  /** The guard only ever scales down: a guarded value lies between the
      face value and the fully scaled value, and it is the face value
      exactly when the guard fires or there is no unit. */
  lemma GuardedValueBounds(number: string, multiplier: Factor)
    ensures NumberValue(number) <= GuardedValue(number, multiplier) <= Scaled(NumberValue(number), multiplier)
    ensures GuardFires(number, multiplier) ==> GuardedValue(number, multiplier) == NumberValue(number)
    ensures !GuardFires(number, multiplier) ==> GuardedValue(number, multiplier) == Scaled(NumberValue(number), multiplier)
  {
  }

  /** A digit string (no comma, no dot) reads as its integer value. */
  lemma NumberValueOfDigits(d: string)
    requires AllDigits(d)
    ensures NumberValue(d) == DigitsValue(d) as real
  {
    RemoveCharAbsent(d, ',');
    ParseInteger(d);
  }

  /** A listed year reads as its own value, 2023 to 2025 ... */
  lemma YearValue(t: string)
    requires IsIgnoredYear(t)
    ensures ParseDecimal(t) == NumberValue(t) == (2020 + DigitValue(t[3])) as real
  {
    assert AllDigits(t);
    NumberValueOfDigits(t);
    ParseInteger(t);
    assert DigitsValue(t[..1]) == 2 by {
      assert t[..1][..0] == [] && t[..1][0] == '2';
    }
    assert DigitsValue(t[..2]) == 20 by {
      assert t[..2][..1] == t[..1] && t[..2][1] == '0';
    }
    assert DigitsValue(t[..3]) == 202 by {
      assert t[..3][..2] == t[..2] && t[..3][2] == '2';
    }
    assert t[..3] == t[..|t| - 1];
  }

  lemma ValueOf2024()
    ensures ParseDecimal("2024") == 2024.0
    ensures NumberValue("2024") == 2024.0
  {
    YearValue("2024");
  }

  /** ... and so does "2,024": grouping commas are dropped before reading. */
  lemma ValueOfGrouped2024()
    ensures NumberValue("2,024") == 2024.0
  {
    assert RemoveChar("2,024", ',') == "2024" by {
      assert "2,024" == "2" + [','] + "024";
      RemoveOneChar("2", "024", ',');
      assert "2" + "024" == "2024";
    }
    ValueOf2024();
  }

  /** "1,088.6" reads as 1088.6. */
  lemma ValueWithFraction()
    ensures NumberValue("1,088.6") == 1088.6
  {
    FractionCommaDropped();
    ValueOf1088();
    ParseFraction("1088", "6");
    assert FractionValue("6") == 0.6 by {
      assert "6"[1..] == [];
    }
  }

  lemma FractionCommaDropped()
    ensures RemoveChar("1,088.6", ',') == "1088" + "." + "6"
  {
    assert "1,088.6" == "1" + [','] + "088.6";
    RemoveOneChar("1", "088.6", ',');
    assert "1" + "088.6" == "1088" + "." + "6";
  }

  lemma ValueOf1088()
    ensures AllDigits("1088") && DigitsValue("1088") == 1088
  {
    assert "1088"[0] == '1' && "1088"[1] == '0' && "1088"[2] == '8' && "1088"[3] == '8';
    assert "1088"[..3] == "108" && "108"[..2] == "10" && "10"[..1] == "1";
  }

  /** "2024" in a piece in millions is taken for a year and kept as 2024. */
  lemma YearUnderUnitKept()
    ensures GuardFires("2024", 1000000) && GuardedValue("2024", 1000000) == 2024.0
  {
    ValueOf2024();
  }

  /** "2,024" is not spelled as a year, so it is scaled like any amount. */
  lemma GroupedYearScaled()
    ensures !GuardFires("2,024", 1000000) && GuardedValue("2,024", 1000000) == 2024000000.0
  {
    ValueOfGrouped2024();
  }

  /** Without a unit the guard does not fire (and nothing is counted). */
  lemma YearWithoutUnit()
    ensures !GuardFires("2024", 1) && GuardedValue("2024", 1) == 2024.0
  {
    ValueOf2024();
  }

  /** "1,088.6 million" reads as 1088600000. */
  lemma GetNumberMillion()
    ensures Lower(" million") in Multipliers && GetNumber("1,088.6", " million") == 1088600000.0
  {
    assert Lower(" million") == " million";
    ValueWithFraction();
    MillionSuffix("1,088.6", " million");
  }

  lemma MillionSuffix(number: string, suffix: string)
    requires Lower(suffix) == " million" || Lower(suffix) == "m"
    ensures Lower(suffix) in Multipliers && GetNumber(number, suffix) == NumberValue(number) * 1000000.0
  {
  }

  /** The suffix is looked up in lower case: "5K" reads as 5000. */
  lemma GetNumberUpperCase()
    ensures Lower("K") in Multipliers && GetNumber("5", "K") == 5000.0
  {
    assert Lower("K") == "k";
    NumberValueOfDigits("5");
  }

  /** Inline matches bypass the guard: "2024m" is read as 2024 million. */
  lemma InlineYearScaled()
    ensures Lower("m") in Multipliers && GetNumber("2024", "m") == 2024000000.0
  {
    assert Lower("m") == "m";
    ValueOf2024();
    MillionSuffix("2024", "m");
  }
}
