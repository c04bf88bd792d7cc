/** The scan of main.py:24-123: an inline pass over the whole text, a pass
    over its blank-line blocks and a pass over its fund sections, all
    folding into one running maximum, with a count of the years the guard
    kept from being scaled. */
module LargestNumber {
  import opened Text
  import opened Units
  import opened Decimal
  import opened NumberGrammar
  import opened Patterns
  import opened Scaling

  /** What the script reports at the end. */
  datatype Outcome = NoNumbersFound | LargestFound(value: real)

  // ---------------------------------------------------------------------
  // The running maximum

  /** One step of the running maximum; `None` is `float('-inf')`, below
      every number. A value replaces the current one only when it is
      larger. */
  function Max(acc: Option<real>, v: real): (r: Option<real>)
    ensures r.Some? && v <= r.value
    ensures acc.Some? ==> acc.value <= r.value
    ensures r == acc || r == Some(v)
  {
    if acc.None? || v > acc.value then Some(v) else acc
  }

  /** The running maximum after folding in `vs` from left to right. */
  function MaxOf(acc: Option<real>, vs: seq<real>): (r: Option<real>)
    ensures acc.Some? ==> r.Some? && acc.value <= r.value
    ensures vs != [] ==> r.Some? && vs[|vs| - 1] <= r.value
  {
    if vs == [] then acc else Max(MaxOf(acc, vs[..|vs| - 1]), vs[|vs| - 1])
  }

  /** The fold ends at the maximum of its start and every value folded in,
      is one of them, and stays `None` only if it started so and nothing
      was folded in. */
  lemma {:induction false} MaxOfIsMaximum(acc: Option<real>, vs: seq<real>)
    ensures MaxOf(acc, vs).None? <==> acc.None? && vs == []
    ensures acc.Some? ==> acc.value <= MaxOf(acc, vs).value
    ensures forall k :: 0 <= k < |vs| ==> vs[k] <= MaxOf(acc, vs).value
    ensures MaxOf(acc, vs) == acc || MaxOf(acc, vs).value in vs
  {
    if vs != [] {
      var init := vs[..|vs| - 1];
      MaxOfIsMaximum(acc, init);
      forall k | 0 <= k < |vs| ensures vs[k] <= MaxOf(acc, vs).value {
        if k < |vs| - 1 {
          assert vs[k] == init[k];
        }
      }
      if MaxOf(acc, init) != acc && MaxOf(acc, vs) != Some(vs[|vs| - 1]) {
        assert MaxOf(acc, init).value in init;
      }
    }
  }

  /** Folding in a prefix one value longer is one more step. */
  lemma MaxOfStep(acc: Option<real>, vs: seq<real>, i: nat)
    requires i < |vs|
    ensures MaxOf(acc, vs[..i + 1]) == Max(MaxOf(acc, vs[..i]), vs[i])
  {
    assert vs[..i + 1][..i] == vs[..i];
  }

  /** Folding in two runs one after the other is folding in both. */
  lemma {:induction false} MaxOfAppend(acc: Option<real>, a: seq<real>, b: seq<real>)
    ensures MaxOf(acc, a + b) == MaxOf(MaxOf(acc, a), b)
  {
    if b == [] {
      assert a + b == a;
    } else {
      var b' := b[..|b| - 1];
      assert (a + b)[..|a + b| - 1] == a + b';
      assert (a + b)[|a + b| - 1] == b[|b| - 1];
      MaxOfAppend(acc, a, b');
    }
  }

  // ---------------------------------------------------------------------
  // The values each pass produces

  /** The values of the inline pass, in order: one per inline match, its
      number's face value times the factor its suffix stands for, so never
      below the face value. */
  function InlineValues(text: string): (vs: seq<real>)
    ensures |vs| == |InlineMatches(text)|
    ensures forall k :: 0 <= k < |vs| ==> NumberValue(InlineMatches(text)[k].number) <= vs[k]
    ensures forall k :: 0 <= k < |vs| ==>
      Lower(InlineMatches(text)[k].suffix) in Multipliers &&
      vs[k] == NumberValue(InlineMatches(text)[k].number) * (Multipliers[Lower(InlineMatches(text)[k].suffix)] as real)
  {
    InlineMatchesParts(text);
    var matches := InlineMatches(text);
    seq(|matches|, k requires 0 <= k < |matches| => GetNumber(matches[k].number, matches[k].suffix))
  }

  /** `numbers` through the guard under `multiplier`, in order. */
  function GuardedValues(numbers: seq<string>, multiplier: Factor): (vs: seq<real>)
    ensures |vs| == |numbers|
  {
    seq(|numbers|, k requires 0 <= k < |numbers| => GuardedValue(numbers[k], multiplier))
  }

  /** Each guarded value is the face value where the guard fires and the
      face value times the unit everywhere else. */
  lemma GuardedValuesMeaning(numbers: seq<string>, multiplier: Factor)
    ensures forall k :: 0 <= k < |numbers| && GuardFires(numbers[k], multiplier) ==>
      GuardedValues(numbers, multiplier)[k] == NumberValue(numbers[k])
    ensures forall k :: 0 <= k < |numbers| && !GuardFires(numbers[k], multiplier) ==>
      GuardedValues(numbers, multiplier)[k] == NumberValue(numbers[k]) * (multiplier as real)
  {
    var vs := GuardedValues(numbers, multiplier);
    forall k | 0 <= k < |numbers|
      ensures GuardFires(numbers[k], multiplier) ==> vs[k] == NumberValue(numbers[k])
      ensures !GuardFires(numbers[k], multiplier) ==> vs[k] == NumberValue(numbers[k]) * (multiplier as real)
    {
      GuardedValueBounds(numbers[k], multiplier);
      ScaledIsProduct(NumberValue(numbers[k]), multiplier);
    }
  }

  /** The values one piece produces: its bare numbers through the guard,
      under the piece's unit. */
  function PieceValues(scope: Scope, piece: string): (vs: seq<real>)
    ensures |vs| == |BareNumbers(piece)|
  {
    GuardedValues(BareNumbers(piece), Multiplier(scope, piece))
  }

  /** What a piece's values are: the face value where the guard fires, the
      face value times the piece's unit everywhere else. */
  lemma PieceValuesMeaning(scope: Scope, piece: string)
    ensures forall k :: 0 <= k < |PieceValues(scope, piece)| && GuardFires(BareNumbers(piece)[k], Multiplier(scope, piece)) ==>
      PieceValues(scope, piece)[k] == NumberValue(BareNumbers(piece)[k])
    ensures forall k :: 0 <= k < |PieceValues(scope, piece)| && !GuardFires(BareNumbers(piece)[k], Multiplier(scope, piece)) ==>
      PieceValues(scope, piece)[k] == NumberValue(BareNumbers(piece)[k]) * (Multiplier(scope, piece) as real)
  {
    GuardedValuesMeaning(BareNumbers(piece), Multiplier(scope, piece));
  }

  /** How many of `numbers` the guard keeps unscaled under `multiplier`. */
  function CountFires(numbers: seq<string>, multiplier: Factor): nat {
    if numbers == [] then 0
    else CountFires(numbers[..|numbers| - 1], multiplier) + if GuardFires(numbers[|numbers| - 1], multiplier) then 1 else 0
  }

  lemma CountFiresStep(numbers: seq<string>, multiplier: Factor, i: nat)
    requires i < |numbers|
    ensures CountFires(numbers[..i + 1], multiplier) ==
      CountFires(numbers[..i], multiplier) + if GuardFires(numbers[i], multiplier) then 1 else 0
  {
    assert numbers[..i + 1][..i] == numbers[..i];
  }

  /** The values of a whole pass, piece after piece. */
  function ScopeValues(scope: Scope, pieces: seq<string>): seq<real> {
    if pieces == [] then []
    else ScopeValues(scope, pieces[..|pieces| - 1]) + PieceValues(scope, pieces[|pieces| - 1])
  }

  /** The guard firings of a whole pass. */
  function ScopeOverrides(scope: Scope, pieces: seq<string>): nat {
    if pieces == [] then 0
    else
      var piece := pieces[|pieces| - 1];
      ScopeOverrides(scope, pieces[..|pieces| - 1]) + CountFires(BareNumbers(piece), Multiplier(scope, piece))
  }

  /** The pieces a pass walks over. */
  function Split(scope: Scope, text: string): seq<string> {
    Pieces(Separator(scope), text)
  }

  /** Every value the script compares, in the order it meets them. */
  function AllValues(text: string): seq<real> {
    InlineValues(text) + ScopeValues(Block, Split(Block, text)) + ScopeValues(Section, Split(Section, text))
  }

  /** `largest_num` at the end. */
  function LargestIn(text: string): Option<real> {
    MaxOf(None, AllValues(text))
  }

  /** `date_multiplier_override_count[0]` at the end. */
  function OverridesIn(text: string): nat {
    ScopeOverrides(Block, Split(Block, text)) + ScopeOverrides(Section, Split(Section, text))
  }

  // ---------------------------------------------------------------------
  // The scanner

  /** The script's two pieces of module state. */
  class NumberScan {
    var largest: Option<real>
    var overrideCount: nat

    constructor ()
      ensures largest == None && overrideCount == 0
    {
      largest := None;
      overrideCount := 0;
    }

    /** `get_number_with_multiplier`: a year under a unit is read unscaled
        and counted. */
    method GetNumberWithMultiplier(number: string, multiplier: Factor) returns (value: real)
      modifies this`overrideCount
      ensures value == GuardedValue(number, multiplier)
      ensures overrideCount == old(overrideCount) + if GuardFires(number, multiplier) then 1 else 0
    {
      var factor := multiplier;
      if GuardFires(number, multiplier) {
        overrideCount := overrideCount + 1;
        factor := 1;
      }
      value := Scaled(NumberValue(number), factor);
    }

    /** The inline pass (main.py:62-66). It never touches the override
        count: inline matches are not guarded. */
    method InlinePass(text: string)
      modifies this`largest
      ensures largest == MaxOf(old(largest), InlineValues(text))
      ensures old(largest).Some? ==> largest.Some? && old(largest).value <= largest.value
    {
      var matches := InlineMatches(text);
      ghost var values := InlineValues(text);
      for i := 0 to |matches|
        invariant largest == MaxOf(old(largest), values[..i])
      {
        var current := GetNumber(matches[i].number, matches[i].suffix);
        largest := Max(largest, current);
        MaxOfStep(old(largest), values, i);
      }
      assert values[..|matches|] == values;
      MaxOfIsMaximum(old(largest), values);
    }

    /** `if current_num > largest_num: largest_num = current_num` */
    method Consider(current: real)
      modifies this`largest
      ensures largest == Max(old(largest), current)
    {
      if largest.None? || current > largest.value {
        largest := Some(current);
      }
    }

    /** One piece of the block or section pass (main.py:84-89, 107-112). */
    method ScanPiece(scope: Scope, piece: string)
      modifies this
      ensures largest == MaxOf(old(largest), PieceValues(scope, piece))
      ensures overrideCount == old(overrideCount) + CountFires(BareNumbers(piece), Multiplier(scope, piece))
    {
      var multiplier := Multiplier(scope, piece);
      var numbers := BareNumbers(piece);
      ghost var values := PieceValues(scope, piece);
      for i := 0 to |numbers|
        invariant largest == MaxOf(old(largest), values[..i])
        invariant overrideCount == old(overrideCount) + CountFires(numbers[..i], multiplier)
      {
        var current := GetNumberWithMultiplier(numbers[i], multiplier);
        Consider(current);
        MaxOfStep(old(largest), values, i);
        CountFiresStep(numbers, multiplier, i);
      }
      assert values[..|numbers|] == values;
      assert numbers[..|numbers|] == numbers;
    }

    /** The block pass (main.py:72-89) or the section pass (main.py:96-112)
        over the pieces of the text. */
    method ScanPieces(scope: Scope, pieces: seq<string>)
      modifies this
      ensures largest == MaxOf(old(largest), ScopeValues(scope, pieces))
      ensures overrideCount == old(overrideCount) + ScopeOverrides(scope, pieces)
      ensures old(largest).Some? ==> largest.Some? && old(largest).value <= largest.value
    {
      for b := 0 to |pieces|
        invariant largest == MaxOf(old(largest), ScopeValues(scope, pieces[..b]))
        invariant overrideCount == old(overrideCount) + ScopeOverrides(scope, pieces[..b])
      {
        ScanPiece(scope, pieces[b]);
        assert pieces[..b + 1][..b] == pieces[..b];
        MaxOfAppend(old(largest), ScopeValues(scope, pieces[..b]), PieceValues(scope, pieces[b]));
      }
      assert pieces[..|pieces|] == pieces;
      MaxOfIsMaximum(old(largest), ScopeValues(scope, pieces));
    }
  }

  /** The whole scan: the three passes in order, then the report
      (main.py:120-123). */
  method FindLargest(text: string) returns (outcome: Outcome, overrides: nat)
    ensures outcome == if LargestIn(text).None? then NoNumbersFound else LargestFound(LargestIn(text).value)
    ensures overrides == OverridesIn(text)
  {
    var scan := new NumberScan();
    scan.InlinePass(text);
    scan.ScanPieces(Block, Split(Block, text));
    scan.ScanPieces(Section, Split(Section, text));
    MaxOfAppend(None, InlineValues(text), ScopeValues(Block, Split(Block, text)));
    MaxOfAppend(None, InlineValues(text) + ScopeValues(Block, Split(Block, text)), ScopeValues(Section, Split(Section, text)));
    if scan.largest.None? {
      outcome := NoNumbersFound;
    } else {
      outcome := LargestFound(scan.largest.value);
    }
    overrides := scan.overrideCount;
  }

  // ---------------------------------------------------------------------
  // What the scan reports

  /** The reported number is the largest value any pass produced, and is
      one of them. */
  lemma LargestIsMaximum(text: string)
    ensures LargestIn(text).Some? ==> LargestIn(text).value in AllValues(text)
    ensures LargestIn(text).Some? ==> forall k :: 0 <= k < |AllValues(text)| ==> AllValues(text)[k] <= LargestIn(text).value
  {
    MaxOfIsMaximum(None, AllValues(text));
  }

  predicate NonNegative(vs: seq<real>) {
    forall k :: 0 <= k < |vs| ==> vs[k] >= 0.0
  }

  lemma NonNegativeAppend(a: seq<real>, b: seq<real>)
    requires NonNegative(a) && NonNegative(b)
    ensures NonNegative(a + b)
  {
    forall k | 0 <= k < |a + b| ensures (a + b)[k] >= 0.0 {
      if k >= |a| {
        assert (a + b)[k] == b[k - |a|];
      }
    }
  }

  /** No value is negative: no sign is ever read. */
  lemma {:induction false} ScopeValuesNonNegative(scope: Scope, pieces: seq<string>)
    ensures NonNegative(ScopeValues(scope, pieces))
  {
    if pieces != [] {
      ScopeValuesNonNegative(scope, pieces[..|pieces| - 1]);
      NonNegativeAppend(ScopeValues(scope, pieces[..|pieces| - 1]), PieceValues(scope, pieces[|pieces| - 1]));
    }
  }

  lemma ValuesNonNegative(text: string)
    ensures forall k :: 0 <= k < |AllValues(text)| ==> AllValues(text)[k] >= 0.0
    ensures LargestIn(text).Some? ==> LargestIn(text).value >= 0.0
  {
    var inline, blocks, sections := InlineValues(text), ScopeValues(Block, Split(Block, text)), ScopeValues(Section, Split(Section, text));
    assert NonNegative(inline);
    ScopeValuesNonNegative(Block, Split(Block, text));
    ScopeValuesNonNegative(Section, Split(Section, text));
    NonNegativeAppend(inline, blocks);
    NonNegativeAppend(inline + blocks, sections);
    LargestIsMaximum(text);
  }

  /** A pass produces nothing over pieces without digits ... */
  lemma {:induction false} NoDigitNoScopeValues(scope: Scope, pieces: seq<string>)
    requires forall k :: 0 <= k < |pieces| ==> !HasDigit(pieces[k])
    ensures ScopeValues(scope, pieces) == []
  {
    if pieces != [] {
      NoDigitNoScopeValues(scope, pieces[..|pieces| - 1]);
      NoBareNumbersIffNoDigit(pieces[|pieces| - 1]);
    }
  }

  /** A pass over two runs of pieces is the pass over the first, then over
      the second. */
  lemma {:induction false} ScopeValuesAppend(scope: Scope, a: seq<string>, b: seq<string>)
    ensures ScopeValues(scope, a + b) == ScopeValues(scope, a) + ScopeValues(scope, b)
  {
    if b == [] {
      assert a + b == a;
    } else {
      var b', last := b[..|b| - 1], b[|b| - 1];
      assert (a + b)[..|a + b| - 1] == a + b';
      assert (a + b)[|a + b| - 1] == last;
      var front, middle, back := ScopeValues(scope, a), ScopeValues(scope, b'), PieceValues(scope, last);
      calc {
        ScopeValues(scope, a + b);
        ScopeValues(scope, a + b') + back;
        { ScopeValuesAppend(scope, a, b'); }
        (front + middle) + back;
        front + (middle + back);
        front + ScopeValues(scope, b);
      }
    }
  }

  /** ... and every piece's values appear, in order, among the pass's
      values: after those of the pieces before it and before those of the
      pieces after it. */
  lemma PieceValuesInScope(scope: Scope, pieces: seq<string>, k: nat)
    requires k < |pieces|
    ensures ScopeValues(scope, pieces) ==
      ScopeValues(scope, pieces[..k]) + PieceValues(scope, pieces[k]) + ScopeValues(scope, pieces[k + 1..])
    ensures |PieceValues(scope, pieces[k])| <= |ScopeValues(scope, pieces)|
  {
    assert pieces == pieces[..k] + [pieces[k]] + pieces[k + 1..];
    assert ScopeValues(scope, [pieces[k]]) == PieceValues(scope, pieces[k]) by {
      assert [pieces[k]][..0] == [];
    }
    ScopeValuesAppend(scope, pieces[..k], [pieces[k]]);
    ScopeValuesAppend(scope, pieces[..k] + [pieces[k]], pieces[k + 1..]);
  }

  /** A piece of the text holds no digit the text does not hold. */
  lemma PiecesInheritNoDigit(pat: Pattern, text: string)
    requires !HasDigit(text)
    ensures forall k :: 0 <= k < |Pieces(pat, text)| ==> !HasDigit(Pieces(pat, text)[k])
  {
    forall k | 0 <= k < |Pieces(pat, text)| ensures !HasDigit(Pieces(pat, text)[k]) {
      var lo := PiecesAreSlices(pat, text, k);
    }
  }

  /** A digit of the joined text lies in one of the pieces when the
      separator has none. */
  lemma {:induction false} DigitInSomePiece(pieces: seq<string>, sep: string) returns (k: nat)
    requires |pieces| >= 1 && !HasDigit(sep) && HasDigit(Join(pieces, sep))
    ensures k < |pieces| && HasDigit(pieces[k])
  {
    var joined := Join(pieces, sep);
    var q :| 0 <= q < |joined| && IsDigit(joined[q]);
    if |pieces| == 1 {
      k := 0;
    } else {
      var rest := Join(pieces[1..], sep);
      assert joined == pieces[0] + sep + rest;
      if q < |pieces[0]| {
        assert pieces[0][q] == joined[q];
        k := 0;
      } else if q < |pieces[0]| + |sep| {
        assert false;
      } else {
        assert rest[q - |pieces[0]| - |sep|] == joined[q];
        var j := DigitInSomePiece(pieces[1..], sep);
        k := j + 1;
      }
    }
  }

  /** "No numbers found" is reported exactly when the text has no digit:
      any digit starts a bare number in its blank-line block, and without
      digits no pass produces anything. */
  lemma NoNumbersIffNoDigit(text: string)
    ensures LargestIn(text).None? <==> !HasDigit(text)
  {
    MaxOfIsMaximum(None, AllValues(text));
    if HasDigit(text) {
      var blocks := Split(Block, text);
      BlocksJoin(text);
      assert !HasDigit("\n\n");
      PieceCountPositive(BlankLine, text);
      var k := DigitInSomePiece(blocks, "\n\n");
      NoBareNumbersIffNoDigit(blocks[k]);
      PieceValuesInScope(Block, blocks, k);
      assert |AllValues(text)| > 0;
    } else {
      NoDigitNoInlineMatch(text, 0);
      PiecesInheritNoDigit(BlankLine, text);
      PiecesInheritNoDigit(FundHeading, text);
      NoDigitNoScopeValues(Block, Split(Block, text));
      NoDigitNoScopeValues(Section, Split(Section, text));
      assert AllValues(text) == [];
    }
  }

  /** The scan reports exactly that. */
  lemma ReportsNoNumbersIffNoDigit(text: string, outcome: Outcome)
    requires outcome == if LargestIn(text).None? then NoNumbersFound else LargestFound(LargestIn(text).value)
    ensures outcome == NoNumbersFound <==> !HasDigit(text)
    ensures outcome.LargestFound? ==> outcome.value >= 0.0
  {
    NoNumbersIffNoDigit(text);
    ValuesNonNegative(text);
  }

  /** The guard fires at most once per number, and never in a piece
      without a unit. */
  lemma {:induction false} CountFiresBound(numbers: seq<string>, multiplier: Factor)
    ensures CountFires(numbers, multiplier) <= |numbers|
    ensures multiplier == 1 ==> CountFires(numbers, multiplier) == 0
  {
    if numbers != [] {
      CountFiresBound(numbers[..|numbers| - 1], multiplier);
    }
  }

  /** A header scales only its own block: in "Cost ($M)\n\n120" the block
      pass reads 120 unscaled, and the header's block has no number. */
  lemma HeaderStaysInItsBlock()
    ensures ScopeValues(Block, Split(Block, "Cost ($M)\n\n120")) == [120.0]
    ensures ScopeOverrides(Block, Split(Block, "Cost ($M)\n\n120")) == 0
  {
    BlockSplitExample();
    TwoPieces(Block, "Cost ($M)", "120");
    TwoPiecesOverrides(Block, "Cost ($M)", "120");
    HeaderBlockHasNoNumber();
    FigureBlockUnscaled("120");
    ValueOf120();
  }

  /** A pass over two pieces is the first piece's, then the second's. */
  lemma TwoPieces(scope: Scope, a: string, b: string)
    ensures ScopeValues(scope, [a, b]) == PieceValues(scope, a) + PieceValues(scope, b)
  {
    var pieces := [a, b];
    assert pieces[..1] == [a] && [a][..0] == [];
    assert ScopeValues(scope, [a]) == PieceValues(scope, a) by {
      assert ScopeValues(scope, [a]) == ScopeValues(scope, []) + PieceValues(scope, a);
    }
  }

  lemma TwoPiecesOverrides(scope: Scope, a: string, b: string)
    ensures ScopeOverrides(scope, [a, b]) ==
      CountFires(BareNumbers(a), Multiplier(scope, a)) + CountFires(BareNumbers(b), Multiplier(scope, b))
  {
    var pieces := [a, b];
    assert pieces[..1] == [a] && [a][..0] == [];
    assert ScopeOverrides(scope, [a]) == CountFires(BareNumbers(a), Multiplier(scope, a)) by {
      assert ScopeOverrides(scope, [a]) == ScopeOverrides(scope, []) + CountFires(BareNumbers(a), Multiplier(scope, a));
    }
  }

  lemma HeaderBlockHasNoNumber()
    ensures PieceValues(Block, "Cost ($M)") == []
    ensures CountFires(BareNumbers("Cost ($M)"), Multiplier(Block, "Cost ($M)")) == 0
  {
    var c := "Cost ($M)";
    assert !HasDigit(c) by {
      assert forall q :: 0 <= q < |c| ==> !IsDigit(c[q]);
    }
    NoBareNumbersIffNoDigit(c);
  }

  /** A piece of three digits alone is read at face value. */
  lemma FigureBlockUnscaled(s: string)
    requires |s| == 3 && IsDigit(s[0]) && IsDigit(s[1]) && IsDigit(s[2])
    ensures PieceValues(Block, s) == [NumberValue(s)]
    ensures CountFires(BareNumbers(s), Multiplier(Block, s)) == 0
  {
    OneBareNumber(s);
    assert s[..3] == s;
    NoHeaderWithoutParenthesis(s);
    CountFiresBound(BareNumbers(s), 1);
  }

  /** A piece of three digits is one bare number without a unit. */
  lemma OneBareNumber(s: string)
    requires |s| == 3 && IsDigit(s[0]) && IsDigit(s[1]) && IsDigit(s[2])
    ensures BareNumbers(s) == [s[..3]]
  {
    PlainTokenEnd(s, 0, 3, 0);
    assert NumberSpansFrom(s, 3) == [];
    assert NumberSpansFrom(s, 0) == [Span(0, 3)];
    assert s[0..3] == s[..3];
  }

  lemma NoHeaderWithoutParenthesis(s: string)
    requires forall q :: 0 <= q < |s| ==> s[q] != '('
    ensures Multiplier(Block, s) == 1
  {
    var m := MatchTable(UnitHeader, s);
    forall q | 0 <= q <= |s| ensures m[q] == 0 {
      assert MatchLength(UnitHeader, s, q) == 0;
    }
  }

  lemma ValueOf120()
    ensures NumberValue("120") == 120.0
  {
    var s := "120";
    NumberValueOfDigits(s);
    assert s[..2] == "12" && "12"[..1] == "1";
  }

  /** A token followed by one of the suffixes is read inline as its face
      value times the suffix's factor. */
  lemma OneInlineValue(d: string, x: string)
    requires IsNumberToken(d) && Lower(x) in InlineSuffixes
    ensures Lower(x) in Multipliers
    ensures InlineValues(d + x) == [NumberValue(d) * (Multipliers[Lower(x)] as real)]
  {
    OneInlineMatch(d, x);
    InlineValuesOfOneMatch(d + x, d, x);
  }

  lemma InlineValuesOfOneMatch(text: string, d: string, x: string)
    requires InlineMatches(text) == [InlineMatch(d, x)]
    ensures Lower(x) in Multipliers
    ensures InlineValues(text) == [NumberValue(d) * (Multipliers[Lower(x)] as real)]
  {
    var vs := InlineValues(text);
    assert InlineMatches(text)[0] == InlineMatch(d, x);
  }

  /** "10mg" is read inline as ten million: the suffix needs no word
      boundary after it. */
  lemma TenMilligrams()
    ensures InlineValues("10mg") == [10000000.0]
  {
    TenWithSuffixM("10mg");
  }

  /** Ten followed by 'm' and a character that cannot extend the number
      is ten million. */
  lemma TenWithSuffixM(s: string)
    requires |s| == 4 && s[0] == '1' && s[1] == '0' && s[2] == 'm' && !IsDigit(s[3]) && s[3] != '.'
    ensures InlineValues(s) == [10000000.0]
  {
    SuffixNeedsNoBoundary(s);
    var t, m := s[..2], s[2..3];
    assert m == "m" && Lower(m) == "m";
    InlineValuesOfOneMatch(s, t, m);
    NumberTen(t);
  }

  /** The token "10" reads as ten. */
  lemma NumberTen(t: string)
    requires |t| == 2 && t[0] == '1' && t[1] == '0'
    ensures NumberValue(t) == 10.0
  {
    NumberValueOfDigits(t);
    var u := t[..1];
    assert u[..0] == [] && DigitsValue(u) == 1;
    assert t[..|t| - 1] == u && DigitsValue(t) == 10;
  }
}
