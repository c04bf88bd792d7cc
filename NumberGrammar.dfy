/** The two number patterns of main.py, written as leftmost-first greedy
    scanners instead of regular expressions.

    Bare numbers (main.py:84 and 107): a token may start where a digit, or a
    '.' followed by a digit, stands; it then takes a comma-grouped integer
    `d{1,3}(,ddd)+` if one starts there, otherwise the whole run of digits,
    then an optional fraction `.d+`.

    Inline numbers (main.py:30): the same token immediately followed by one
    of the unit suffixes, compared without regard to letter case. */
module NumberGrammar {
  import opened Text
  import opened Units

  // ---------------------------------------------------------------------
  // The token grammar, as shapes of whole strings

  /** One or more groups ",ddd". */
  predicate IsGroupTail(t: string)
    decreases |t|
  {
    |t| >= 4 && t[0] == ',' && AllDigits(t[1..4]) && (|t| == 4 || IsGroupTail(t[4..]))
  }

  /** `d{1,3}(,ddd)+` */
  predicate IsGroupedInteger(t: string) {
    exists h :: 1 <= h <= 3 && h < |t| && AllDigits(t[..h]) && IsGroupTail(t[h..])
  }

  /** `d+` */
  predicate IsPlainInteger(t: string) {
    |t| >= 1 && AllDigits(t)
  }

  predicate IsIntegerPart(t: string) {
    IsGroupedInteger(t) || IsPlainInteger(t)
  }

  /** `.d+` */
  predicate IsFractionPart(t: string) {
    |t| >= 2 && t[0] == '.' && AllDigits(t[1..])
  }

  /** A non-empty token of the bare-number pattern: an integer part, a
      fraction, or an integer part followed by a fraction. */
  predicate IsNumberToken(t: string) {
    IsIntegerPart(t) || IsFractionPart(t) || IsMixedToken(t)
  }

  /** An integer part immediately followed by a fraction. */
  predicate IsMixedToken(t: string) {
    exists k :: 0 < k < |t| && IsIntegerPart(t[..k]) && IsFractionPart(t[k..])
  }

  // ---------------------------------------------------------------------
  // The scanner

  /** Length of the longest run of digits starting at `i`. */
  function DigitRun(s: string, i: nat): (n: nat)
    requires i <= |s|
    ensures i + n <= |s|
    ensures AllDigits(s[i..i + n])
    ensures i + n == |s| || !IsDigit(s[i + n])
    decreases |s| - i
  {
    if i < |s| && IsDigit(s[i]) then
      var r := DigitRun(s, i + 1);
      assert s[i..i + 1 + r] == [s[i]] + s[i + 1..i + 1 + r];
      1 + r
    else
      0
  }

  predicate GroupAt(s: string, j: nat) {
    j + 4 <= |s| && s[j] == ',' && IsDigit(s[j + 1]) && IsDigit(s[j + 2]) && IsDigit(s[j + 3])
  }

  /** End of the longest sequence of ",ddd" groups starting at `j`. */
  function GroupsEnd(s: string, j: nat): (e: nat)
    requires GroupAt(s, j)
    ensures j + 4 <= e <= |s|
    ensures IsGroupTail(s[j..e])
    ensures !GroupAt(s, e)
    decreases |s| - j
  {
    if GroupAt(s, j + 4) then
      var e := GroupsEnd(s, j + 4);
      assert s[j..e][4..] == s[j + 4..e];
      assert s[j..e][1..4] == s[j + 1..j + 4];
      e
    else
      assert s[j..j + 4][1..4] == s[j + 1..j + 4];
      j + 4
  }

  /** End of the integer part starting at `i`: the grouped form when one
      starts there, otherwise the digit run (empty at a '.'). */
  function IntegerEnd(s: string, i: nat): (e: nat)
    requires i <= |s|
    ensures i <= e <= |s|
    ensures e > i <==> i < |s| && IsDigit(s[i])
    ensures e > i ==> IsIntegerPart(s[i..e])
  {
    var n := DigitRun(s, i);
    if 1 <= n <= 3 && GroupAt(s, i + n) then
      var e := GroupsEnd(s, i + n);
      assert s[i..e][..n] == s[i..i + n];
      assert s[i..e][n..] == s[i + n..e];
      e
    else
      i + n
  }

  /** End of the optional fraction `.d+` starting at `j`. */
  function FractionEnd(s: string, j: nat): (e: nat)
    requires j <= |s|
    ensures j <= e <= |s|
    ensures e > j <==> j + 1 < |s| && s[j] == '.' && IsDigit(s[j + 1])
    ensures e > j ==> IsFractionPart(s[j..e])
  {
    if j + 1 < |s| && s[j] == '.' && IsDigit(s[j + 1]) then
      var e := j + 1 + DigitRun(s, j + 1);
      assert s[j..e][1..] == s[j + 1..e];
      e
    else
      j
  }

  /** The pattern's lookahead `(?=\d|\.\d)`. */
  predicate StartsNumber(s: string, i: nat) {
    (i < |s| && IsDigit(s[i])) || (i + 1 < |s| && s[i] == '.' && IsDigit(s[i + 1]))
  }

  /** End of the greedy token that starts at `i`: the integer part, then
      the optional fraction. */
  function TokenEnd(s: string, i: nat): (e: nat)
    requires i <= |s| && StartsNumber(s, i)
    ensures i < e <= |s|
  {
    GreedyTokenShape(s, i);
    FractionEnd(s, IntegerEnd(s, i))
  }

  /** The greedy token is a token of the grammar and no longer token starts
      at `i`: it is the longest one, which is the one `re` takes. */
  lemma TokenEndIsLongest(s: string, i: nat)
    requires i <= |s| && StartsNumber(s, i)
    ensures IsNumberToken(s[i..TokenEnd(s, i)])
    ensures forall x :: TokenEnd(s, i) < x <= |s| ==> !IsNumberToken(s[i..x])
  {
    GreedyTokenShape(s, i);
    forall x | TokenEnd(s, i) < x <= |s|
      ensures !IsNumberToken(s[i..x])
    {
      if IsNumberToken(s[i..x]) {
        TokenIsLongest(s, i, x);
      }
    }
  }

  /** The integer part followed by the fraction is a token of the grammar. */
  lemma GreedyTokenShape(s: string, i: nat)
    requires i <= |s| && StartsNumber(s, i)
    ensures i < FractionEnd(s, IntegerEnd(s, i))
    ensures IsNumberToken(s[i..FractionEnd(s, IntegerEnd(s, i))])
  {
    var m := IntegerEnd(s, i);
    var e := FractionEnd(s, m);
    var t := s[i..e];
    if m > i && e > m {
      var k := m - i;
      assert t[..k] == s[i..m] by {
        forall q | 0 <= q < k ensures t[..k][q] == s[i..m][q] {
          assert t[q] == s[i + q];
        }
      }
      assert t[k..] == s[m..e] by {
        forall q | 0 <= q < e - m ensures t[k..][q] == s[m..e][q] {
          assert t[k + q] == s[m + q];
        }
      }
      assert 0 < k < |t| && IsIntegerPart(t[..k]) && IsFractionPart(t[k..]);
    }
  }

  /** A run of digits from `i` ends no later than the measured run. */
  lemma RunBound(s: string, i: nat, x: nat)
    requires i <= x <= |s|
    requires forall q :: i <= q < x ==> IsDigit(s[q])
    ensures x <= i + DigitRun(s, i)
  {
  }

  /** A slice of a slice is a slice of the whole. */
  lemma SliceOfSlice(s: string, i: nat, x: nat, a: nat, b: nat)
    requires i <= x <= |s| && a <= b <= x - i
    ensures s[i..x][a..b] == s[i + a..i + b]
  {
    forall q | 0 <= q < b - a ensures s[i..x][a..b][q] == s[i + a..i + b][q] {
      assert s[i..x][a..b][q] == s[i..x][a + q] == s[i + a + q];
    }
  }

  /** The two halves of a slice cut at `k` are slices of the whole. */
  lemma SliceSplit(s: string, i: nat, x: nat, k: nat)
    requires i <= x <= |s| && k <= x - i
    ensures s[i..x][..k] == s[i..i + k] && s[i..x][k..] == s[i + k..x]
  {
    SliceOfSlice(s, i, x, 0, k);
    SliceOfSlice(s, i, x, k, x - i);
    assert s[i..x][..k] == s[i..x][0..k] && s[i..x][k..] == s[i..x][k..x - i];
  }

  /** A chain of groups at `j` opens with a group. */
  lemma GroupTailStart(s: string, j: nat, x: nat)
    requires j < x <= |s| && IsGroupTail(s[j..x])
    ensures GroupAt(s, j)
  {
    var t := s[j..x];
    assert t[1..4][0] == s[j + 1] && t[1..4][1] == s[j + 2] && t[1..4][2] == s[j + 3];
  }

  /** A chain of groups from `j` ends at most where the greedy chain ends,
      and where it ends earlier another group follows. */
  lemma {:induction false} GroupTailBound(s: string, j: nat, x: nat)
    requires GroupAt(s, j) && j < x <= |s| && IsGroupTail(s[j..x])
    ensures x <= GroupsEnd(s, j)
    ensures x < GroupsEnd(s, j) ==> s[x] == ','
    decreases x - j
  {
    var t := s[j..x];
    if |t| > 4 {
      SliceOfSlice(s, j, x, 4, x - j);
      GroupTailStart(s, j + 4, x);
      GroupTailBound(s, j + 4, x);
    }
  }

  /** An integer part at `i` ends at most where the greedy one ends, and
      where it ends earlier a digit or a comma follows. */
  lemma IntegerPartBound(s: string, i: nat, x: nat)
    requires i < x <= |s| && IsIntegerPart(s[i..x])
    ensures x <= IntegerEnd(s, i)
    ensures x < IntegerEnd(s, i) ==> IsDigit(s[x]) || s[x] == ','
  {
    var t := s[i..x];
    if IsPlainInteger(t) {
      forall q | i <= q < x ensures IsDigit(s[q]) {
        assert s[q] == t[q - i];
      }
      PlainPartBound(s, i, x);
    } else {
      var h :| 1 <= h <= 3 && h < |t| && AllDigits(t[..h]) && IsGroupTail(t[h..]);
      forall q | i <= q < i + h ensures IsDigit(s[q]) {
        assert s[q] == t[..h][q - i];
      }
      SliceOfSlice(s, i, x, h, x - i);
      assert t[h..] == t[h..x - i];
      GroupedPartBound(s, i, h, x);
    }
  }

  /** A run of digits at `i` ends at most where the greedy integer part
      ends, and where it ends earlier a digit or a comma follows. */
  lemma PlainPartBound(s: string, i: nat, x: nat)
    requires i < x <= |s| && forall q :: i <= q < x ==> IsDigit(s[q])
    ensures x <= IntegerEnd(s, i)
    ensures x < IntegerEnd(s, i) ==> IsDigit(s[x]) || s[x] == ','
  {
    var n := DigitRun(s, i);
    RunBound(s, i, x);
    if x < i + n {
      assert s[x] == s[i..i + n][x - i];
    } else if 1 <= n <= 3 && GroupAt(s, i + n) {
      assert s[x] == ',';
    } else {
      assert IntegerEnd(s, i) == x;
    }
  }

  /** A grouped integer with `h` leading digits at `i`: the greedy scanner
      takes the grouped form too, and its groups reach at least as far. */
  lemma GroupedPartBound(s: string, i: nat, h: nat, x: nat)
    requires 1 <= h <= 3 && i + h < x <= |s|
    requires forall q :: i <= q < i + h ==> IsDigit(s[q])
    requires IsGroupTail(s[i + h..x])
    ensures x <= IntegerEnd(s, i)
    ensures x < IntegerEnd(s, i) ==> IsDigit(s[x]) || s[x] == ','
  {
    GroupTailStart(s, i + h, x);
    DigitRunExact(s, i, h);
    assert IntegerEnd(s, i) == GroupsEnd(s, i + h);
    GroupTailBound(s, i + h, x);
  }

  /** A fraction at `j` ends at most where the greedy one ends. */
  lemma FractionPartBound(s: string, j: nat, x: nat)
    requires j < x <= |s| && IsFractionPart(s[j..x])
    ensures x <= FractionEnd(s, j)
  {
    var t := s[j..x];
    assert s[j] == t[0] && s[j + 1] == t[1..][0];
    forall q | j + 1 <= q < x ensures IsDigit(s[q]) {
      assert s[q] == t[1..][q - j - 1];
    }
    RunBound(s, j + 1, x);
  }

  /** No token of the grammar at `i` is longer than the greedy one. */
  lemma TokenIsLongest(s: string, i: nat, x: nat)
    requires i < x <= |s| && IsNumberToken(s[i..x])
    ensures x <= FractionEnd(s, IntegerEnd(s, i))
  {
    if IsIntegerPart(s[i..x]) {
      IntegerPartBound(s, i, x);
    } else if IsFractionPart(s[i..x]) {
      FractionTokenBound(s, i, x);
    } else {
      var m := MixedTokenSplit(s, i, x);
      MixedTokenBound(s, i, m, x);
    }
  }

  /** A bare fraction at `i` ends at most where the greedy token ends. */
  lemma FractionTokenBound(s: string, i: nat, x: nat)
    requires i < x <= |s| && IsFractionPart(s[i..x])
    ensures x <= FractionEnd(s, IntegerEnd(s, i))
  {
    assert s[i] == s[i..x][0];
    assert IntegerEnd(s, i) == i;
    FractionPartBound(s, i, x);
  }

  /** An integer part followed by a fraction, split at `m`. */
  lemma MixedTokenSplit(s: string, i: nat, x: nat) returns (m: nat)
    requires i < x <= |s| && IsMixedToken(s[i..x])
    ensures i < m < x && IsIntegerPart(s[i..m]) && IsFractionPart(s[m..x])
  {
    var t := s[i..x];
    var k :| 0 < k < |t| && IsIntegerPart(t[..k]) && IsFractionPart(t[k..]);
    SliceSplit(s, i, x, k);
    m := i + k;
  }

  /** An integer part followed by a fraction ends at most where the greedy
      token ends: the fraction's point stops the greedy integer part at the
      same place. */
  lemma MixedTokenBound(s: string, i: nat, m: nat, x: nat)
    requires i < m < x <= |s| && IsIntegerPart(s[i..m]) && IsFractionPart(s[m..x])
    ensures x <= FractionEnd(s, IntegerEnd(s, i))
  {
    IntegerPartBound(s, i, m);
    assert s[m] == s[m..x][0] == '.';
    assert m == IntegerEnd(s, i);
    FractionPartBound(s, m, x);
  }

  /** Where a token lies in the scanned text. */
  datatype Span = Span(start: nat, end: nat)

  /** The positions `re.findall` reports for the bare-number pattern,
      scanning from `i`: a token is taken where one starts and scanning
      resumes at its end; elsewhere scanning moves on by one character. */
  function NumberSpansFrom(s: string, i: nat): (r: seq<Span>)
    requires i <= |s|
    ensures forall k :: 0 <= k < |r| ==> i <= r[k].start < r[k].end <= |s|
    decreases |s| - i
  {
    if i == |s| then []
    else if StartsNumber(s, i) then [Span(i, TokenEnd(s, i))] + NumberSpansFrom(s, TokenEnd(s, i))
    else NumberSpansFrom(s, i + 1)
  }

  /** `re.findall(<bare-number pattern>, s)`. */
  function BareNumbers(s: string): seq<string> {
    var sp := NumberSpansFrom(s, 0);
    seq(|sp|, k requires 0 <= k < |sp| => s[sp[k].start..sp[k].end])
  }

  // ---------------------------------------------------------------------
  // Properties of the bare-number scanner

  /** Every span is a whole token of the grammar, and the spans come out left
      to right without overlapping. */
  lemma SpansAreOrderedTokens(s: string, i: nat)
    requires i <= |s|
    ensures forall k :: 0 <= k < |NumberSpansFrom(s, i)| ==>
      IsNumberToken(s[NumberSpansFrom(s, i)[k].start..NumberSpansFrom(s, i)[k].end])
    ensures forall k, l :: 0 <= k < l < |NumberSpansFrom(s, i)| ==>
      NumberSpansFrom(s, i)[k].end <= NumberSpansFrom(s, i)[l].start
    ensures forall k :: 0 <= k < |NumberSpansFrom(s, i)| ==>
      StartsNumber(s, NumberSpansFrom(s, i)[k].start) &&
      NumberSpansFrom(s, i)[k].end == TokenEnd(s, NumberSpansFrom(s, i)[k].start)
  {
    SpansAreTokens(s, i);
    SpansInOrder(s, i);
    SpansAreGreedy(s, i);
  }

  /** Every span is the greedy token at its start, so it is the longest
      token there (`TokenEndIsLongest`). */
  lemma {:induction false} SpansAreGreedy(s: string, i: nat)
    requires i <= |s|
    ensures forall k :: 0 <= k < |NumberSpansFrom(s, i)| ==>
      StartsNumber(s, NumberSpansFrom(s, i)[k].start) &&
      NumberSpansFrom(s, i)[k].end == TokenEnd(s, NumberSpansFrom(s, i)[k].start)
    decreases |s| - i
  {
    if i < |s| {
      if StartsNumber(s, i) {
        var e := TokenEnd(s, i);
        var rest := NumberSpansFrom(s, e);
        assert NumberSpansFrom(s, i) == [Span(i, e)] + rest;
        SpansAreGreedy(s, e);
      } else {
        SpansAreGreedy(s, i + 1);
      }
    }
  }

  lemma {:induction false} SpansAreTokens(s: string, i: nat)
    requires i <= |s|
    ensures forall k :: 0 <= k < |NumberSpansFrom(s, i)| ==>
      IsNumberToken(s[NumberSpansFrom(s, i)[k].start..NumberSpansFrom(s, i)[k].end])
    decreases |s| - i
  {
    if i < |s| {
      if StartsNumber(s, i) {
        var e := TokenEnd(s, i);
        var rest := NumberSpansFrom(s, e);
        assert NumberSpansFrom(s, i) == [Span(i, e)] + rest;
        TokenEndIsLongest(s, i);
        SpansAreTokens(s, e);
      } else {
        SpansAreTokens(s, i + 1);
      }
    }
  }

  lemma {:induction false} SpansInOrder(s: string, i: nat)
    requires i <= |s|
    ensures forall k, l :: 0 <= k < l < |NumberSpansFrom(s, i)| ==>
      NumberSpansFrom(s, i)[k].end <= NumberSpansFrom(s, i)[l].start
    decreases |s| - i
  {
    if i < |s| {
      if StartsNumber(s, i) {
        var e := TokenEnd(s, i);
        var rest := NumberSpansFrom(s, e);
        assert NumberSpansFrom(s, i) == [Span(i, e)] + rest;
        SpansInOrder(s, e);
      } else {
        SpansInOrder(s, i + 1);
      }
    }
  }

  /** No token start is skipped: every place at or after `i` where the
      lookahead allows a number (a digit, or '.' and a digit) lies inside a
      span. */
  lemma {:induction false} SpansCoverStarts(s: string, i: nat, p: nat) returns (k: nat)
    requires i <= p < |s| && StartsNumber(s, p)
    ensures k < |NumberSpansFrom(s, i)|
    ensures NumberSpansFrom(s, i)[k].start <= p < NumberSpansFrom(s, i)[k].end
    decreases |s| - i, 1
  {
    if StartsNumber(s, i) {
      k := SpansCoverStartsAtToken(s, i, p);
    } else {
      k := SpansCoverStarts(s, i + 1, p);
    }
  }

  lemma {:induction false} SpansCoverStartsAtToken(s: string, i: nat, p: nat) returns (k: nat)
    requires i <= p < |s| && StartsNumber(s, p) && StartsNumber(s, i)
    ensures k < |NumberSpansFrom(s, i)|
    ensures NumberSpansFrom(s, i)[k].start <= p < NumberSpansFrom(s, i)[k].end
    decreases |s| - i, 0
  {
    var e := TokenEnd(s, i);
    var rest := NumberSpansFrom(s, e);
    assert NumberSpansFrom(s, i) == [Span(i, e)] + rest;
    if p < e {
      k := 0;
    } else {
      var k' := SpansCoverStarts(s, e, p);
      k := k' + 1;
    }
  }

  /** No digit is skipped: every digit at or after `i` lies inside a span. */
  lemma SpansCoverDigits(s: string, i: nat, p: nat) returns (k: nat)
    requires i <= p < |s| && IsDigit(s[p])
    ensures k < |NumberSpansFrom(s, i)|
    ensures NumberSpansFrom(s, i)[k].start <= p < NumberSpansFrom(s, i)[k].end
  {
    k := SpansCoverStarts(s, i, p);
  }

  /** Every token of the grammar holds at least one digit. */
  lemma TokenHasDigit(t: string)
    requires IsNumberToken(t)
    ensures HasDigit(t)
  {
    if IsIntegerPart(t) {
      IntegerPartStartsWithDigit(t);
    } else if IsFractionPart(t) {
      assert IsDigit(t[1]);
    } else {
      var k :| 0 < k < |t| && IsIntegerPart(t[..k]) && IsFractionPart(t[k..]);
      IntegerPartStartsWithDigit(t[..k]);
      assert IsDigit(t[0]);
    }
  }

  lemma IntegerPartStartsWithDigit(t: string)
    requires IsIntegerPart(t)
    ensures |t| > 0 && IsDigit(t[0])
  {
    if IsGroupedInteger(t) {
      var h :| 1 <= h <= 3 && h < |t| && AllDigits(t[..h]) && IsGroupTail(t[h..]);
      assert t[..h][0] == t[0];
    }
  }

  /** The tokens of `s`: each one a non-empty token of the grammar holding a
      digit ... */
  lemma BareNumbersAreTokens(s: string)
    ensures forall k :: 0 <= k < |BareNumbers(s)| ==> IsNumberToken(BareNumbers(s)[k]) && HasDigit(BareNumbers(s)[k])
  {
    SpansAreOrderedTokens(s, 0);
    var r := BareNumbers(s);
    forall k | 0 <= k < |r| ensures HasDigit(r[k]) {
      TokenHasDigit(r[k]);
    }
  }

  /** ... and there are none exactly when `s` has no digit. */
  lemma NoBareNumbersIffNoDigit(s: string)
    ensures BareNumbers(s) == [] <==> !HasDigit(s)
  {
    var r := BareNumbers(s);
    var sp := NumberSpansFrom(s, 0);
    if r != [] {
      SpansAreOrderedTokens(s, 0);
      TokenHasDigit(r[0]);
      var d :| 0 <= d < |r[0]| && IsDigit(r[0][d]);
      assert s[sp[0].start + d] == r[0][d];
    }
    if HasDigit(s) {
      var p :| 0 <= p < |s| && IsDigit(s[p]);
      var k := SpansCoverDigits(s, 0, p);
      assert |r| == |sp|;
    }
  }

  /** A run of exactly `n` digits at `i` is measured as `n`. */
  lemma {:induction false} DigitRunExact(s: string, i: nat, n: nat)
    requires i + n <= |s|
    requires forall k :: i <= k < i + n ==> IsDigit(s[k])
    requires i + n == |s| || !IsDigit(s[i + n])
    ensures DigitRun(s, i) == n
    decreases n
  {
    if n > 0 {
      DigitRunExact(s, i + 1, n - 1);
    }
  }

  /** The integer part at `i` is a plain run of `a` digits when no comma
      follows it. */
  lemma PlainIntegerEnd(s: string, i: nat, a: nat)
    requires i + a <= |s|
    requires forall k :: i <= k < i + a ==> IsDigit(s[k])
    requires i + a < |s| ==> !IsDigit(s[i + a]) && s[i + a] != ','
    ensures IntegerEnd(s, i) == i + a
  {
    DigitRunExact(s, i, a);
  }

  /** The fraction at `j` is '.' and a run of `b - 1` digits. */
  lemma FractionEndExact(s: string, j: nat, b: nat)
    requires 2 <= b && j + b <= |s| && s[j] == '.'
    requires forall k :: j < k < j + b ==> IsDigit(s[k])
    requires j + b == |s| || !IsDigit(s[j + b])
    ensures FractionEnd(s, j) == j + b
  {
    DigitRunExact(s, j + 1, b - 1);
  }

  /** The end of a token without grouping commas: `a` integer digits, then
      a fraction of `b` characters ('.' and its digits) or none (`b == 0`). */
  lemma PlainTokenEnd(s: string, i: nat, a: nat, b: nat)
    requires a > 0 || b > 0
    requires i + a + b <= |s|
    requires forall k :: i <= k < i + a ==> IsDigit(s[k])
    requires i + a < |s| ==> !IsDigit(s[i + a]) && s[i + a] != ','
    requires b == 0 ==> !(i + a + 1 < |s| && s[i + a] == '.' && IsDigit(s[i + a + 1]))
    requires b > 0 ==> b >= 2 && s[i + a] == '.'
    requires forall k :: i + a < k < i + a + b ==> IsDigit(s[k])
    requires b > 0 ==> i + a + b == |s| || !IsDigit(s[i + a + b])
    ensures StartsNumber(s, i) && TokenEnd(s, i) == i + a + b
  {
    PlainIntegerEnd(s, i, a);
    if b > 0 {
      FractionEndExact(s, i + a, b);
    }
  }

  /** The comma form is tried first and is greedy: "1,2345" gives "1,234"
      and then "5". */
  lemma GroupedFormFirst()
    ensures BareNumbers("1,2345") == ["1,234", "5"]
  {
    var s := "1,2345";
    GroupedFormSpans(s);
    assert s[..5] == "1,234" && s[5..] == "5";
  }

  lemma GroupedFormSpans(s: string)
    requires |s| == 6 && s[1] == ','
    requires IsDigit(s[0]) && IsDigit(s[2]) && IsDigit(s[3]) && IsDigit(s[4]) && IsDigit(s[5])
    ensures BareNumbers(s) == [s[..5], s[5..]]
  {
    DigitRunExact(s, 0, 1);
    assert GroupsEnd(s, 1) == 5;
    assert IntegerEnd(s, 0) == 5;
    assert TokenEnd(s, 0) == 5;
    PlainTokenEnd(s, 5, 1, 0);
    assert NumberSpansFrom(s, 6) == [];
    assert NumberSpansFrom(s, 5) == [Span(5, 6)];
    assert NumberSpansFrom(s, 0) == [Span(0, 5), Span(5, 6)];
    var r := BareNumbers(s);
    assert |r| == 2 && r[0] == s[0..5] && r[1] == s[5..6];
    assert s[0..5] == s[..5] && s[5..6] == s[5..];
  }

  /** A second point starts a new token: "12.34.56" gives "12.34" and
      then ".56". */
  lemma SecondPointStartsToken()
    ensures BareNumbers("12.34.56") == ["12.34", ".56"]
  {
    var s := "12.34.56";
    SecondPointSpans(s);
    assert s[..5] == "12.34" && s[5..] == ".56";
  }

  lemma SecondPointSpans(s: string)
    requires |s| == 8 && s[2] == '.' && s[5] == '.'
    requires IsDigit(s[0]) && IsDigit(s[1]) && IsDigit(s[3]) && IsDigit(s[4]) && IsDigit(s[6]) && IsDigit(s[7])
    ensures BareNumbers(s) == [s[..5], s[5..]]
  {
    PlainTokenEnd(s, 0, 2, 3);
    PlainTokenEnd(s, 5, 0, 3);
    assert NumberSpansFrom(s, 8) == [];
    assert NumberSpansFrom(s, 5) == [Span(5, 8)];
    assert NumberSpansFrom(s, 0) == [Span(0, 5), Span(5, 8)];
    var r := BareNumbers(s);
    assert |r| == 2 && r[0] == s[0..5] && r[1] == s[5..8];
    assert s[0..5] == s[..5] && s[5..8] == s[5..];
  }

  // ---------------------------------------------------------------------
  // The characters a token is made of

  predicate IsNumberChar(c: char) {
    IsDigit(c) || c == ',' || c == '.'
  }

  /** A token is made of digits, commas and points only. */
  lemma TokenChars(t: string)
    requires IsNumberToken(t)
    ensures forall q :: 0 <= q < |t| ==> IsNumberChar(t[q])
  {
    if IsIntegerPart(t) {
      IntegerPartChars(t);
    } else if !IsFractionPart(t) {
      var k :| 0 < k < |t| && IsIntegerPart(t[..k]) && IsFractionPart(t[k..]);
      IntegerPartChars(t[..k]);
      forall q | 0 <= q < |t| ensures IsNumberChar(t[q]) {
        if q < k {
          assert t[q] == t[..k][q];
        } else {
          assert t[q] == t[k..][q - k];
        }
      }
    }
  }

  lemma IntegerPartChars(t: string)
    requires IsIntegerPart(t)
    ensures forall q :: 0 <= q < |t| ==> IsNumberChar(t[q])
  {
    if !IsPlainInteger(t) {
      var h :| 1 <= h <= 3 && h < |t| && AllDigits(t[..h]) && IsGroupTail(t[h..]);
      GroupTailChars(t[h..]);
      forall q | 0 <= q < |t| ensures IsNumberChar(t[q]) {
        if q < h {
          assert t[q] == t[..h][q];
        } else {
          assert t[q] == t[h..][q - h];
        }
      }
    }
  }

  lemma {:induction false} GroupTailChars(t: string)
    requires IsGroupTail(t)
    ensures forall q :: 0 <= q < |t| ==> IsNumberChar(t[q])
    decreases |t|
  {
    if |t| > 4 {
      GroupTailChars(t[4..]);
    }
    forall q | 0 <= q < |t| ensures IsNumberChar(t[q]) {
      if 1 <= q < 4 {
        assert t[q] == t[1..4][q - 1];
      } else if q >= 4 {
        assert t[q] == t[4..][q - 4];
      }
    }
  }

  /** A token opens the way the pattern's lookahead demands. */
  lemma TokenStarts(t: string)
    requires IsNumberToken(t)
    ensures StartsNumber(t, 0)
  {
    if IsIntegerPart(t) {
      IntegerPartStartsWithDigit(t);
    } else if IsFractionPart(t) {
      assert IsDigit(t[1..][0]);
    } else {
      var k :| 0 < k < |t| && IsIntegerPart(t[..k]) && IsFractionPart(t[k..]);
      IntegerPartStartsWithDigit(t[..k]);
      assert t[..k][0] == t[0];
    }
  }

  /** A token followed by a character that no token contains is read as
      exactly that token. */
  lemma TokenEndOfToken(d: string, x: string)
    requires IsNumberToken(d) && |x| > 0 && !IsNumberChar(x[0])
    ensures StartsNumber(d + x, 0) && TokenEnd(d + x, 0) == |d|
  {
    var s := d + x;
    TokenStarts(d);
    TokenHasDigit(d);
    assert s[0] == d[0];
    assert |d| >= 2 ==> s[1] == d[1];
    assert StartsNumber(s, 0);
    assert s[0..|d|] == d;
    var e := TokenEnd(s, 0);
    TokenEndIsLongest(s, 0);
    if e > |d| {
      TokenChars(s[0..e]);
    }
  }

  // ---------------------------------------------------------------------
  // The inline-suffix scanner

  /** A match of the inline pattern: the number group and the suffix group,
      as captured (suffix in its original letter case). */
  datatype InlineMatch = InlineMatch(number: string, suffix: string)

  /** The first of `alternatives` (all lower case) that `s` spells at `j`
      in any letter case, returned as captured. */
  function SuffixFrom(s: string, j: nat, alternatives: seq<string>): (r: Option<string>)
    requires j <= |s|
    ensures r.Some? ==> j + |r.value| <= |s| && r.value == s[j..j + |r.value|]
  {
    if alternatives == [] then None
    else
      var a := alternatives[0];
      if j + |a| <= |s| && Lower(s[j..j + |a|]) == a then Some(s[j..j + |a|])
      else SuffixFrom(s, j, alternatives[1..])
  }

  /** What `SuffixFrom` captures lower-cases to one of the alternatives,
      and it captures nothing exactly when `s` spells none of them at `j`. */
  lemma {:induction false} SuffixFromMeaning(s: string, j: nat, alternatives: seq<string>)
    requires j <= |s|
    ensures SuffixFrom(s, j, alternatives).Some? ==> Lower(SuffixFrom(s, j, alternatives).value) in alternatives
    ensures SuffixFrom(s, j, alternatives).None? ==>
      forall k :: 0 <= k < |alternatives| && j + |alternatives[k]| <= |s| ==>
        Lower(s[j..j + |alternatives[k]|]) != alternatives[k]
    decreases |alternatives|
  {
    if alternatives != [] {
      var a := alternatives[0];
      if !(j + |a| <= |s| && Lower(s[j..j + |a|]) == a) {
        SuffixFromMeaning(s, j, alternatives[1..]);
        assert forall k :: 1 <= k < |alternatives| ==> alternatives[k] == alternatives[1..][k - 1];
      }
    }
  }

  /** The suffix group `( hundred|k| thousand|m| million)` under `(?i)` at
      `j`: the text it captures there, if any. */
  function InlineSuffixAt(s: string, j: nat): (r: Option<string>)
    requires j <= |s|
    ensures r.Some? ==> 0 < |r.value| && j + |r.value| <= |s| && r.value == s[j..j + |r.value|]
  {
    SuffixFromMeaning(s, j, InlineSuffixes);
    var r := SuffixFrom(s, j, InlineSuffixes);
    if r.Some? then
      assert |Lower(r.value)| == |r.value|;
      r
    else
      r
  }

  /** What the suffix group captures lower-cases to one of the suffixes (so
      to a key of the unit table), and it captures nothing exactly when no
      suffix is spelled at `j`. */
  lemma InlineSuffixAtMeaning(s: string, j: nat)
    requires j <= |s|
    ensures InlineSuffixAt(s, j).Some? ==>
      Lower(InlineSuffixAt(s, j).value) in InlineSuffixes && Lower(InlineSuffixAt(s, j).value) in Multipliers
    ensures InlineSuffixAt(s, j).None? ==>
      forall k :: 0 <= k < |InlineSuffixes| && j + |InlineSuffixes[k]| <= |s| ==>
        Lower(s[j..j + |InlineSuffixes[k]|]) != InlineSuffixes[k]
  {
    SuffixFromMeaning(s, j, InlineSuffixes);
  }

  /** No suffix is a prefix of another. */
  lemma SuffixesPrefixFree(a: string, b: string)
    requires a in InlineSuffixes && b in InlineSuffixes && |a| <= |b| && a == b[..|a|]
    ensures a == b
  {
    assert a[0] == b[0];
    if |a| >= 2 {
      assert a[1] == b[1];
    }
  }

  lemma LowerPrefix(y: string, n: nat)
    requires n <= |y|
    ensures Lower(y[..n]) == Lower(y)[..n]
  {
  }

  /** Whatever suffix is spelled at `j` is what the suffix group captures
      there. */
  lemma InlineSuffixAtExact(s: string, j: nat, x: string)
    requires j + |x| <= |s| && s[j..j + |x|] == x && Lower(x) in InlineSuffixes
    ensures InlineSuffixAt(s, j) == Some(x)
  {
    SuffixSpelled(s, j, x);
    InlineSuffixAtMeaning(s, j);
    var y := InlineSuffixAt(s, j).value;
    if |x| <= |y| {
      ShorterSuffix(s, j, x, y);
    } else {
      ShorterSuffix(s, j, y, x);
    }
  }

  lemma SuffixSpelled(s: string, j: nat, x: string)
    requires j + |x| <= |s| && s[j..j + |x|] == x && Lower(x) in InlineSuffixes
    ensures InlineSuffixAt(s, j).Some?
  {
    var k :| 0 <= k < |InlineSuffixes| && InlineSuffixes[k] == Lower(x);
    InlineSuffixAtMeaning(s, j);
  }

  /** Two suffixes spelled at the same place are the same text. */
  lemma ShorterSuffix(s: string, j: nat, x: string, y: string)
    requires |x| <= |y| && j + |y| <= |s| && s[j..j + |x|] == x && s[j..j + |y|] == y
    requires Lower(x) in InlineSuffixes && Lower(y) in InlineSuffixes
    ensures x == y
  {
    SliceOfSlice(s, j, j + |y|, 0, |x|);
    assert y[..|x|] == y[0..|x|];
    LowerPrefix(y, |x|);
    SuffixesPrefixFree(Lower(x), Lower(y));
  }

  /** Where an inline match lies in the text: its number in
      `start..numberEnd`, its suffix in `numberEnd..end`. */
  datatype InlineSpan = InlineSpan(start: nat, numberEnd: nat, end: nat)

  /** `sp` marks a match of the inline pattern in `s`: the greedy token at
      `start`, immediately followed by one of the suffixes in any letter
      case. */
  predicate IsInlineMatchAt(s: string, sp: InlineSpan) {
    sp.start < sp.numberEnd < sp.end <= |s| && StartsNumber(s, sp.start) &&
    sp.numberEnd == TokenEnd(s, sp.start) && Lower(s[sp.numberEnd..sp.end]) in InlineSuffixes
  }

  /** The match of the inline pattern that starts at `i`, if any: the
      greedy token there followed by the suffix the suffix group captures. */
  function MatchAt(s: string, i: nat): (r: Option<InlineSpan>)
    requires i <= |s|
    ensures r.Some? ==> r.value.start == i < r.value.numberEnd < r.value.end <= |s|
  {
    if i < |s| && StartsNumber(s, i) then
      var e := TokenEnd(s, i);
      match InlineSuffixAt(s, e)
      case Some(sfx) => Some(InlineSpan(i, e, e + |sfx|))
      case None => None
    else None
  }

  /** What `MatchAt` finds is a match of the inline pattern. */
  lemma MatchAtIsMatch(s: string, i: nat)
    requires i <= |s| && MatchAt(s, i).Some?
    ensures IsInlineMatchAt(s, MatchAt(s, i).value)
  {
    InlineSuffixAtMeaning(s, TokenEnd(s, i));
  }

  /** Wherever the inline pattern matches, `MatchAt` finds that match. */
  lemma MatchAtExact(s: string, sp: InlineSpan)
    requires IsInlineMatchAt(s, sp)
    ensures MatchAt(s, sp.start) == Some(sp)
  {
    var e := sp.numberEnd;
    InlineSuffixAtExact(s, e, s[e..sp.end]);
    assert |s[e..sp.end]| == sp.end - e;
  }

  /** A table of match positions: the match recorded at `p` starts at `p`
      and ends before the last entry. */
  predicate IsSpanTable(t: seq<Option<InlineSpan>>) {
    |t| > 0 &&
    forall p :: 0 <= p < |t| && t[p].Some? ==> t[p].value.start == p < t[p].value.numberEnd < t[p].value.end < |t|
  }

  /** The match of the inline pattern starting at each position of `s`,
      the end of the text included. */
  function InlineTable(s: string): (t: seq<Option<InlineSpan>>)
    ensures |t| == |s| + 1 && IsSpanTable(t)
    ensures forall p :: 0 <= p <= |s| ==> t[p] == MatchAt(s, p)
  {
    seq(|s| + 1, p requires 0 <= p <= |s| => MatchAt(s, p))
  }

  /** Leftmost-first scanning over a table from `i`: a recorded match is
      taken and scanning resumes at its end; elsewhere it moves on by one
      position. */
  function ScanFrom(t: seq<Option<InlineSpan>>, i: nat): (r: seq<InlineSpan>)
    requires IsSpanTable(t) && i < |t|
    ensures forall k :: 0 <= k < |r| ==> i <= r[k].start < r[k].numberEnd < r[k].end < |t|
    decreases |t| - i
  {
    if i == |t| - 1 then []
    else
      match t[i]
      case Some(sp) => [sp] + ScanFrom(t, sp.end)
      case None => ScanFrom(t, i + 1)
  }

  /** The positions `re.findall(<inline pattern>, s)` reports, scanning from
      `i`: where a match starts it is taken and scanning resumes after its
      suffix; otherwise scanning moves on by one character. */
  function InlineSpansFrom(s: string, i: nat): (r: seq<InlineSpan>)
    requires i <= |s|
    ensures forall k :: 0 <= k < |r| ==> i <= r[k].start < r[k].numberEnd < r[k].end <= |s|
  {
    ScanFrom(InlineTable(s), i)
  }

  /** The scan only takes matches the table records, each at its start. */
  lemma {:induction false} ScanTakesRecorded(t: seq<Option<InlineSpan>>, i: nat)
    requires IsSpanTable(t) && i < |t|
    ensures forall k :: 0 <= k < |ScanFrom(t, i)| ==> t[ScanFrom(t, i)[k].start] == Some(ScanFrom(t, i)[k])
    decreases |t| - i
  {
    if i < |t| - 1 {
      match t[i]
      case Some(sp) => ScanTakesRecorded(t, sp.end);
      case None => ScanTakesRecorded(t, i + 1);
    }
  }

  /** Every reported span is a match of the inline pattern. */
  lemma InlineSpansAreMatches(s: string, i: nat)
    requires i <= |s|
    ensures forall k :: 0 <= k < |InlineSpansFrom(s, i)| ==> IsInlineMatchAt(s, InlineSpansFrom(s, i)[k])
  {
    var r := InlineSpansFrom(s, i);
    ScanTakesRecorded(InlineTable(s), i);
    forall k | 0 <= k < |r| ensures IsInlineMatchAt(s, r[k]) {
      MatchAtIsMatch(s, r[k].start);
    }
  }

  function InlineSpans(s: string): seq<InlineSpan> {
    InlineSpansFrom(s, 0)
  }

  /** `re.findall(<inline pattern>, s)`: the number and the suffix of each
      match, which together are the text of its span. */
  function InlineMatches(s: string): (r: seq<InlineMatch>)
    ensures |r| == |InlineSpans(s)|
    ensures forall k :: 0 <= k < |r| ==>
      r[k].number + r[k].suffix == s[InlineSpans(s)[k].start..InlineSpans(s)[k].end]
  {
    var sp := InlineSpans(s);
    seq(|sp|, k requires 0 <= k < |sp| => InlineMatch(s[sp[k].start..sp[k].numberEnd], s[sp[k].numberEnd..sp[k].end]))
  }

  /** Each match's number is a token of the grammar and its suffix lower-cases
      to one of the suffixes, so to a key of the unit table. */
  lemma InlineMatchesParts(s: string)
    ensures forall k :: 0 <= k < |InlineMatches(s)| ==>
      IsNumberToken(InlineMatches(s)[k].number) && Lower(InlineMatches(s)[k].suffix) in InlineSuffixes &&
      Lower(InlineMatches(s)[k].suffix) in Multipliers
  {
    var r := InlineMatches(s);
    var sp := InlineSpans(s);
    InlineSpansAreMatches(s, 0);
    forall k | 0 <= k < |r|
      ensures IsNumberToken(r[k].number) && Lower(r[k].suffix) in InlineSuffixes && Lower(r[k].suffix) in Multipliers
    {
      SpanParts(s, sp[k]);
    }
  }

  /** Where each match sits in the text: its number is the greedy token at
      its start, its suffix follows that token immediately, and the matches
      come left to right without overlapping. */
  lemma InlineMatchesInText(s: string)
    ensures forall k :: 0 <= k < |InlineMatches(s)| ==>
      StartsNumber(s, InlineSpans(s)[k].start) && InlineSpans(s)[k].numberEnd == TokenEnd(s, InlineSpans(s)[k].start) &&
      InlineMatches(s)[k].number == s[InlineSpans(s)[k].start..InlineSpans(s)[k].numberEnd] &&
      InlineMatches(s)[k].suffix == s[InlineSpans(s)[k].numberEnd..InlineSpans(s)[k].end]
    ensures forall k, l :: 0 <= k < l < |InlineSpans(s)| ==> InlineSpans(s)[k].end <= InlineSpans(s)[l].start
  {
    InlineSpansAreMatches(s, 0);
    InlineSpansInOrder(s, 0);
  }

  lemma SpanParts(s: string, sp: InlineSpan)
    requires IsInlineMatchAt(s, sp)
    ensures IsNumberToken(s[sp.start..sp.numberEnd])
    ensures Lower(s[sp.numberEnd..sp.end]) in InlineSuffixes && Lower(s[sp.numberEnd..sp.end]) in Multipliers
  {
    TokenEndIsLongest(s, sp.start);
  }

  // ---------------------------------------------------------------------
  // Properties of the inline scanner

  /** A scan takes its matches left to right without overlapping. */
  lemma {:induction false} ScanInOrder(t: seq<Option<InlineSpan>>, i: nat)
    requires IsSpanTable(t) && i < |t|
    ensures forall k, l :: 0 <= k < l < |ScanFrom(t, i)| ==> ScanFrom(t, i)[k].end <= ScanFrom(t, i)[l].start
    decreases |t| - i
  {
    if i < |t| - 1 {
      match t[i]
      case Some(sp) => ScanInOrder(t, sp.end);
      case None => ScanInOrder(t, i + 1);
    }
  }

  /** A scan skips no recorded match: every position from `i` on where the
      table records one lies inside a match the scan takes. */
  lemma {:induction false} ScanCovers(t: seq<Option<InlineSpan>>, i: nat, p: nat) returns (k: nat)
    requires IsSpanTable(t) && i <= p < |t| && t[p].Some?
    ensures k < |ScanFrom(t, i)| && ScanFrom(t, i)[k].start <= p < ScanFrom(t, i)[k].end
    decreases |t| - i
  {
    match t[i]
    case Some(sp) =>
      var rest := ScanFrom(t, sp.end);
      assert ScanFrom(t, i) == [sp] + rest;
      if p < sp.end {
        k := 0;
      } else {
        var k' := ScanCovers(t, sp.end, p);
        k := k' + 1;
      }
    case None =>
      k := ScanCovers(t, i + 1, p);
  }

  /** A scan over a table recording nothing from `i` on takes nothing. */
  lemma {:induction false} ScanEmpty(t: seq<Option<InlineSpan>>, i: nat)
    requires IsSpanTable(t) && i < |t|
    requires forall p :: i <= p < |t| ==> t[p].None?
    ensures ScanFrom(t, i) == []
    decreases |t| - i
  {
    if i < |t| - 1 {
      ScanEmpty(t, i + 1);
    }
  }

  /** The inline matches come out left to right without overlapping. */
  lemma InlineSpansInOrder(s: string, i: nat)
    requires i <= |s|
    ensures forall k, l :: 0 <= k < l < |InlineSpansFrom(s, i)| ==>
      InlineSpansFrom(s, i)[k].end <= InlineSpansFrom(s, i)[l].start
  {
    ScanInOrder(InlineTable(s), i);
  }

  /** No match is skipped: wherever the inline pattern matches at or after
      `i`, that place lies inside a reported match. */
  lemma InlineSpansCoverMatches(s: string, i: nat, sp: InlineSpan) returns (k: nat)
    requires i <= sp.start && IsInlineMatchAt(s, sp)
    ensures k < |InlineSpansFrom(s, i)|
    ensures InlineSpansFrom(s, i)[k].start <= sp.start < InlineSpansFrom(s, i)[k].end
  {
    MatchAtExact(s, sp);
    k := ScanCovers(InlineTable(s), i, sp.start);
  }

  /** A token followed by a suffix is read as one match of that token and
      that suffix. */
  lemma OneInlineMatch(d: string, x: string)
    requires IsNumberToken(d) && Lower(x) in InlineSuffixes
    ensures InlineMatches(d + x) == [InlineMatch(d, x)]
  {
    TokenThenSuffix(d, x);
    SuffixAfterToken(d, x);
    ConcatSlices(d, x);
    OnlyMatch(d + x, |d|);
  }

  /** In `d + x` the token ends where `x` begins. */
  lemma TokenThenSuffix(d: string, x: string)
    requires IsNumberToken(d) && Lower(x) in InlineSuffixes
    ensures 0 < |d| < |d + x| && StartsNumber(d + x, 0) && TokenEnd(d + x, 0) == |d|
  {
    SuffixOpensOffToken(x);
    TokenEndOfToken(d, x);
    TokenHasDigit(d);
  }

  /** In `d + x` the suffix read where `x` begins is `x`. */
  lemma SuffixAfterToken(d: string, x: string)
    requires Lower(x) in InlineSuffixes
    ensures InlineSuffixAt(d + x, |d|) == Some(x)
  {
    ConcatSlices(d, x);
    InlineSuffixAtExact(d + x, |d|, x);
  }

  lemma ConcatSlices<T>(a: seq<T>, b: seq<T>)
    ensures (a + b)[0..|a|] == a && (a + b)[|a|..|a| + |b|] == b && (a + b)[|a|..|a + b|] == b
  {
  }

  /** No suffix begins with a character a token can hold. */
  lemma SuffixOpensOffToken(x: string)
    requires Lower(x) in InlineSuffixes
    ensures |x| > 0 && !IsNumberChar(x[0])
  {
    assert LowerChar(x[0]) == Lower(x)[0];
  }

  /** A text whose greedy token at 0 is followed by a suffix that runs to the
      end holds that one match. */
  /** A stretch opening with a character that can continue a number is no
      spelling of a suffix. */
  lemma NumberCharOpensNoSuffix(t: string)
    requires |t| > 0 && IsNumberChar(t[0])
    ensures Lower(t) !in InlineSuffixes
  {
    assert LowerChar(t[0]) == Lower(t)[0];
  }

  /** Backing off to a shorter number never helps the inline pattern: every
      place before the end of the greedy token holds a character that can
      continue a number, so no suffix is spelled at any earlier end. */
  lemma ShorterNumberTakesNoSuffix(s: string, i: nat, x: nat, a: string)
    requires i <= |s| && StartsNumber(s, i) && i <= x < TokenEnd(s, i)
    requires a in InlineSuffixes && x + |a| <= |s|
    ensures Lower(s[x..x + |a|]) != a
  {
    var e := TokenEnd(s, i);
    TokenEndIsLongest(s, i);
    TokenChars(s[i..e]);
    assert s[x] == s[i..e][x - i];
    var t := s[x..x + |a|];
    assert |a| > 0;
    assert t[0] == s[x];
    NumberCharOpensNoSuffix(t);
  }

  lemma OnlyMatch(s: string, e: nat)
    requires 0 < e < |s| && StartsNumber(s, 0) && TokenEnd(s, 0) == e
    requires InlineSuffixAt(s, e) == Some(s[e..|s|])
    ensures InlineMatches(s) == [InlineMatch(s[0..e], s[e..|s|])]
  {
    var t := InlineTable(s);
    assert t[0] == Some(InlineSpan(0, e, |s|));
    assert ScanFrom(t, |s|) == [];
    assert InlineSpans(s) == [InlineSpan(0, e, |s|)];
  }

  /** Text without digits has no inline match. */
  lemma NoDigitNoInlineMatch(s: string, i: nat)
    requires i <= |s|
    requires forall p :: i <= p < |s| ==> !IsDigit(s[p])
    ensures InlineSpansFrom(s, i) == []
  {
    var t := InlineTable(s);
    forall p | i <= p < |t| ensures t[p].None? {
      assert !StartsNumber(s, p);
    }
    ScanEmpty(t, i);
  }

  /** No word boundary is required after the suffix: in "10mg" (two digits,
      'm', then any character that cannot extend the number) the inline
      pattern reads ten with the suffix "m". */
  lemma SuffixNeedsNoBoundary(s: string)
    requires |s| == 4 && IsDigit(s[0]) && IsDigit(s[1]) && s[2] == 'm' && !IsDigit(s[3]) && s[3] != '.'
    ensures InlineMatches(s) == [InlineMatch(s[..2], s[2..3])]
  {
    PlainTokenEnd(s, 0, 2, 0);
    SuffixMAt(s, 2);
    var t := InlineTable(s);
    assert t[0] == Some(InlineSpan(0, 2, 3));
    assert t[3].None?;
    assert ScanFrom(t, 3) == ScanFrom(t, 4) == [];
    assert ScanFrom(t, 0) == [InlineSpan(0, 2, 3)] + ScanFrom(t, 3);
    assert InlineSpans(s) == [InlineSpan(0, 2, 3)];
    assert s[0..2] == s[..2];
  }

  /** A lone 'm' is the suffix "m": it cannot begin " hundred" or
      " thousand", and "k" differs from it. */
  lemma SuffixMAt(s: string, j: nat)
    requires j < |s| && s[j] == 'm'
    ensures InlineSuffixAt(s, j) == Some(s[j..j + 1])
  {
    assert Lower(s[j..j + 1]) == "m" by {
      assert Lower(s[j..j + 1])[0] == 'm';
    }
    InlineSuffixAtExact(s, j, s[j..j + 1]);
  }
}
