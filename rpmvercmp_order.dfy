/**
 * What `rpmvercmp` orders by. The corrected comparator is exactly a lexicographic order on token sequences
 * (`~` < end of version < letter runs < `^` < numbers), hence antisymmetric and transitive; the installed
 * comparator agrees with it whenever both versions have at least one segment.
 */
module RpmVersionOrder {
  import opened Wrappers
  import opened Text
  import opened RpmVersion

  // ---------------------------------------------------------------------------------------------
  // Decimal values of digit runs
  // ---------------------------------------------------------------------------------------------

  function Pow10(n: nat): (p: nat)
    ensures p >= 1
  {
    if n == 0 then 1 else 10 * Pow10(n - 1)
  }

  function Sign(n: int): int
  {
    if n < 0 then -1 else if n > 0 then 1 else 0
  }

  lemma {:induction false} Pow10Monotone(m: nat, n: nat)
    requires m <= n
    ensures Pow10(m) <= Pow10(n)
    decreases n
  {
    if m < n {
      Pow10Monotone(m, n - 1);
    }
  }

  lemma {:induction false} MulMonotone(a: nat, b: nat, c: nat)
    requires a <= b
    ensures a * c <= b * c
    decreases c
  {
    if c > 0 {
      MulMonotone(a, b, c - 1);
      assert a * c == a * (c - 1) + a;
      assert b * c == b * (c - 1) + b;
    }
  }

  lemma {:induction false} ValueBelowPower(s: string)
    requires AllDigits(s)
    ensures DecimalValue(s) < Pow10(|s|)
    decreases |s|
  {
    if s != [] {
      ValueBelowPower(s[..|s| - 1]);
    }
  }

  /** The value of a digit string read from the front: first digit times its place value, plus the rest. */
  lemma {:induction false} ValueFront(s: string)
    requires AllDigits(s) && |s| > 0
    ensures DecimalValue(s) == DigitValue(s[0]) * Pow10(|s| - 1) + DecimalValue(s[1..])
    decreases |s|
  {
    if |s| > 1 {
      var init, rest := s[..|s| - 1], s[1..];
      var last := DigitValue(s[|s| - 1]);
      ValueFront(init);
      assert rest[..|rest| - 1] == init[1..] && rest[|rest| - 1] == s[|s| - 1];
      assert DecimalValue(rest) == DecimalValue(init[1..]) * 10 + last;
      Regroup(DigitValue(s[0]), Pow10(|s| - 2), DecimalValue(init[1..]), last);
    }
  }

  /** The arithmetic of appending a digit to a number split at its first digit. */
  lemma Regroup(d: int, p: int, r: int, last: int)
    ensures (d * p + r) * 10 + last == d * (10 * p) + (r * 10 + last)
  {
  }

  /** A digit string that does not start with '0' has no fewer digits' worth of value than its length says. */
  lemma ValueAbovePower(s: string)
    requires AllDigits(s) && |s| > 0 && s[0] != '0'
    ensures DecimalValue(s) >= Pow10(|s| - 1)
  {
    ValueFront(s);
    MulMonotone(1, DigitValue(s[0]), Pow10(|s| - 1));
  }

  /** Leading zeros do not change the value: the value of `ltrim(s, '0')` is that of `s`. */
  lemma {:induction false} TrimZerosValue(s: string)
    requires AllDigits(s)
    ensures AllDigits(LTrimZeros(s)) && DecimalValue(LTrimZeros(s)) == DecimalValue(s)
    decreases |s|
  {
    var t := LTrimZeros(s);
    assert forall i :: 0 <= i < |t| ==> t[i] == s[|s| - |t| + i];
    if s != [] && s[0] == '0' {
      TrimZerosValue(s[1..]);
      ValueFront(s);
    }
  }

  lemma LeadingDigitDecides(dx: nat, dy: nat, p: nat, rx: nat, ry: nat)
    requires dx < dy && rx < p
    ensures dx * p + rx < dy * p + ry
  {
    MulMonotone(dx + 1, dy, p);
    assert (dx + 1) * p == dx * p + p;
  }

  /** For digit strings of equal length, string order is numeric order. */
  lemma {:induction false} EqualLengthOrder(x: string, y: string)
    requires AllDigits(x) && AllDigits(y) && |x| == |y|
    ensures StrCmp(x, y) == Sign(DecimalValue(x) - DecimalValue(y))
    decreases |x|
  {
    if |x| > 0 {
      ValueFront(x);
      ValueFront(y);
      var p := Pow10(|x| - 1);
      ValueBelowPower(x[1..]);
      ValueBelowPower(y[1..]);
      var dx, dy := DigitValue(x[0]), DigitValue(y[0]);
      if x[0] < y[0] {
        LeadingDigitDecides(dx, dy, p, DecimalValue(x[1..]), DecimalValue(y[1..]));
      } else if x[0] > y[0] {
        LeadingDigitDecides(dy, dx, p, DecimalValue(y[1..]), DecimalValue(x[1..]));
      } else {
        EqualLengthOrder(x[1..], y[1..]);
      }
    }
  }

  /** Without leading zeros, the longer digit string has the larger value. */
  lemma LongerIsLarger(a: string, b: string)
    requires AllDigits(a) && AllDigits(b) && |a| > |b| && a[0] != '0'
    ensures DecimalValue(a) > DecimalValue(b)
  {
    ValueAbovePower(a);
    ValueBelowPower(b);
    Pow10Monotone(|b|, |a| - 1);
  }

  /** Two digit segments: the loop body compares them by numeric value (leading zeros ignored). */
  lemma DigitStep(x: string, y: string)
    requires AllDigits(x) && AllDigits(y) && |x| > 0 && |y| > 0
    ensures DecimalValue(x) > DecimalValue(y) ==> Step(Some(x), Some(y)) == Some(1)
    ensures DecimalValue(x) < DecimalValue(y) ==> Step(Some(x), Some(y)) == Some(-1)
    ensures DecimalValue(x) == DecimalValue(y) ==> Step(Some(x), Some(y)) == None
  {
    var xt, yt := LTrimZeros(x), LTrimZeros(y);
    DigitsCompareTrimmed(x, y);
    TrimZerosValue(x);
    TrimZerosValue(y);
    if |xt| > |yt| {
      LongerIsLarger(xt, yt);
    } else if |xt| < |yt| {
      LongerIsLarger(yt, xt);
    } else {
      EqualLengthOrder(xt, yt);
      StrCmpZero(xt, yt);
    }
  }

  /** Two digit segments are compared by the lengths of their trimmed forms, then by those forms. */
  lemma DigitsCompareTrimmed(x: string, y: string)
    requires AllDigits(x) && AllDigits(y) && |x| > 0 && |y| > 0
    ensures var xt, yt := LTrimZeros(x), LTrimZeros(y);
      Step(Some(x), Some(y)) ==
        if |xt| > |yt| then Some(1) else if |xt| < |yt| then Some(-1) else TailCompare(Some(xt), Some(yt))
  {
    assert StartsWithDigit(Some(x)) && StartsWithDigit(Some(y));
  }

  // ---------------------------------------------------------------------------------------------
  // Tokens and their order
  // ---------------------------------------------------------------------------------------------

  /** What a segment means for the ordering. */
  datatype Token = Tilde | Letters(s: string) | Caret | Number(n: nat)

  function TokenOf(seg: string): Token
    requires IsSegment(seg)
  {
    if seg == "~" then Tilde
    else if seg == "^" then Caret
    else if IsDigit(seg[0]) then Number(DecimalValue(seg))
    else Letters(seg)
  }

  function Tokens(segs: seq<string>): (ts: seq<Token>)
    requires forall k :: 0 <= k < |segs| ==> IsSegment(segs[k])
    ensures |ts| == |segs| && forall k :: 0 <= k < |segs| ==> ts[k] == TokenOf(segs[k])
  {
    seq(|segs|, k requires 0 <= k < |segs| => TokenOf(segs[k]))
  }

  /** Position of a token class; `None` is the end of the version. */
  function Rank(t: Option<Token>): nat
  {
    match t
    case None => 1
    case Some(Tilde) => 0
    case Some(Letters(_)) => 2
    case Some(Caret) => 3
    case Some(Number(_)) => 4
  }

  /** Token order: by class, then letter runs by string order and numbers by value. */
  function TokenCmp(x: Option<Token>, y: Option<Token>): (r: int)
    ensures -1 <= r <= 1
  {
    if Rank(x) < Rank(y) then -1
    else if Rank(x) > Rank(y) then 1
    else if x.Some? && x.value.Letters? && y.Some? && y.value.Letters? then StrCmp(x.value.s, y.value.s)
    else if x.Some? && x.value.Number? && y.Some? && y.value.Number? then Sign(x.value.n - y.value.n)
    else 0
  }

  function Head(ts: seq<Token>): Option<Token>
  {
    if ts == [] then None else Some(ts[0])
  }

  /** Lexicographic order on token sequences, ending a sequence being the `None` token. */
  function LexCmp(x: seq<Token>, y: seq<Token>): (r: int)
    ensures -1 <= r <= 1
    decreases |x|
  {
    if x == [] && y == [] then 0
    else
      var c := TokenCmp(Head(x), Head(y));
      if c != 0 || x == [] || y == [] then c else LexCmp(x[1..], y[1..])
  }

  lemma TokenCmpZero(x: Option<Token>, y: Option<Token>)
    ensures TokenCmp(x, y) == 0 <==> x == y
  {
    if x.Some? && x.value.Letters? && y.Some? && y.value.Letters? {
      StrCmpZero(x.value.s, y.value.s);
    }
  }

  lemma TokenCmpAntisymmetric(x: Option<Token>, y: Option<Token>)
    ensures TokenCmp(x, y) == -TokenCmp(y, x)
  {
    if x.Some? && x.value.Letters? && y.Some? && y.value.Letters? {
      StrCmpAntisymmetric(x.value.s, y.value.s);
    }
  }

  lemma TokenCmpTransitive(x: Option<Token>, y: Option<Token>, z: Option<Token>)
    requires TokenCmp(x, y) <= 0 && TokenCmp(y, z) <= 0
    ensures TokenCmp(x, z) <= 0
    ensures TokenCmp(x, y) < 0 || TokenCmp(y, z) < 0 ==> TokenCmp(x, z) < 0
  {
    if Rank(x) == Rank(y) == Rank(z) && x.Some? && x.value.Letters? {
      StrCmpTransitive(x.value.s, y.value.s, z.value.s);
    }
  }

  lemma {:induction false} LexCmpZero(x: seq<Token>, y: seq<Token>)
    ensures LexCmp(x, y) == 0 <==> x == y
    decreases |x|
  {
    if x != [] || y != [] {
      TokenCmpZero(Head(x), Head(y));
      if x != [] && y != [] && x[0] == y[0] {
        LexCmpZero(x[1..], y[1..]);
        assert x == [x[0]] + x[1..] && y == [y[0]] + y[1..];
      }
    }
  }

  lemma {:induction false} LexCmpAntisymmetric(x: seq<Token>, y: seq<Token>)
    ensures LexCmp(x, y) == -LexCmp(y, x)
    decreases |x|
  {
    if x != [] || y != [] {
      TokenCmpAntisymmetric(Head(x), Head(y));
      if x != [] && y != [] {
        LexCmpAntisymmetric(x[1..], y[1..]);
      }
    }
  }

  lemma {:induction false} LexCmpTransitive(x: seq<Token>, y: seq<Token>, z: seq<Token>)
    requires LexCmp(x, y) <= 0 && LexCmp(y, z) <= 0
    ensures LexCmp(x, z) <= 0
    decreases |x|
  {
    if x == [] && z == [] {
    } else {
      var hx, hy, hz := Head(x), Head(y), Head(z);
      TokenCmpZero(hx, hy);
      TokenCmpZero(hy, hz);
      if x == [] && y == [] {
        assert LexCmp(y, z) == TokenCmp(hy, hz);
      } else {
        assert TokenCmp(hx, hy) <= 0;
        if y == [] || z == [] {
          assert TokenCmp(hy, hz) <= 0;
        } else if x != [] {
          assert TokenCmp(hy, hz) <= 0;
        }
        TokenCmpTransitive(hx, hy, hz);
        if TokenCmp(hx, hy) == 0 && TokenCmp(hy, hz) == 0 && x != [] {
          LexCmpTransitive(x[1..], y[1..], z[1..]);
        }
      }
    }
  }

  // ---------------------------------------------------------------------------------------------
  // The loop computes the token order
  // ---------------------------------------------------------------------------------------------

  predicate AllSegments(segs: seq<string>) { forall k :: 0 <= k < |segs| ==> IsSegment(segs[k]) }

  /** A segment starting with a digit is a digit run. */
  lemma DigitSegment(x: string)
    requires IsSegment(x) && IsDigit(x[0])
    ensures AllDigits(x) && TokenOf(x) == Number(DecimalValue(x))
  {
  }

  /** The loop body on two segments decides exactly when their tokens differ, and by their token order. */
  lemma StepBoth(x: string, y: string)
    requires IsSegment(x) && IsSegment(y)
    ensures Step(Some(x), Some(y)) ==
      (var c := TokenCmp(Some(TokenOf(x)), Some(TokenOf(y))); if c == 0 then None else Some(c))
  {
    if IsDigit(x[0]) && IsDigit(y[0]) {
      StepDigits(x, y);
    } else if IsDigit(x[0]) || IsDigit(y[0]) {
      StepMixed(x, y);
    } else {
      StepNonDigits(x, y);
    }
  }

  lemma StepDigits(x: string, y: string)
    requires IsSegment(x) && IsSegment(y) && IsDigit(x[0]) && IsDigit(y[0])
    ensures Step(Some(x), Some(y)) ==
      (var c := TokenCmp(Some(TokenOf(x)), Some(TokenOf(y))); if c == 0 then None else Some(c))
  {
    DigitSegment(x);
    DigitSegment(y);
    DigitStep(x, y);
  }

  lemma StepMixed(x: string, y: string)
    requires IsSegment(x) && IsSegment(y) && IsDigit(x[0]) != IsDigit(y[0])
    ensures Step(Some(x), Some(y)) ==
      (var c := TokenCmp(Some(TokenOf(x)), Some(TokenOf(y))); if c == 0 then None else Some(c))
  {
    assert StartsWithDigit(Some(x)) == IsDigit(x[0]) && StartsWithDigit(Some(y)) == IsDigit(y[0]);
    assert TokenOf(x).Number? == IsDigit(x[0]) && TokenOf(y).Number? == IsDigit(y[0]);
  }

  lemma StepNonDigits(x: string, y: string)
    requires IsSegment(x) && IsSegment(y) && !IsDigit(x[0]) && !IsDigit(y[0])
    ensures Step(Some(x), Some(y)) ==
      (var c := TokenCmp(Some(TokenOf(x)), Some(TokenOf(y))); if c == 0 then None else Some(c))
  {
    assert !StartsWithDigit(Some(x)) && !StartsWithDigit(Some(y));
    if x != "~" && x != "^" && y != "~" && y != "^" {
      assert TokenOf(x) == Letters(x) && TokenOf(y) == Letters(y);
      StrCmpZero(x, y);
    }
  }

  /** The loop body with the first version ended decides at once, except on a letter run. */
  lemma StepEndFirst(y: string)
    requires IsSegment(y)
    ensures TokenOf(y).Letters? ==> Step(None, Some(y)) == None
    ensures !TokenOf(y).Letters? ==> Step(None, Some(y)) == Some(TokenCmp(None, Some(TokenOf(y))))
  {
  }

  /** The loop body with the second version ended decides at once only on a digit run. */
  lemma StepEndSecond(x: string)
    requires IsSegment(x)
    ensures TokenOf(x).Number? ==> Step(Some(x), None) == Some(1)
    ensures !TokenOf(x).Number? ==> Step(Some(x), None) == None
  {
  }

  function Min(m: int, n: int): int { if m <= n then m else n }

  /** From counter value `i` on, with both lengths known, the loop computes the token order of the rest. */
  lemma {:induction false} LoopIsLex(aSegs: seq<string>, bSegs: seq<string>, i: int)
    requires AllSegments(aSegs) && AllSegments(bSegs)
    requires 1 <= i <= Min(|aSegs|, |bSegs|) + 1
    ensures LoopFrom(aSegs, bSegs, Some(|aSegs|), Some(|bSegs|), i, Min(|aSegs|, |bSegs|) + 1)
         == LexCmp(Tokens(aSegs)[i - 1..], Tokens(bSegs)[i - 1..])
    decreases Min(|aSegs|, |bSegs|) + 1 - i
  {
    var m, n := |aSegs|, |bSegs|;
    var bound := Min(m, n) + 1;
    var ta, tb := Tokens(aSegs)[i - 1..], Tokens(bSegs)[i - 1..];
    if i <= Min(m, n) {
      var x, y := aSegs[i - 1], bSegs[i - 1];
      StepBoth(x, y);
      TokenCmpZero(Some(TokenOf(x)), Some(TokenOf(y)));
      assert Head(ta) == Some(TokenOf(x)) && Head(tb) == Some(TokenOf(y));
      LoopIsLex(aSegs, bSegs, i + 1);
      assert ta[1..] == Tokens(aSegs)[i..] && tb[1..] == Tokens(bSegs)[i..];
    } else if m == n {
      assert ta == [] && tb == [];
      assert Step(Elem(aSegs, Some(i)), Elem(bSegs, Some(i))) == Step(None, None) == None;
    } else if m < n {
      assert ta == [] && Head(tb) == Some(TokenOf(bSegs[m]));
      StepEndFirst(bSegs[m]);
      assert Elem(bSegs, PlusOne(Some(m))) == Some(bSegs[m]);
    } else {
      assert tb == [] && Head(ta) == Some(TokenOf(aSegs[n]));
      StepEndSecond(aSegs[n]);
      assert Elem(aSegs, PlusOne(Some(n))) == Some(aSegs[n]);
    }
  }

  /** The corrected comparator on two versions is the token order of their segments. */
  lemma FixedIsTokenOrder(a: string, b: string)
    ensures RpmVerCmpFixed(Some(a), Some(b)) == LexCmp(Tokens(Segments(a)), Tokens(Segments(b)))
  {
    var aSegs, bSegs := Segments(a), Segments(b);
    if a == b {
      LexCmpZero(Tokens(aSegs), Tokens(bSegs));
    } else {
      assert LoopBound(Some(|aSegs|), Some(|bSegs|)) == Min(|aSegs|, |bSegs|) + 1;
      LoopIsLex(aSegs, bSegs, 1);
      assert Tokens(aSegs)[0..] == Tokens(aSegs) && Tokens(bSegs)[0..] == Tokens(bSegs);
    }
  }

  /** The corrected comparator is antisymmetric on versions. */
  lemma FixedAntisymmetric(a: string, b: string)
    ensures RpmVerCmpFixed(Some(a), Some(b)) == -RpmVerCmpFixed(Some(b), Some(a))
  {
    FixedIsTokenOrder(a, b);
    FixedIsTokenOrder(b, a);
    LexCmpAntisymmetric(Tokens(Segments(a)), Tokens(Segments(b)));
  }

  /** The corrected comparator is transitive on versions, strictly so when either step is strict. */
  lemma FixedTransitive(a: string, b: string, c: string)
    requires RpmVerCmpFixed(Some(a), Some(b)) <= 0 && RpmVerCmpFixed(Some(b), Some(c)) <= 0
    ensures RpmVerCmpFixed(Some(a), Some(c)) <= 0
    ensures RpmVerCmpFixed(Some(a), Some(b)) < 0 || RpmVerCmpFixed(Some(b), Some(c)) < 0 ==>
      RpmVerCmpFixed(Some(a), Some(c)) < 0
  {
    var ta, tb, tc := Tokens(Segments(a)), Tokens(Segments(b)), Tokens(Segments(c));
    FixedIsTokenOrder(a, b);
    FixedIsTokenOrder(b, c);
    FixedIsTokenOrder(a, c);
    LexCmpTransitive(ta, tb, tc);
    LexCmpZero(ta, tc);
    LexCmpAntisymmetric(tb, tc);
  }

  /** Two versions compare equal exactly when their segments mean the same tokens. */
  lemma FixedZeroIffSameTokens(a: string, b: string)
    ensures RpmVerCmpFixed(Some(a), Some(b)) == 0 <==> Tokens(Segments(a)) == Tokens(Segments(b))
  {
    FixedIsTokenOrder(a, b);
    LexCmpZero(Tokens(Segments(a)), Tokens(Segments(b)));
  }

  /** The installed comparator agrees with the corrected one unless a version has no segment at all. */
  lemma AsWrittenAgreesWithFixed(a: string, b: string)
    requires |Segments(a)| > 0 && |Segments(b)| > 0
    ensures RpmVerCmp(Some(a), Some(b)) == RpmVerCmpFixed(Some(a), Some(b))
  {
  }

  // ---------------------------------------------------------------------------------------------
  // Consequences for versions
  // ---------------------------------------------------------------------------------------------

  /** Appending tokens after a complete sequence decides by the first appended token against the end. */
  lemma {:induction false} LexExtension(t: seq<Token>, u: seq<Token>)
    requires |u| > 0
    ensures LexCmp(t + u, t) == TokenCmp(Some(u[0]), None)
    decreases |t|
  {
    if t == [] {
      assert t + u == u;
    } else {
      TokenCmpZero(Some(t[0]), Some(t[0]));
      assert (t + u)[1..] == t[1..] + u;
      LexExtension(t[1..], u);
    }
  }

  lemma {:induction false} DigitRunWhole(x: string)
    requires AllDigits(x)
    ensures DigitRun(x) == |x|
    decreases |x|
  {
    if x != [] {
      DigitRunWhole(x[1..]);
    }
  }

  /** Numbers compare by value: "9" < "10" and "010" == "10". */
  lemma NumericOrder(x: string, y: string)
    requires AllDigits(x) && AllDigits(y) && |x| > 0 && |y| > 0
    ensures RpmVerCmp(Some(x), Some(y)) == Sign(DecimalValue(x) - DecimalValue(y))
  {
    NumberTokensOrder(x, y);
    AsWrittenAgreesWithFixed(x, y);
    FixedIsTokenOrder(x, y);
  }

  /** The token order on two digit strings is their numeric order. */
  lemma NumberTokensOrder(x: string, y: string)
    requires AllDigits(x) && AllDigits(y) && |x| > 0 && |y| > 0
    ensures |Segments(x)| > 0 && |Segments(y)| > 0
    ensures LexCmp(Tokens(Segments(x)), Tokens(Segments(y))) == Sign(DecimalValue(x) - DecimalValue(y))
  {
    SingleNumber(x);
    SingleNumber(y);
    LexSingleNumbers(DecimalValue(x), DecimalValue(y));
  }

  /** A string of digits is one segment, the number it spells. */
  lemma SingleNumber(x: string)
    requires AllDigits(x) && |x| > 0
    ensures Segments(x) == [x] && Tokens(Segments(x)) == [Number(DecimalValue(x))]
  {
    DigitRunWhole(x);
    assert x[..|x|] == x;
    assert Segments(x) == [x];
  }

  lemma LexSingleNumbers(m: nat, n: nat)
    ensures LexCmp([Number(m)], [Number(n)]) == Sign(m - n)
  {
    var tx, ty := [Number(m)], [Number(n)];
    assert tx[1..] == [] && ty[1..] == [];
  }

  /**
   * When one version's segments continue another's, the longer one is greater, unless the first extra
   * segment is `~`, which sorts below the end of a version ("1.0~rc1" < "1.0" < "1.0^git1" < "1.0a" < "1.0.1").
   */
  lemma EndOfVersion(a: string, b: string)
    requires |Segments(b)| > 0 && |Segments(a)| > |Segments(b)| && Segments(a)[..|Segments(b)|] == Segments(b)
    ensures RpmVerCmp(Some(a), Some(b)) == (if Segments(a)[|Segments(b)|] == "~" then -1 else 1)
    ensures RpmVerCmp(Some(b), Some(a)) == -RpmVerCmp(Some(a), Some(b))
  {
    var sa, sb := Segments(a), Segments(b);
    var rest := sa[|sb|..];
    assert sa == sb + rest;
    assert Tokens(sa) == Tokens(sb) + Tokens(rest);
    LexExtension(Tokens(sb), Tokens(rest));
    FixedIsTokenOrder(a, b);
    FixedAntisymmetric(a, b);
    AsWrittenAgreesWithFixed(a, b);
    AsWrittenAgreesWithFixed(b, a);
  }

  /** Versions with the same segments compare equal (an empty segment list included). */
  lemma SameSegmentsEqual(a: string, b: string)
    requires Segments(a) == Segments(b)
    ensures RpmVerCmp(Some(a), Some(b)) == 0
  {
    if |Segments(a)| > 0 {
      AsWrittenAgreesWithFixed(a, b);
      FixedZeroIffSameTokens(a, b);
    }
  }

  /** Separators only separate: which separator stands between two segments does not matter ("1.0" == "1_0"). */
  lemma SeparatorsInterchangeable(p: string, c: char, d: char, q: string)
    requires IsSeparator(c) && IsSeparator(d)
    ensures RpmVerCmp(Some(p + [c] + q), Some(p + [d] + q)) == 0
  {
    SegmentsAroundSeparator(p, c, q);
    SegmentsAroundSeparator(p, d, q);
    SameSegmentsEqual(p + [c] + q, p + [d] + q);
  }

  /** Against a NULL second argument the loop body never returns -1. */
  lemma StepAgainstNull(x: Option<string>)
    ensures Step(x, None) != Some(-1)
  {
  }

  lemma {:induction false} LoopAgainstNull(aSegs: seq<string>, aLen: Option<int>, i: int, bound: int)
    ensures LoopFrom(aSegs, [], aLen, None, i, bound) >= 0
    decreases bound + 1 - i
  {
    if i <= bound {
      StepAgainstNull(Elem(aSegs, Some(i)));
      LoopAgainstNull(aSegs, aLen, i + 1, bound);
    }
  }

  /** Any version compares at least equal to a NULL one, with either comparator. */
  lemma AgainstNull(a: Option<string>)
    ensures RpmVerCmp(a, None) >= 0 && RpmVerCmpFixed(a, None) >= 0
  {
    LoopAgainstNull(SegmentsOf(a), ArrayLength(SegmentsOf(a)), 1, LoopBound(ArrayLength(SegmentsOf(a)), None));
    LoopAgainstNull(SegmentsOf(a), SegmentCount(a), 1, LoopBound(SegmentCount(a), None));
  }

  /** The triple with NULL in every place: the starting value of the callers' loops. */
  const NullEvr := Evr(None, None, None)

  /** A candidate is accepted against the NULL start exactly when its epoch is not negative. */
  lemma FirstCandidateAccepted(x: Evr)
    ensures RpmVerCmpEpoch(x, NullEvr) >= 0 <==> Coalesce(x.epoch) >= 0
    ensures RpmVerCmpEpochFixed(x, NullEvr) >= 0 <==> Coalesce(x.epoch) >= 0
  {
    AgainstNull(x.version);
    AgainstNull(x.release);
  }

  /** A triple as a row stores it: version and release are never NULL. */
  predicate Stored(x: Evr) { x.version.Some? && x.release.Some? }

  lemma EpochFixedAntisymmetric(x: Evr, y: Evr)
    requires Stored(x) && Stored(y)
    ensures RpmVerCmpEpochFixed(x, y) == -RpmVerCmpEpochFixed(y, x)
  {
    FixedAntisymmetric(x.version.value, y.version.value);
    FixedAntisymmetric(x.release.value, y.release.value);
  }

  lemma EpochFixedTransitive(x: Evr, y: Evr, z: Evr)
    requires Stored(x) && Stored(y) && Stored(z)
    requires RpmVerCmpEpochFixed(x, y) <= 0 && RpmVerCmpEpochFixed(y, z) <= 0
    ensures RpmVerCmpEpochFixed(x, z) <= 0
  {
    var ex, ey, ez := Coalesce(x.epoch), Coalesce(y.epoch), Coalesce(z.epoch);
    if ex == ey == ez {
      var vx, vy, vz := x.version.value, y.version.value, z.version.value;
      FixedTransitive(vx, vy, vz);
      if RpmVerCmpFixed(Some(vx), Some(vy)) == 0 && RpmVerCmpFixed(Some(vy), Some(vz)) == 0 {
        FixedTransitive(x.release.value, y.release.value, z.release.value);
      }
    }
  }

  /** The installed `rpmvercmp_epoch` agrees with the corrected one when every version and release has a segment. */
  lemma EpochAsWrittenAgrees(x: Evr, y: Evr)
    requires Stored(x) && Stored(y)
    requires |Segments(x.version.value)| > 0 && |Segments(y.version.value)| > 0
    requires |Segments(x.release.value)| > 0 && |Segments(y.release.value)| > 0
    ensures RpmVerCmpEpoch(x, y) == RpmVerCmpEpochFixed(x, y)
  {
    AsWrittenAgreesWithFixed(x.version.value, y.version.value);
    AsWrittenAgreesWithFixed(x.release.value, y.release.value);
  }

  /**
   * The installed comparator is not antisymmetric once a version has no segment: "" is above "~" while "~"
   * equals "", and "~1" is above "". The corrected comparator orders all three as `~`-first.
   */
  lemma EmptyVersionAsymmetry()
    ensures RpmVerCmp(Some(""), Some("~")) == 1 && RpmVerCmp(Some("~"), Some("")) == 0
    ensures RpmVerCmp(Some("~1"), Some("")) == 1
    ensures RpmVerCmpFixed(Some(""), Some("~")) == 1 && RpmVerCmpFixed(Some("~"), Some("")) == -1
    ensures RpmVerCmpFixed(Some("~1"), Some("")) == -1
  {
    DigitRunWhole("1");
    assert "1"[..1] == "1" && "1"[1..] == [];
    assert Segments("1") == ["1"];
    assert "~1"[1..] == "1";
    assert Segments("~1") == ["~", "1"];
    assert Segments("~") == ["~"];
    assert Segments("") == [];
  }
}
