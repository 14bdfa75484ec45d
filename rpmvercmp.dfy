/**
 * The PL/pgSQL comparator `rpmvercmp(a, b)` and `rpmvercmp_epoch(...)` installed by migration 0091.
 *
 * A version string is cut into segments (runs of ASCII digits, runs of ASCII letters, and single `~` or `^`
 * characters; every other character only separates segments), and the segments are compared pairwise.
 * The arguments and the array reads of the stored procedure can be SQL NULL; the model keeps NULL as `None`
 * and follows SQL's three-valued logic: a condition that is NULL does not hold, an array read out of range is
 * NULL, `array_length` of an empty array is NULL and `least()` ignores NULL arguments.
 */
module RpmVersion {
  import opened Wrappers
  import opened Text

  // ---------------------------------------------------------------------------------------------
  // Segmentation: regexp_matches(s, '(\d+|[a-zA-Z]+|[~^])', 'g')
  // ---------------------------------------------------------------------------------------------

  predicate AllLetters(s: string) { forall i :: 0 <= i < |s| ==> IsAsciiLetter(s[i]) }

  predicate IsSeparator(c: char) { !IsDigit(c) && !IsAsciiLetter(c) && c != '~' && c != '^' }

  /** A segment: a digit run, a letter run, "~" or "^". */
  predicate IsSegment(t: string)
  {
    |t| > 0 && (AllDigits(t) || AllLetters(t) || t == "~" || t == "^")
  }

  function DigitRun(s: string): (n: nat)
    ensures n <= |s| && (forall i :: 0 <= i < n ==> IsDigit(s[i])) && (n < |s| ==> !IsDigit(s[n]))
  {
    if s == [] || !IsDigit(s[0]) then 0 else 1 + DigitRun(s[1..])
  }

  function LetterRun(s: string): (n: nat)
    ensures n <= |s| && (forall i :: 0 <= i < n ==> IsAsciiLetter(s[i])) && (n < |s| ==> !IsAsciiLetter(s[n]))
  {
    if s == [] || !IsAsciiLetter(s[0]) then 0 else 1 + LetterRun(s[1..])
  }

  /** The segments of `s`, left to right, each run taken whole. */
  function Segments(s: string): (segs: seq<string>)
    ensures forall k :: 0 <= k < |segs| ==> IsSegment(segs[k])
    decreases |s|
  {
    if s == [] then []
    else if IsDigit(s[0]) then
      var n := DigitRun(s);
      [s[..n]] + Segments(s[n..])
    else if IsAsciiLetter(s[0]) then
      var n := LetterRun(s);
      [s[..n]] + Segments(s[n..])
    else if s[0] == '~' || s[0] == '^' then [[s[0]]] + Segments(s[1..])
    else Segments(s[1..])
  }

  /** The segment array of a possibly NULL argument (regexp_matches yields no rows for NULL). */
  function SegmentsOf(a: Option<string>): seq<string>
  {
    match a
    case None => []
    case Some(s) => Segments(s)
  }

  lemma {:induction false} DigitRunAppend(p: string, r: string)
    requires r == [] || !IsDigit(r[0])
    ensures DigitRun(p + r) == DigitRun(p)
  {
    if p != [] && IsDigit(p[0]) {
      assert (p + r)[1..] == p[1..] + r;
      DigitRunAppend(p[1..], r);
    }
  }

  lemma {:induction false} LetterRunAppend(p: string, r: string)
    requires r == [] || !IsAsciiLetter(r[0])
    ensures LetterRun(p + r) == LetterRun(p)
  {
    if p != [] && IsAsciiLetter(p[0]) {
      assert (p + r)[1..] == p[1..] + r;
      LetterRunAppend(p[1..], r);
    }
  }

  /** Unfolding `Segments` on a string that starts with a run of length `n` (a digit or letter run). */
  lemma RunSegments(s: string, n: nat)
    requires 0 < |s| && (IsDigit(s[0]) ==> n == DigitRun(s)) && (!IsDigit(s[0]) ==> IsAsciiLetter(s[0]) && n == LetterRun(s))
    ensures 0 < n <= |s| && Segments(s) == [s[..n]] + Segments(s[n..])
  {
  }

  /** A separator character ends every run, so the segments on either side of it are independent. */
  lemma {:induction false} SegmentsAroundSeparator(p: string, c: char, q: string)
    requires IsSeparator(c)
    ensures Segments(p + [c] + q) == Segments(p) + Segments(q)
    decreases |p|
  {
    if p == [] {
      assert p + [c] + q == [c] + q && ([c] + q)[1..] == q;
    } else if IsDigit(p[0]) || IsAsciiLetter(p[0]) {
      var n := RunBeforeSeparator(p, c, q);
      SegmentsAroundSeparator(p[n..], c, q);
      SeqAssoc([p[..n]], Segments(p[n..]), Segments(q));
    } else {
      SkipBeforeSeparator(p, c, q);
      SegmentsAroundSeparator(p[1..], c, q);
      SeqAssoc(if p[0] == '~' || p[0] == '^' then [[p[0]]] else [], Segments(p[1..]), Segments(q));
    }
  }

  lemma SeqAssoc(a: seq<string>, b: seq<string>, c: seq<string>)
    ensures (a + b) + c == a + (b + c)
  {
  }

  /** A run at the front of `p` ends inside `p` when a separator follows `p`. */
  lemma RunBeforeSeparator(p: string, c: char, q: string) returns (n: nat)
    requires IsSeparator(c) && p != [] && (IsDigit(p[0]) || IsAsciiLetter(p[0]))
    ensures 0 < n <= |p|
    ensures Segments(p) == [p[..n]] + Segments(p[n..])
    ensures Segments(p + [c] + q) == [p[..n]] + Segments(p[n..] + [c] + q)
  {
    var r := [c] + q;
    var s := p + r;
    CharsAssoc(p, [c], q);
    n := if IsDigit(p[0]) then DigitRun(p) else LetterRun(p);
    if IsDigit(p[0]) { DigitRunAppend(p, r); } else { LetterRunAppend(p, r); }
    RunSegments(p, n);
    RunSegments(s, n);
    CutAppended(p, r, n);
    CharsAssoc(p[n..], [c], q);
  }

  lemma CharsAssoc(a: string, b: string, c: string)
    ensures a + b + c == a + (b + c)
  {
  }

  /** Cutting `p + r` inside `p`. */
  lemma CutAppended(p: string, r: string, n: nat)
    requires n <= |p|
    ensures (p + r)[..n] == p[..n] && (p + r)[n..] == p[n..] + r
  {
  }

  /** A character of `p` that starts no run is its own segment (`~`, `^`) or none, with or without what follows. */
  lemma SkipBeforeSeparator(p: string, c: char, q: string)
    requires p != [] && !IsDigit(p[0]) && !IsAsciiLetter(p[0])
    ensures var head := if p[0] == '~' || p[0] == '^' then [[p[0]]] else [];
      Segments(p) == head + Segments(p[1..]) && Segments(p + [c] + q) == head + Segments(p[1..] + [c] + q)
  {
    var s := p + [c] + q;
    assert s[0] == p[0] && s[1..] == p[1..] + [c] + q;
  }

  // ---------------------------------------------------------------------------------------------
  // The stored procedure, statement by statement
  // ---------------------------------------------------------------------------------------------

  /** `array_length(segs, 1)`: NULL for an empty array. */
  function ArrayLength(segs: seq<string>): Option<int>
  {
    if |segs| == 0 then None else Some(|segs|)
  }

  /** `segs[i]` with a 1-based, possibly NULL index; out of range reads NULL. */
  function Elem(segs: seq<string>, i: Option<int>): (r: Option<string>)
    ensures r.Some? ==> i.Some? && 1 <= i.value <= |segs| && r.value == segs[i.value - 1]
  {
    if i.Some? && 1 <= i.value <= |segs| then Some(segs[i.value - 1]) else None
  }

  function PlusOne(n: Option<int>): Option<int>
  {
    match n
    case None => None
    case Some(v) => Some(v + 1)
  }

  /** `least(a, b)`, which ignores NULL arguments. */
  function Least(a: Option<int>, b: Option<int>): Option<int>
  {
    match (a, b)
    case (None, None) => None
    case (Some(x), None) => Some(x)
    case (None, Some(y)) => Some(y)
    case (Some(x), Some(y)) => Some(if x <= y then x else y)
  }

  /** `coalesce(least(a_len, b_len) + 1, 0)`, the last value of the FOR loop's counter. */
  function LoopBound(aLen: Option<int>, bLen: Option<int>): int
  {
    match Least(aLen, bLen)
    case None => 0
    case Some(m) => m + 1
  }

  /** `seg ~ '^\d'` holds (it is NULL, so does not hold, when `seg` is NULL). */
  predicate StartsWithDigit(seg: Option<string>)
  {
    seg.Some? && |seg.value| > 0 && IsDigit(seg.value[0])
  }

  /** `seg != t` holds (NULL when `seg` is NULL). */
  predicate DiffersFrom(seg: Option<string>, t: string)
  {
    seg.Some? && seg.value != t
  }

  /** `ltrim(s, '0')` */
  function LTrimZeros(s: string): string
  {
    LStrip(s, {'0'})
  }

  /** `IF a_seg != b_seg THEN IF a_seg < b_seg THEN RETURN -1; ELSE RETURN 1;` */
  function TailCompare(a: Option<string>, b: Option<string>): (r: Option<int>)
    ensures r.Some? ==> r.value == -1 || r.value == 1
  {
    if a.Some? && b.Some? && a.value != b.value then Some(if StrLt(a.value, b.value) then -1 else 1)
    else None
  }

  /**
   * One pass of the FOR loop body on `a_seg`, `b_seg`: `Some(r)` is `RETURN r`, `None` goes on to the next
   * counter value. The branch order is the procedure's.
   */
  function Step(a: Option<string>, b: Option<string>): (r: Option<int>)
    ensures r.Some? ==> r.value == -1 || r.value == 1
  {
    if StartsWithDigit(a) then
      if StartsWithDigit(b) then
        var at, bt := LTrimZeros(a.value), LTrimZeros(b.value);
        if |at| > |bt| then Some(1)
        else if |at| < |bt| then Some(-1)
        else TailCompare(Some(at), Some(bt))
      else Some(1)
    else if StartsWithDigit(b) then Some(-1)
    else if a == Some("~") then
      if DiffersFrom(b, "~") then Some(-1) else TailCompare(a, b)
    else if b == Some("~") then Some(1)
    else if a == Some("^") then
      if DiffersFrom(b, "^") then Some(1) else TailCompare(a, b)
    else if b == Some("^") then Some(-1)
    else TailCompare(a, b)
  }

  /** The statements after the loop (the `~`/`^` look-ahead and the length comparison). */
  function AfterLoop(aSegs: seq<string>, bSegs: seq<string>, aLen: Option<int>, bLen: Option<int>): (r: int)
    ensures -1 <= r <= 1
  {
    if Elem(bSegs, PlusOne(aLen)) == Some("~") then 1
    else if Elem(aSegs, PlusOne(bLen)) == Some("~") then -1
    else if Elem(bSegs, PlusOne(aLen)) == Some("^") then -1
    else if Elem(aSegs, PlusOne(bLen)) == Some("^") then 1
    else if aLen.Some? && bLen.Some? && aLen.value > bLen.value then 1
    else if aLen.Some? && bLen.Some? && aLen.value < bLen.value then -1
    else 0
  }

  /** The loop from counter value `i` up to `bound`, then the statements after it. */
  function LoopFrom(aSegs: seq<string>, bSegs: seq<string>, aLen: Option<int>, bLen: Option<int>, i: int, bound: int): (r: int)
    ensures -1 <= r <= 1
    decreases bound + 1 - i
  {
    if i > bound then AfterLoop(aSegs, bSegs, aLen, bLen)
    else
      match Step(Elem(aSegs, Some(i)), Elem(bSegs, Some(i)))
      case Some(r) => r
      case None => LoopFrom(aSegs, bSegs, aLen, bLen, i + 1, bound)
  }

  /** Everything after the segment arrays are built, for given array lengths. */
  function Compare(aSegs: seq<string>, bSegs: seq<string>, aLen: Option<int>, bLen: Option<int>): (r: int)
    ensures -1 <= r <= 1
  {
    LoopFrom(aSegs, bSegs, aLen, bLen, 1, LoopBound(aLen, bLen))
  }

  /** `rpmvercmp(a, b)` as installed: -1, 0 or 1. */
  function RpmVerCmp(a: Option<string>, b: Option<string>): (r: int)
    ensures -1 <= r <= 1
    ensures a.Some? && a == b ==> r == 0
  {
    if a.Some? && b.Some? && a.value == b.value then 0
    else
      var aSegs, bSegs := SegmentsOf(a), SegmentsOf(b);
      Compare(aSegs, bSegs, ArrayLength(aSegs), ArrayLength(bSegs))
  }

  /** `coalesce(array_length(segs, 1), 0)` for a non-NULL argument; NULL for a NULL argument. */
  function SegmentCount(a: Option<string>): Option<int>
  {
    if a.None? then None else Some(|SegmentsOf(a)|)
  }

  /**
   * `rpmvercmp` with the array length of a non-NULL argument coalesced to 0, so that a version without
   * segments is the empty version instead of making every length test NULL (see README, "Findings").
   * A NULL argument (the "no candidate yet" of the callers' loops) is treated as before.
   */
  function RpmVerCmpFixed(a: Option<string>, b: Option<string>): (r: int)
    ensures -1 <= r <= 1
  {
    if a.Some? && b.Some? && a.value == b.value then 0
    else Compare(SegmentsOf(a), SegmentsOf(b), SegmentCount(a), SegmentCount(b))
  }

  /** The PL/pgSQL function itself: the segment arrays, then the loop. */
  method RpmVerCmpProc(a: Option<string>, b: Option<string>) returns (r: int)
    ensures r == RpmVerCmp(a, b)
  {
    if a.Some? && b.Some? && a.value == b.value {
      return 0;
    }
    var aSegs, bSegs := SegmentsOf(a), SegmentsOf(b);
    r := CompareLoop(aSegs, bSegs, ArrayLength(aSegs), ArrayLength(bSegs));
  }

  /** The FOR loop over the segments with its early RETURNs, and the length tests after it. */
  method CompareLoop(aSegs: seq<string>, bSegs: seq<string>, aLen: Option<int>, bLen: Option<int>) returns (r: int)
    ensures r == Compare(aSegs, bSegs, aLen, bLen)
  {
    var bound := LoopBound(aLen, bLen);
    var i := 1;
    while i <= bound
      invariant i >= 1 && (bound >= 0 ==> i <= bound + 1)
      invariant LoopFrom(aSegs, bSegs, aLen, bLen, i, bound) == Compare(aSegs, bSegs, aLen, bLen)
      decreases bound + 1 - i
    {
      var aSeg, bSeg := Elem(aSegs, Some(i)), Elem(bSegs, Some(i));
      var step := Step(aSeg, bSeg);
      if step.Some? {
        return step.value;
      }
      i := i + 1;
    }
    r := AfterLoop(aSegs, bSegs, aLen, bLen);
  }

  // ---------------------------------------------------------------------------------------------
  // rpmvercmp_epoch
  // ---------------------------------------------------------------------------------------------

  function Coalesce(e: Option<int>): int
  {
    match e
    case None => 0
    case Some(v) => v
  }

  /** An epoch/version/release triple; each part may be NULL. */
  datatype Evr = Evr(epoch: Option<int>, version: Option<string>, release: Option<string>)

  /** `rpmvercmp_epoch(epoch1, version1, release1, epoch2, version2, release2)` */
  function RpmVerCmpEpoch(x: Evr, y: Evr): (r: int)
    ensures -1 <= r <= 1
  {
    var e1, e2 := Coalesce(x.epoch), Coalesce(y.epoch);
    if e1 < e2 then -1
    else if e1 > e2 then 1
    else
      var v := RpmVerCmp(x.version, y.version);
      if v != 0 then v else RpmVerCmp(x.release, y.release)
  }

  /** `rpmvercmp_epoch` built on the corrected comparator. */
  function RpmVerCmpEpochFixed(x: Evr, y: Evr): (r: int)
    ensures -1 <= r <= 1
  {
    var e1, e2 := Coalesce(x.epoch), Coalesce(y.epoch);
    if e1 < e2 then -1
    else if e1 > e2 then 1
    else
      var v := RpmVerCmpFixed(x.version, y.version);
      if v != 0 then v else RpmVerCmpFixed(x.release, y.release)
  }
}
